/** Keeping the first element for each key. The extractor deduplicates in two
    ways: a loop that remembers the keys it has seen in a `Set` and pushes each
    element whose key is new (`KeepFirst`), and a
    `filter((x, i) => i === findIndex(...))` over the whole array
    (`FilterFirst`). Both give the same result. */
module Dedup {

  /** The keys of the elements of `s`. */
  ghost function KeysOf<T, K>(s: seq<T>, key: T -> K): set<K> {
    set x | x in s :: key(x)
  }

  /** The elements of `s` whose key is not in `seen` and did not occur
      earlier in `s`, in order. */
  function KeepFirst<T, K(==)>(s: seq<T>, key: T -> K, seen: set<K>): (r: seq<T>)
    ensures |r| <= |s|
    ensures forall x :: x in r ==> x in s
    decreases |s|
  {
    if s == [] then []
    else if key(s[0]) in seen then KeepFirst(s[1..], key, seen)
    else [s[0]] + KeepFirst(s[1..], key, seen + {key(s[0])})
  }

  /** `a` can be obtained from `b` by deleting elements. */
  ghost predicate IsSubsequence<T>(a: seq<T>, b: seq<T>)
    decreases |b|
  {
    a == [] || (b != [] && ((a[0] == b[0] && IsSubsequence(a[1..], b[1..])) || IsSubsequence(a, b[1..])))
  }

  /** No two elements of `s` share a key. */
  predicate DistinctKeys<T, K(==)>(s: seq<T>, key: T -> K) {
    forall i, j :: 0 <= i < j < |s| ==> key(s[i]) != key(s[j])
  }

  /** The index of the first element of `s` with key `k`, or -1:
      `s.findIndex(t => key(t) === k)`. */
  function FindIndex<T, K(==)>(s: seq<T>, key: T -> K, k: K): (r: int)
    ensures -1 <= r < |s|
    ensures r == -1 ==> forall j :: 0 <= j < |s| ==> key(s[j]) != k
    ensures r >= 0 ==> key(s[r]) == k && forall j :: 0 <= j < r ==> key(s[j]) != k
    decreases |s|
  {
    if s == [] then -1
    else if key(s[0]) == k then 0
    else
      var r := FindIndex(s[1..], key, k);
      if r == -1 then -1 else r + 1
  }

  /** `self.filter((x, i) => i === self.findIndex(t => key(t) === key(x)))`,
      over the indices from `i` on. */
  function FilterFirst<T, K(==)>(self: seq<T>, key: T -> K, i: nat): seq<T>
    requires i <= |self|
    decreases |self| - i
  {
    if i == |self| then []
    else (if FindIndex(self, key, key(self[i])) == i then [self[i]] else []) + FilterFirst(self, key, i + 1)
  }

  lemma KeysOfAppend<T, K>(a: seq<T>, b: seq<T>, key: T -> K)
    ensures KeysOf(a + b, key) == KeysOf(a, key) + KeysOf(b, key)
  {
    assert forall x :: x in a + b <==> x in a || x in b;
  }

  /** Skipping the elements whose key has been seen: the output keys are the
      input keys that were not seen, and no two output elements share a key. */
  lemma {:induction false} KeepFirstKeys<T, K>(s: seq<T>, key: T -> K, seen: set<K>)
    ensures var r := KeepFirst(s, key, seen);
      && KeysOf(r, key) == KeysOf(s, key) - seen
      && DistinctKeys(r, key)
      && forall x :: x in r ==> key(x) !in seen
    decreases |s|
  {
    if s != [] {
      KeysOfAppend([s[0]], s[1..], key);
      assert [s[0]] + s[1..] == s;
      if key(s[0]) in seen {
        KeepFirstKeys(s[1..], key, seen);
      } else {
        var rest := KeepFirst(s[1..], key, seen + {key(s[0])});
        KeepFirstKeys(s[1..], key, seen + {key(s[0])});
        KeysOfAppend([s[0]], rest, key);
        ConsDistinct(s[0], rest, key);
      }
    }
  }

  /** An element whose key no later element has keeps the keys distinct. */
  lemma ConsDistinct<T, K>(x: T, rest: seq<T>, key: T -> K)
    requires DistinctKeys(rest, key)
    requires forall y :: y in rest ==> key(y) != key(x)
    ensures DistinctKeys([x] + rest, key)
  {
    var r := [x] + rest;
    forall i, j | 0 <= i < j < |r|
      ensures key(r[i]) != key(r[j])
    {
      if i == 0 {
        assert r[j] in rest;
      } else {
        assert r[i] == rest[i - 1] && r[j] == rest[j - 1];
      }
    }
  }

  /** Deduplicating from scratch: a subsequence of the input, with the same
      keys, no two elements sharing one. */
  lemma KeepFirstFromScratch<T, K>(s: seq<T>, key: T -> K)
    ensures var r := KeepFirst(s, key, {});
      && IsSubsequence(r, s)
      && KeysOf(r, key) == KeysOf(s, key)
      && DistinctKeys(r, key)
  {
    KeepFirstSubsequence(s, key, {});
    KeepFirstKeys(s, key, {});
    assert KeysOf(s, key) - {} == KeysOf(s, key);
  }

  /** The deduplicated sequence is a subsequence of the input. */
  lemma {:induction false} KeepFirstSubsequence<T, K>(s: seq<T>, key: T -> K, seen: set<K>)
    ensures IsSubsequence(KeepFirst(s, key, seen), s)
    decreases |s|
  {
    if s != [] {
      if key(s[0]) in seen {
        KeepFirstSubsequence(s[1..], key, seen);
        SkipHead(KeepFirst(s[1..], key, seen), s);
      } else {
        KeepFirstSubsequence(s[1..], key, seen + {key(s[0])});
        var r := [s[0]] + KeepFirst(s[1..], key, seen + {key(s[0])});
        assert r[0] == s[0] && r[1..] == KeepFirst(s[1..], key, seen + {key(s[0])});
      }
    }
  }

  lemma SkipHead<T>(a: seq<T>, b: seq<T>)
    requires b != [] && IsSubsequence(a, b[1..])
    ensures IsSubsequence(a, b)
  {
  }

  /** Appending an element to the longer sequence keeps a subsequence. */
  lemma {:induction false} SubsequenceExtend<T>(a: seq<T>, b: seq<T>, x: T)
    requires IsSubsequence(a, b)
    ensures IsSubsequence(a, b + [x])
    decreases |b|
  {
    if a != [] {
      assert b != [] && (b + [x])[0] == b[0] && (b + [x])[1..] == b[1..] + [x];
      if a[0] == b[0] && IsSubsequence(a[1..], b[1..]) {
        SubsequenceExtend(a[1..], b[1..], x);
      } else {
        SubsequenceExtend(a, b[1..], x);
      }
    }
  }

  /** Appending the same element to both keeps a subsequence. */
  lemma {:induction false} SubsequenceSnoc<T>(a: seq<T>, b: seq<T>, x: T)
    requires IsSubsequence(a, b)
    ensures IsSubsequence(a + [x], b + [x])
    decreases |b|
  {
    var a', b' := a + [x], b + [x];
    if b == [] {
      assert a == [] && a' == [x] && b' == [x];
      assert a'[1..] == [];
    } else if a == [] {
      assert IsSubsequence(a, b[1..]);
      SubsequenceSnoc(a, b[1..], x);
      assert b'[1..] == b[1..] + [x];
    } else {
      assert a'[0] == a[0] && a'[1..] == a[1..] + [x];
      assert b'[0] == b[0] && b'[1..] == b[1..] + [x];
      if a[0] == b[0] && IsSubsequence(a[1..], b[1..]) {
        SubsequenceSnoc(a[1..], b[1..], x);
      } else {
        SubsequenceSnoc(a, b[1..], x);
      }
    }
  }

  /** A sequence whose keys are distinct and unseen is left alone. */
  lemma {:induction false} KeepFirstDistinct<T, K>(s: seq<T>, key: T -> K, seen: set<K>)
    requires DistinctKeys(s, key)
    requires forall x :: x in s ==> key(x) !in seen
    ensures KeepFirst(s, key, seen) == s
    decreases |s|
  {
    if s != [] {
      forall x | x in s[1..]
        ensures key(x) !in seen + {key(s[0])}
      {
        var j :| 0 <= j < |s[1..]| && s[1..][j] == x;
        assert s[j + 1] == x;
      }
      KeepFirstDistinct(s[1..], key, seen + {key(s[0])});
      assert [s[0]] + s[1..] == s;
    }
  }

  /** Deduplicating twice gives the same result as deduplicating once. */
  lemma KeepFirstIdempotent<T, K>(s: seq<T>, key: T -> K, seen: set<K>)
    ensures KeepFirst(KeepFirst(s, key, seen), key, seen) == KeepFirst(s, key, seen)
  {
    KeepFirstKeys(s, key, seen);
    KeepFirstDistinct(KeepFirst(s, key, seen), key, seen);
  }

  /** Deduplicating a concatenation: the second part is deduplicated against
      the keys of the first. This is what lets a loop build the result one
      element at a time. */
  lemma {:induction false} KeepFirstAppend<T, K>(a: seq<T>, b: seq<T>, key: T -> K, seen: set<K>)
    ensures KeepFirst(a + b, key, seen) == KeepFirst(a, key, seen) + KeepFirst(b, key, seen + KeysOf(a, key))
    decreases |a|
  {
    if a == [] {
      assert a + b == b;
      assert seen + KeysOf(a, key) == seen;
    } else {
      assert (a + b)[0] == a[0] && (a + b)[1..] == a[1..] + b;
      KeysOfAppend([a[0]], a[1..], key);
      assert [a[0]] + a[1..] == a;
      if key(a[0]) in seen {
        KeepFirstAppend(a[1..], b, key, seen);
        assert seen + KeysOf(a[1..], key) == seen + KeysOf(a, key);
      } else {
        KeepFirstAppend(a[1..], b, key, seen + {key(a[0])});
        assert seen + {key(a[0])} + KeysOf(a[1..], key) == seen + KeysOf(a, key);
      }
    }
  }

  /** One more element, as the loop sees it. */
  lemma KeepFirstSnoc<T, K>(a: seq<T>, x: T, key: T -> K)
    ensures KeepFirst(a + [x], key, {}) ==
      KeepFirst(a, key, {}) + (if key(x) in KeysOf(a, key) then [] else [x])
  {
    KeepFirstAppend(a, [x], key, {});
    assert {} + KeysOf(a, key) == KeysOf(a, key);
    assert [x][1..] == [];
  }

  /** The first index holding key `key(s[i])` is `i` exactly when that key
      does not occur before `i`. */
  lemma FindIndexFirst<T, K>(s: seq<T>, key: T -> K, i: nat)
    requires i < |s|
    ensures FindIndex(s, key, key(s[i])) == i <==> key(s[i]) !in KeysOf(s[..i], key)
  {
    var k := key(s[i]);
    if k in KeysOf(s[..i], key) {
      var x :| x in s[..i] && key(x) == k;
      var j :| 0 <= j < i && s[..i][j] == x;
      assert key(s[j]) == k;
    }
  }

  /** The `filter`/`findIndex` formulation equals the `Set` loop formulation. */
  lemma {:induction false} FilterFirstIsKeepFirst<T, K>(self: seq<T>, key: T -> K, i: nat)
    requires i <= |self|
    ensures FilterFirst(self, key, i) == KeepFirst(self[i..], key, KeysOf(self[..i], key))
    decreases |self| - i
  {
    if i < |self| {
      FilterFirstIsKeepFirst(self, key, i + 1);
      FindIndexFirst(self, key, i);
      KeysOfSnoc(self, key, i);
      var t := self[i..];
      assert t[0] == self[i] && t[1..] == self[i + 1..];
      KeepFirstCons(t, key, KeysOf(self[..i], key));
    }
  }

  /** The keys up to and including index `i`. */
  lemma KeysOfSnoc<T, K>(s: seq<T>, key: T -> K, i: nat)
    requires i < |s|
    ensures KeysOf(s[..i + 1], key) == KeysOf(s[..i], key) + {key(s[i])}
  {
    assert s[..i + 1] == s[..i] + [s[i]];
    KeysOfAppend(s[..i], [s[i]], key);
    assert KeysOf([s[i]], key) == {key(s[i])};
  }

  /** One step of `KeepFirst`, with the seen set always grown. */
  lemma KeepFirstCons<T, K>(t: seq<T>, key: T -> K, seen: set<K>)
    requires t != []
    ensures KeepFirst(t, key, seen) ==
      (if key(t[0]) in seen then [] else [t[0]]) + KeepFirst(t[1..], key, seen + {key(t[0])})
  {
    if key(t[0]) in seen {
      assert seen + {key(t[0])} == seen;
    }
  }

  /** Both formulations over a whole sequence. */
  lemma FilterFirstAll<T, K>(self: seq<T>, key: T -> K)
    ensures FilterFirst(self, key, 0) == KeepFirst(self, key, {})
  {
    FilterFirstIsKeepFirst(self, key, 0);
    assert self[0..] == self && self[..0] == [];
    assert KeysOf(self[..0], key) == {};
  }

  /** `s` is ordered by `rank`. */
  ghost predicate OrderedBy<T>(s: seq<T>, rank: T -> int) {
    forall i, j :: 0 <= i < j < |s| ==> rank(s[i]) <= rank(s[j])
  }

  /** Deduplication keeps the input order: an ordering by `rank` that holds
      of the input holds of the output. */
  lemma {:induction false} KeepFirstOrdered<T, K>(s: seq<T>, key: T -> K, seen: set<K>, rank: T -> int)
    requires OrderedBy(s, rank)
    ensures OrderedBy(KeepFirst(s, key, seen), rank)
    decreases |s|
  {
    if s != [] {
      var s' := s[1..];
      forall i, j | 0 <= i < j < |s'|
        ensures rank(s'[i]) <= rank(s'[j])
      {
        assert s'[i] == s[i + 1] && s'[j] == s[j + 1];
      }
      if key(s[0]) in seen {
        KeepFirstOrdered(s', key, seen, rank);
      } else {
        var rest := KeepFirst(s', key, seen + {key(s[0])});
        KeepFirstOrdered(s', key, seen + {key(s[0])}, rank);
        var r := [s[0]] + rest;
        forall i, j | 0 <= i < j < |r|
          ensures rank(r[i]) <= rank(r[j])
        {
          if i == 0 {
            assert r[j] in s';
            var k :| 0 <= k < |s'| && s'[k] == r[j];
            assert s[k + 1] == r[j] && r[0] == s[0];
            assert rank(s[0]) <= rank(s[k + 1]);
          } else {
            assert r[i] == rest[i - 1] && r[j] == rest[j - 1];
            assert rank(rest[i - 1]) <= rank(rest[j - 1]);
          }
        }
        assert OrderedBy(r, rank);
      }
    }
  }

  /** How many elements of `s` have rank `v`. */
  function CountRank<T>(s: seq<T>, rank: T -> int, v: int): (n: nat)
    ensures n <= |s|
    decreases |s|
  {
    if s == [] then 0
    else (if rank(s[0]) == v then 1 else 0) + CountRank(s[1..], rank, v)
  }

  lemma {:induction false} CountRankAppend<T>(a: seq<T>, b: seq<T>, rank: T -> int, v: int)
    ensures CountRank(a + b, rank, v) == CountRank(a, rank, v) + CountRank(b, rank, v)
    decreases |a|
  {
    if a == [] {
      assert a + b == b;
    } else {
      assert (a + b)[0] == a[0] && (a + b)[1..] == a[1..] + b;
      CountRankAppend(a[1..], b, rank, v);
    }
  }

  lemma {:induction false} CountRankNone<T>(s: seq<T>, rank: T -> int, v: int)
    requires forall i :: 0 <= i < |s| ==> rank(s[i]) != v
    ensures CountRank(s, rank, v) == 0
    decreases |s|
  {
    if s != [] {
      CountRankNone(s[1..], rank, v);
    }
  }

  /** Deduplication never raises the number of elements of any rank. */
  lemma {:induction false} KeepFirstCount<T, K>(s: seq<T>, key: T -> K, seen: set<K>, rank: T -> int, v: int)
    ensures CountRank(KeepFirst(s, key, seen), rank, v) <= CountRank(s, rank, v)
    decreases |s|
  {
    if s != [] {
      if key(s[0]) in seen {
        KeepFirstCount(s[1..], key, seen, rank, v);
      } else {
        var rest := KeepFirst(s[1..], key, seen + {key(s[0])});
        KeepFirstCount(s[1..], key, seen + {key(s[0])}, rank, v);
        var r := [s[0]] + rest;
        assert r[0] == s[0] && r[1..] == rest;
      }
    }
  }
}
