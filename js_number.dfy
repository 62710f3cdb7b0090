/** The JavaScript number conversions the extractor relies on: `parseInt(s, 10)`,
    `parseFloat`, `toFixed(2)` and `String(n)`. Numbers are exact: a parsed
    decimal literal is a `Decimal`, and a price that went through `toFixed(2)`
    is an integer count of hundredths. */
module JsNumber {
  import opened Wrappers
  import opened JsString

  /** A JavaScript number as the extractor sees it: `NaN`, or an integer
      (a quantity, or a price counted in hundredths). */
  datatype Num = NaN | Val(v: int)

  /** The exact value `(-1 if negative) * mantissa / 10^scale` of a decimal literal. */
  datatype Decimal = Decimal(negative: bool, mantissa: nat, scale: nat)

  predicate AllDigits(s: string) {
    forall i :: 0 <= i < |s| ==> IsDigit(s[i])
  }

  function DigitChar(d: nat): (c: char)
    requires d < 10
    ensures IsDigit(c) && DigitValue(c) == d
  {
    ('0' as int + d) as char
  }

  function DigitValue(c: char): nat
    requires IsDigit(c)
  {
    c as int - '0' as int
  }

  /** The value of a string of decimal digits (0 for the empty string). */
  function DigitsValue(ds: string): nat
    requires AllDigits(ds)
    decreases |ds|
  {
    if ds == [] then 0 else DigitsValue(ds[..|ds| - 1]) * 10 + DigitValue(ds[|ds| - 1])
  }

  function Pow10(n: nat): (r: nat)
    ensures r >= 1
  {
    if n == 0 then 1 else 10 * Pow10(n - 1)
  }

  function Abs(x: int): nat {
    if x < 0 then -x else x
  }

  lemma Regroup(x: int, p: int, y: int, d: int)
    ensures (x * p + y) * 10 + d == x * (10 * p) + (y * 10 + d)
  {
  }

  lemma AllDigitsAppend(a: string, b: string)
    requires AllDigits(a) && AllDigits(b)
    ensures AllDigits(a + b)
  {
  }

  lemma {:induction false} DigitsValueAppend(a: string, b: string)
    requires AllDigits(a) && AllDigits(b)
    ensures AllDigits(a + b)
    ensures DigitsValue(a + b) == DigitsValue(a) * Pow10(|b|) + DigitsValue(b)
    decreases |b|
  {
    AllDigitsAppend(a, b);
    if b == [] {
      assert a + b == a;
    } else {
      var b' := b[..|b| - 1];
      var c := b[|b| - 1];
      assert AllDigits(b');
      DigitsValueAppend(a, b');
      var ab := a + b;
      assert ab[..|ab| - 1] == a + b' && ab[|ab| - 1] == c;
      var x, p, y, d := DigitsValue(a), Pow10(|b'|), DigitsValue(b'), DigitValue(c);
      assert DigitsValue(ab) == DigitsValue(a + b') * 10 + d;
      assert DigitsValue(b) == y * 10 + d;
      assert Pow10(|b|) == 10 * p;
      Regroup(x, p, y, d);
    }
  }

  /** `String(n)` for a non-negative integer: its decimal digits, which read back as `n`. */
  function NatToString(n: nat): (r: string)
    ensures |r| >= 1 && AllDigits(r)
    ensures DigitsValue(r) == n
  {
    if n < 10 then [DigitChar(n)]
    else
      var r := NatToString(n / 10) + [DigitChar(n % 10)];
      assert r[..|r| - 1] == NatToString(n / 10);
      r
  }

  /** `String(i)` for an integer. */
  function IntToString(i: int): string {
    if i < 0 then "-" + NatToString(-i) else NatToString(i)
  }

  /** White space is skipped, then an optional `+` or `-` is read: the common
      start of `parseInt` and `parseFloat`. Gives the sign and what follows it. */
  function SignAndRest(s: string): (bool, string) {
    var t := DropWhile(s, IsSpace);
    if t != [] && (t[0] == '-' || t[0] == '+') then (t[0] == '-', t[1..]) else (false, t)
  }

  /** `parseInt(s, 10)`: the longest run of digits after the sign, or NaN when there is none. */
  function ParseInt(s: string): (r: Num)
    ensures r.NaN? <==> TakeWhile(SignAndRest(s).1, IsDigit) == []
  {
    var (negative, u) := SignAndRest(s);
    var ds := TakeWhile(u, IsDigit);
    if ds == [] then NaN else Val(if negative then -(DigitsValue(ds) as int) else DigitsValue(ds))
  }

  /** `parseFloat(s)` without exponents and `Infinity`: digits, optionally a
      point and more digits; NaN (`None`) when no digit is read. */
  function ParseFloat(s: string): (r: Option<Decimal>)
    ensures r.Some? ==> r.value.negative == SignAndRest(s).0
  {
    var sr := SignAndRest(s);
    var up := UnsignedPrefix(sr.1);
    if up.None? then None else Some(Decimal(sr.0, up.value.0, up.value.1))
  }

  /** The unsigned decimal literal at the start of `u`, as (mantissa, scale). */
  function UnsignedPrefix(u: string): Option<(nat, nat)> {
    var ip := TakeWhile(u, IsDigit);
    var fp := FractionDigits(u[|ip|..]);
    if ip == [] && fp == [] then None
    else
      AllDigitsAppend(ip, fp);
      Some((DigitsValue(ip + fp), |fp|))
  }

  /** The digits after a leading decimal point, if there is one. */
  function FractionDigits(rest: string): (fp: string)
    ensures AllDigits(fp)
  {
    if rest != [] && rest[0] == '.' then TakeWhile(rest[1..], IsDigit) else ""
  }

  /** The sign text of a literal. */
  function SignText(negative: bool): string {
    if negative then "-" else ""
  }

  /** `parseFloat(x.toFixed(2))`, in hundredths: `toFixed` rounds the magnitude
      to the nearest hundredth, a half going up, and keeps the sign. */
  function RoundToCents(d: Decimal): (c: int)
    ensures c < 0 ==> d.negative
    ensures c > 0 ==> !d.negative
  {
    var m := HalfUp(d.mantissa, Pow10(d.scale));
    if d.negative then -(m as int) else m
  }

  /** The magnitude of `RoundToCents(d)` is the nearest hundredth to the
      magnitude of `d`, a half going up. */
  lemma RoundToCentsNearest(d: Decimal)
    ensures NearestHundredth(Abs(RoundToCents(d)), d.mantissa, Pow10(d.scale))
  {
    var m := HalfUp(d.mantissa, Pow10(d.scale));
    assert Abs(RoundToCents(d)) == m;
  }

  /** `m` hundredths is the value `n / p` rounded to the nearest hundredth, a half going up. */
  predicate NearestHundredth(m: nat, n: nat, p: nat) {
    (2 * m - 1) * p <= 200 * n < (2 * m + 1) * p
  }

  /** A price without a sign rounds to a number of cents that is not
      negative. */
  lemma UnsignedCents(d: Decimal)
    requires !d.negative
    ensures RoundToCents(d) == Abs(RoundToCents(d))
  {
  }

  /** `n / p` rounded half-up to hundredths. */
  function HalfUp(n: nat, p: nat): (m: nat)
    requires p >= 1
    ensures NearestHundredth(m, n, p)
  {
    var a, b := 200 * n + p, 2 * p;
    var m, r := a / b, a % b;
    assert a == b * m + r && 0 <= r < b;
    assert (2 * m - 1) * p == b * m - p;
    assert (2 * m + 1) * p == b * m + p;
    m
  }

  /** `x.toFixed(2)` for a parsed decimal `x`. */
  function ToFixed2(d: Decimal): string {
    var m := Abs(RoundToCents(d));
    Literal(d.negative && d.mantissa > 0, NatToString(m / 100), Some([DigitChar(m % 100 / 10), DigitChar(m % 10)]))
  }

  /** `String(x)` for a number given in hundredths: no trailing zeros in the fraction. */
  function CentsToString(c: int): string {
    var m := Abs(c);
    var frac := m % 100;
    Literal(c < 0, NatToString(m / 100),
      if frac == 0 then None
      else if frac % 10 == 0 then Some([DigitChar(frac / 10)])
      else Some([DigitChar(frac / 10), DigitChar(frac % 10)]))
  }

  /** `String(n)` for a `Num` holding a plain integer. */
  function IntNumToString(n: Num): string {
    match n
    case NaN => "NaN"
    case Val(v) => IntToString(v)
  }

  /** `String(n)` for a `Num` holding hundredths. */
  function CentsNumToString(n: Num): string {
    match n
    case NaN => "NaN"
    case Val(v) => CentsToString(v)
  }

  lemma {:induction false} TakeWhileDigits(ip: string, rest: string)
    requires AllDigits(ip)
    requires rest == [] || !IsDigit(rest[0])
    ensures TakeWhile(ip + rest, IsDigit) == ip
    decreases |ip|
  {
    if ip == [] {
      assert ip + rest == rest;
    } else {
      var s := ip + rest;
      assert s[0] == ip[0] && s[1..] == ip[1..] + rest;
      TakeWhileDigits(ip[1..], rest);
      assert [ip[0]] + ip[1..] == ip;
    }
  }

  /** A string that starts with a sign or a digit has no leading white space to skip. */
  lemma NoLeadingSpace(s: string)
    requires s != [] && (s[0] == '-' || IsDigit(s[0]))
    ensures DropWhile(s, IsSpace) == s
  {
    assert !IsSpace(s[0]);
  }

  lemma SignOfLiteral(negative: bool, u: string)
    requires u != [] && IsDigit(u[0])
    ensures SignAndRest(SignText(negative) + u) == (negative, u)
  {
    var s := SignText(negative) + u;
    NoLeadingSpace(s);
    if negative {
      assert s[0] == '-' && s[1..] == u;
    } else {
      assert s == u;
    }
  }

  lemma FractionOf(fp: string)
    requires AllDigits(fp)
    ensures FractionDigits("." + fp) == fp
  {
    assert ("." + fp)[1..] == fp;
    TakeWhileAllDigits(fp);
  }

  lemma UnsignedOf(ip: string, frac: string, fp: string)
    requires |ip| >= 1 && AllDigits(ip) && AllDigits(fp)
    requires frac == [] || !IsDigit(frac[0])
    requires FractionDigits(frac) == fp
    ensures AllDigits(ip + fp)
    ensures UnsignedPrefix(ip + frac) == Some((DigitsValue(ip + fp), |fp|))
  {
    AllDigitsAppend(ip, fp);
    TakeWhileDigits(ip, frac);
    assert (ip + frac)[|ip|..] == frac;
  }

  /** A literal `[-]digits` or `[-]digits.digits`. */
  function Literal(negative: bool, ip: string, fp: Option<string>): string {
    SignText(negative) + (if fp.None? then ip else ip + ("." + fp.value))
  }

  /** Reading back a literal `[-]digits`. */
  lemma ParseIntegerLiteral(negative: bool, ip: string)
    requires |ip| >= 1 && AllDigits(ip)
    ensures ParseFloat(Literal(negative, ip, None)) == Some(Decimal(negative, DigitsValue(ip), 0))
  {
    UnsignedOf(ip, "", "");
    assert ip + "" == ip;
    SignOfLiteral(negative, ip);
  }

  /** Reading back a literal `[-]digits.digits`. */
  lemma ParseDecimalLiteral(negative: bool, ip: string, fp: string)
    requires |ip| >= 1 && AllDigits(ip) && AllDigits(fp)
    ensures AllDigits(ip + fp)
    ensures ParseFloat(Literal(negative, ip, Some(fp))) == Some(Decimal(negative, DigitsValue(ip + fp), |fp|))
  {
    FractionOf(fp);
    UnsignedOf(ip, "." + fp, fp);
    SignOfLiteral(negative, ip + ("." + fp));
  }

  lemma MulMonotone(x: int, y: int, p: nat)
    requires x <= y
    ensures x * p <= y * p
  {
    var k: nat := y - x;
    assert y * p == x * p + k * p;
  }

  /** Only one count of hundredths is nearest to a value. */
  lemma NearestUnique(a: nat, b: nat, n: nat, p: nat)
    requires p >= 1
    requires NearestHundredth(a, n, p) && NearestHundredth(b, n, p)
    ensures a == b
  {
    if a < b {
      MulMonotone(2 * a + 1, 2 * b - 1, p);
    } else if b < a {
      MulMonotone(2 * b + 1, 2 * a - 1, p);
    }
  }

  lemma RoundExact(d: Decimal, m: nat)
    requires NearestHundredth(m, d.mantissa, Pow10(d.scale))
    ensures Abs(RoundToCents(d)) == m
  {
    RoundToCentsNearest(d);
    NearestUnique(Abs(RoundToCents(d)), m, d.mantissa, Pow10(d.scale));
  }

  lemma Hundreds(m: nat)
    ensures m / 100 * 100 + (m % 100 / 10 * 10 + m % 10) == m
  {
    var q, r := m / 100, m % 100;
    assert m == q * 100 + r && 0 <= r < 100;
    var t, u := r / 10, r % 10;
    assert r == t * 10 + u && 0 <= u < 10;
    assert m == (q * 10 + t) * 10 + u;
    assert m % 10 == u;
  }

  lemma Tens(m: nat)
    ensures m / 10 * 10 + m % 10 == m
  {
  }

  /** The value of two digits. */
  lemma TwoDigitsValue(x: nat, y: nat)
    requires x < 10 && y < 10
    ensures DigitsValue([DigitChar(x), DigitChar(y)]) == x * 10 + y
  {
    var s := [DigitChar(x), DigitChar(y)];
    assert s[..1] == [DigitChar(x)];
    OneDigitValue(x);
    assert DigitsValue(s) == DigitsValue(s[..1]) * 10 + DigitValue(s[1]);
  }

  lemma OneDigitValue(x: nat)
    requires x < 10
    ensures DigitsValue([DigitChar(x)]) == x
  {
    assert [DigitChar(x)][..0] == [];
  }

  /** A price written with exactly two decimals keeps its exact value. */
  lemma TwoDecimalsExact(negative: bool, ip: string, fp: string)
    requires |ip| >= 1 && AllDigits(ip) && AllDigits(fp) && |fp| == 2
    ensures var d := ParseFloat(Literal(negative, ip, Some(fp)));
      d.Some? && d.value.scale == 2 && d.value.negative == negative
      && Abs(RoundToCents(d.value)) == DigitsValue(ip) * 100 + DigitsValue(fp)
  {
    ParseDecimalLiteral(negative, ip, fp);
    var d := ParseFloat(Literal(negative, ip, Some(fp))).value;
    assert Pow10(2) == 100 by { assert Pow10(1) == 10; }
    DigitsValueAppend(ip, fp);
    assert d.mantissa == DigitsValue(ip) * 100 + DigitsValue(fp);
    RoundExact(d, d.mantissa);
  }

  /** An unsigned number with two decimals is its mantissa in hundredths. */
  lemma TwoDecimalCents(d: Decimal)
    requires d.scale == 2 && !d.negative
    ensures RoundToCents(d) == d.mantissa
  {
    assert Pow10(2) == 100 by {
      assert Pow10(1) == 10;
    }
    RoundExact(d, d.mantissa);
    UnsignedCents(d);
  }

  /** Zero rounds to zero hundredths. */
  lemma ZeroRounds(d: Decimal)
    requires d.mantissa == 0
    ensures RoundToCents(d) == 0
  {
    var m := Abs(RoundToCents(d));
    var p := Pow10(d.scale);
    if m > 0 {
      MulMonotone(1, 2 * m - 1, p);
    }
  }

  /** The text `toFixed(2)` writes for `m` hundredths reads back as `m` hundredths. */
  lemma FixedLiteral(negative: bool, m: nat)
    ensures var e := ParseFloat(Literal(negative, NatToString(m / 100), Some([DigitChar(m % 100 / 10), DigitChar(m % 10)])));
      e.Some? && e.value.scale == 2 && e.value.negative == negative && Abs(RoundToCents(e.value)) == m
  {
    var fp := [DigitChar(m % 100 / 10), DigitChar(m % 10)];
    TwoDecimalsExact(negative, NatToString(m / 100), fp);
    TwoDigitsValue(m % 100 / 10, m % 10);
    Hundreds(m);
  }

  /** `parseFloat(x.toFixed(2))` reads back exactly the hundredths that `toFixed` kept. */
  lemma ToFixed2RoundTrip(d: Decimal)
    ensures var e := ParseFloat(ToFixed2(d));
      e.Some? && e.value.scale == 2 && RoundToCents(e.value) == RoundToCents(d)
  {
    var c := RoundToCents(d);
    var negative := d.negative && d.mantissa > 0;
    FixedLiteral(negative, Abs(c));
    var e := ParseFloat(ToFixed2(d)).value;
    var c' := RoundToCents(e);
    if d.mantissa == 0 {
      ZeroRounds(d);
    }
    assert Abs(c') == Abs(c);
    assert c' < 0 ==> negative;
    assert c' > 0 ==> !negative;
  }

  /** `parseFloat(String(x))` gives `x` back, for a number in hundredths. */
  lemma CentsToStringRoundTrip(c: int)
    ensures var e := ParseFloat(CentsToString(c));
      e.Some? && RoundToCents(e.value) == c
  {
    var m := Abs(c);
    var frac := m % 100;
    var ip := NatToString(m / 100);
    if frac == 0 {
      ParseIntegerLiteral(c < 0, ip);
      var e := ParseFloat(CentsToString(c)).value;
      assert e.mantissa == m / 100 && e.scale == 0;
      assert NearestHundredth(m, e.mantissa, Pow10(e.scale));
      RoundExact(e, m);
    } else if frac % 10 == 0 {
      var fp := [DigitChar(frac / 10)];
      ParseDecimalLiteral(c < 0, ip, fp);
      var e := ParseFloat(CentsToString(c)).value;
      OneDigitValue(frac / 10);
      DigitsValueAppend(ip, fp);
      assert Pow10(1) == 10;
      Tens(frac);
      assert e.mantissa * 10 == m && e.scale == 1;
      RoundExact(e, m);
    } else {
      var fp := [DigitChar(frac / 10), DigitChar(frac % 10)];
      TwoDecimalsExact(c < 0, ip, fp);
      TwoDigitsValue(frac / 10, frac % 10);
      Hundreds(m);
    }
  }

  lemma TakeWhileAllDigits(s: string)
    requires AllDigits(s)
    ensures TakeWhile(s, IsDigit) == s
  {
    TakeWhileDigits(s, "");
    assert s + "" == s;
  }

  /** `parseInt(String(i), 10)` gives `i` back. */
  lemma IntToStringRoundTrip(i: int)
    ensures ParseInt(IntToString(i)) == Val(i)
  {
    var ds := NatToString(Abs(i));
    TakeWhileAllDigits(ds);
    SignOfLiteral(i < 0, ds);
    assert IntToString(i) == SignText(i < 0) + ds;
  }
}
