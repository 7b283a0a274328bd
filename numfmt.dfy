/** Python's rendering of numbers inside f-strings, over exact values:
    `{n}` and `{n:02d}` for integers and `{x:.Nf}` for floats. CPython
    rounds the exact value of a float to N decimals, ties to even; that is
    what FormatFixed does with a `real`. Each rendering has a decoder beside
    it and a lemma that decoding gives back the value that was rendered. */
module NumFmt {
  import opened Wrappers
  import opened Text

  predicate IsDigit(c: char) { '0' <= c <= '9' }

  predicate AllDigits(s: string) { forall k :: 0 <= k < |s| ==> IsDigit(s[k]) }

  function DigitChar(d: nat): (c: char)
    requires d < 10
    ensures IsDigit(c)
  {
    ('0' as int + d) as char
  }

  function DigitValue(c: char): nat
    requires IsDigit(c)
  {
    c as int - '0' as int
  }

  /** Decimal digits with no superfluous leading zero: "0", or digits that
      do not start with '0'. This is how `str` writes a natural number. */
  predicate Canonical(s: string)
  {
    s != [] && AllDigits(s) && (|s| > 1 ==> s[0] != '0')
  }

  /** `str(n)` for a non-negative integer: its decimal digits, no leading zero. */
  function NatToString(n: nat): (r: string)
    ensures r != [] && AllDigits(r)
    ensures r[0] == '0' <==> n == 0
    ensures Canonical(r)
  {
    if n < 10 then [DigitChar(n)] else NatToString(n / 10) + [DigitChar(n % 10)]
  }

  /** `str(n)` for any integer. */
  function IntToString(n: int): string
  {
    if n < 0 then "-" + NatToString(-n) else NatToString(n)
  }

  /** The number a string of decimal digits denotes. */
  function DigitsValue(s: string): nat
    requires AllDigits(s)
  {
    if s == [] then 0 else DigitsValue(s[..|s| - 1]) * 10 + DigitValue(s[|s| - 1])
  }

  /** Reads back what IntToString writes: canonical digits, or a '-'
      followed by canonical digits other than "0". */
  function DecodeInt(s: string): Option<int>
  {
    if s != [] && s[0] == '-' then
      if Canonical(s[1..]) && s[1] != '0' then Some(-(DigitsValue(s[1..]) as int)) else None
    else if Canonical(s) then Some(DigitsValue(s) as int)
    else None
  }

  lemma {:induction false} NatToStringRoundTrip(n: nat)
    ensures DigitsValue(NatToString(n)) == n
  {
    if n >= 10 {
      NatToStringRoundTrip(n / 10);
      var s := NatToString(n);
      assert s[..|s| - 1] == NatToString(n / 10);
    }
  }

  /** Every integer renders to a text that decodes to it, and that text holds
      only digits and, for a negative number, one leading '-'. */
  lemma IntToStringRoundTrip(n: int)
    ensures DecodeInt(IntToString(n)) == Some(n)
    ensures forall k :: 0 <= k < |IntToString(n)| ==>
      IsDigit(IntToString(n)[k]) || (k == 0 && n < 0 && IntToString(n)[k] == '-')
  {
    if n < 0 {
      NatToStringRoundTrip(-n);
      assert IntToString(n)[1..] == NatToString(-n);
    } else {
      NatToStringRoundTrip(n);
    }
  }

  /** `{n:02d}`: zero-padded to width 2; a negative number or one of two or
      more digits is written as `str` writes it. */
  function Pad2(n: int): string
  {
    if 0 <= n < 10 then "0" + NatToString(n) else IntToString(n)
  }

  /** For 0 <= m <= 99, `{m:02d}` is exactly two digits that denote m. */
  lemma Pad2TwoDigits(m: int)
    requires 0 <= m <= 99
    ensures |Pad2(m)| == 2 && AllDigits(Pad2(m)) && DigitsValue(Pad2(m)) == m
  {
    if m < 10 {
      LeadingZero(NatToString(m));
      NatToStringRoundTrip(m);
    } else {
      NatToStringRoundTrip(m);
      assert NatToString(m) == NatToString(m / 10) + [DigitChar(m % 10)];
    }
  }

  function Pow10(p: nat): (r: nat)
    ensures r >= 1
  {
    if p == 0 then 1 else 10 * Pow10(p - 1)
  }

  /** The integer nearest to `y`, ties to the even neighbour. */
  function RoundHalfEven(y: real): (r: int)
    ensures y - 1.0 / 2.0 <= r as real <= y + 1.0 / 2.0
    ensures (r as real == y - 1.0 / 2.0 || r as real == y + 1.0 / 2.0) ==> r % 2 == 0
  {
    var n := y.Floor;
    var f := y - n as real;
    if f < 1.0 / 2.0 then n
    else if f > 1.0 / 2.0 then n + 1
    else if n % 2 == 0 then n
    else n + 1
  }

  lemma {:induction false} LeadingZero(s: string)
    requires AllDigits(s)
    ensures AllDigits("0" + s) && DigitsValue("0" + s) == DigitsValue(s)
  {
    if s != [] {
      LeadingZero(s[..|s| - 1]);
      assert ("0" + s)[..|s|] == "0" + s[..|s| - 1];
    }
  }

  /** The last p decimal digits of k, leading zeros included. */
  function LowDigits(k: nat, p: nat): (r: string)
    ensures |r| == p && AllDigits(r)
  {
    if p == 0 then [] else LowDigits(k / 10, p - 1) + [DigitChar(k % 10)]
  }

  /** k with its last p decimal digits dropped. */
  function HighPart(k: nat, p: nat): nat
  {
    if p == 0 then k else HighPart(k / 10, p - 1)
  }

  lemma {:induction false} HighLowSplit(k: nat, p: nat)
    ensures HighPart(k, p) * Pow10(p) + DigitsValue(LowDigits(k, p)) == k
  {
    if p > 0 {
      HighLowSplit(k / 10, p - 1);
      var h, d := HighPart(k, p), DigitsValue(LowDigits(k / 10, p - 1));
      var l := LowDigits(k, p);
      assert l[..|l| - 1] == LowDigits(k / 10, p - 1);
      assert DigitsValue(l) == d * 10 + k % 10;
      ShiftDigit(h, Pow10(p - 1), d, k / 10, k % 10, k);
    }
  }

  /** Appending a digit r to m = h * q + d multiplies both parts by ten. */
  lemma ShiftDigit(h: int, q: int, d: int, m: int, r: int, k: int)
    requires h * q + d == m && k == m * 10 + r
    ensures h * (10 * q) + (d * 10 + r) == k
  {
    assert h * (10 * q) == (h * q) * 10;
  }

  /** The digits of k / 10^p with exactly p decimals (no point when p is 0). */
  function FixedDigits(k: nat, p: nat): string
  {
    if p == 0 then NatToString(k)
    else NatToString(HighPart(k, p)) + "." + LowDigits(k, p)
  }

  function RealAbs(x: real): real
  {
    if x < 0.0 then -x else x
  }

  /** `a` lies within `e` of `b`. */
  predicate Near(a: real, b: real, e: real)
  {
    -e <= a - b <= e
  }

  /** Half a unit of the p-th decimal. */
  function HalfUnit(p: nat): real
  {
    1.0 / (2.0 * Pow10(p) as real)
  }

  /** |x| * 10^p rounded to an integer, ties to even. */
  function ScaledMagnitude(x: real, p: nat): (r: nat)
    ensures Near(r as real, RealAbs(x) * Pow10(p) as real, 1.0 / 2.0)
  {
    var r := RoundHalfEven(RealAbs(x) * Pow10(p) as real);
    r as nat
  }

  /** Fixed-point text with p decimals: x rounded to p decimals; a negative x keeps its '-'
      even when it rounds to zero, as CPython writes "-0.00". */
  function FormatFixed(x: real, p: nat): string
  {
    SignedDigits(x < 0.0, ScaledMagnitude(x, p), p)
  }

  /** The value FormatFixed writes down. */
  function Rounded(x: real, p: nat): real
  {
    SignedValue(x < 0.0, ScaledMagnitude(x, p), p)
  }

  /** k / 10^p with p decimals, after a '-' when `negative`. */
  function SignedDigits(negative: bool, k: nat, p: nat): string
  {
    Signed(negative, FixedDigits(k, p))
  }

  /** The value SignedDigits denotes. */
  function SignedValue(negative: bool, k: nat, p: nat): real
  {
    Negated(negative, k as real / Pow10(p) as real)
  }

  function Signed(negative: bool, u: string): string
  {
    if negative then "-" + u else u
  }

  function Negated(negative: bool, v: real): real
  {
    if negative then -v else v
  }

  /** Reads back an unsigned fixed-point text with exactly p decimals:
      canonical digits, then, when p > 0, a '.' and exactly p digits. */
  function DecodeUnsigned(s: string, p: nat): Option<real>
  {
    if p == 0 then
      if Canonical(s) then Some(DigitsValue(s) as real) else None
    else
      var k := IndexOf(s, '.');
      if k < |s| && Canonical(s[..k]) && AllDigits(s[k + 1..]) && |s| - (k + 1) == p
      then Some(PointValue(s[..k], s[k + 1..]))
      else None
  }

  /** The value of the text `a.b` for digit strings `a` and `b`. */
  function PointValue(a: string, b: string): real
    requires AllDigits(a) && AllDigits(b)
  {
    DigitsValue(a) as real + DigitsValue(b) as real / Pow10(|b|) as real
  }

  /** Reads back the text of `{x:.pf}`: an unsigned fixed-point text with
      exactly p decimals, optionally after a leading '-'. */
  function DecodeFixed(s: string, p: nat): Option<real>
  {
    if s != [] && s[0] == '-' then
      match DecodeUnsigned(s[1..], p)
      case None => None
      case Some(v) => Some(-v)
    else DecodeUnsigned(s, p)
  }

  lemma DecodePointed(a: string, b: string)
    requires Canonical(a) && b != [] && AllDigits(b)
    ensures DecodeUnsigned(a + "." + b, |b|) == Some(PointValue(a, b))
  {
    var s := a + "." + b;
    assert s == a + ['.'] + b;
    IndexOfConcat(a, '.', b);
    assert s[..|a|] == a && s[|a| + 1..] == b;
  }

  lemma QuotientParts(h: nat, d: nat, P: nat, k: nat)
    requires P >= 1 && h * P + d == k
    ensures h as real + d as real / P as real == k as real / P as real
  {
    assert k as real == h as real * P as real + d as real;
    assert (h as real * P as real + d as real) / P as real == h as real + d as real / P as real;
  }

  lemma PointedFixedDecode(k: nat, p: nat)
    requires p > 0
    ensures DecodeUnsigned(FixedDigits(k, p), p)
      == Some(PointValue(NatToString(HighPart(k, p)), LowDigits(k, p)))
  {
    DecodePointed(NatToString(HighPart(k, p)), LowDigits(k, p));
  }

  lemma PointedFixedValue(k: nat, p: nat)
    requires p > 0
    ensures PointValue(NatToString(HighPart(k, p)), LowDigits(k, p))
      == HighPart(k, p) as real + DigitsValue(LowDigits(k, p)) as real / Pow10(p) as real
  {
    NatToStringRoundTrip(HighPart(k, p));
  }

  lemma FixedDigitsDecode(k: nat, p: nat)
    ensures DecodeUnsigned(FixedDigits(k, p), p) == Some(k as real / Pow10(p) as real)
  {
    if p == 0 {
      WholeDecode(k);
    } else {
      PointedDecode(k, p);
    }
  }

  lemma WholeDecode(k: nat)
    ensures DecodeUnsigned(FixedDigits(k, 0), 0) == Some(k as real / Pow10(0) as real)
  {
    NatToStringRoundTrip(k);
    assert k as real / Pow10(0) as real == k as real;
  }

  lemma PointedDecode(k: nat, p: nat)
    requires p > 0
    ensures DecodeUnsigned(FixedDigits(k, p), p) == Some(k as real / Pow10(p) as real)
  {
    var a, b := NatToString(HighPart(k, p)), LowDigits(k, p);
    var h, d, P := HighPart(k, p), DigitsValue(b), Pow10(p);
    assert DecodeUnsigned(FixedDigits(k, p), p) == Some(PointValue(a, b)) by {
      PointedFixedDecode(k, p);
    }
    assert PointValue(a, b) == h as real + d as real / P as real by {
      PointedFixedValue(k, p);
    }
    assert h as real + d as real / P as real == k as real / P as real by {
      HighLowSplit(k, p);
      QuotientParts(h, d, P, k);
    }
    DecodeChain(FixedDigits(k, p), p, PointValue(a, b), h as real + d as real / P as real, k as real / P as real);
  }

  lemma DecodeChain(u: string, p: nat, x: real, y: real, z: real)
    requires DecodeUnsigned(u, p) == Some(x) && x == y && y == z
    ensures DecodeUnsigned(u, p) == Some(z)
  {
  }

  /** FixedDigits writes digits and at most a decimal point, starting with a digit. */
  lemma FixedDigitsChars(k: nat, p: nat)
    ensures FixedDigits(k, p) != [] && IsDigit(FixedDigits(k, p)[0])
    ensures forall i :: 0 <= i < |FixedDigits(k, p)| ==>
      IsDigit(FixedDigits(k, p)[i]) || FixedDigits(k, p)[i] == '.'
  {
    if p > 0 {
      var a, b := NatToString(HighPart(k, p)), LowDigits(k, p);
      var s := a + "." + b;
      assert FixedDigits(k, p) == s;
      assert s[0] == a[0];
      assert forall i :: 0 <= i < |s| ==> s[i] == if i < |a| then a[i] else if i == |a| then '.' else b[i - |a| - 1];
    }
  }

  /** FormatFixed writes only digits, a decimal point and a leading minus. */
  lemma FormatFixedAlphabet(x: real, p: nat)
    ensures forall i :: 0 <= i < |FormatFixed(x, p)| ==>
      IsDigit(FormatFixed(x, p)[i]) || FormatFixed(x, p)[i] == '.' || FormatFixed(x, p)[i] == '-'
  {
    FixedDigitsChars(ScaledMagnitude(x, p), p);
  }

  /** Unsigned text that starts with a digit decodes, with or without a
      leading minus, to its value with the matching sign. */
  lemma SignedDecode(negative: bool, u: string, p: nat, v: real)
    requires u != [] && IsDigit(u[0]) && DecodeUnsigned(u, p) == Some(v)
    ensures DecodeFixed(Signed(negative, u), p) == Some(Negated(negative, v))
  {
    if negative {
      var s := "-" + u;
      assert s[1..] == u;
    }
  }

  /** What FormatFixed writes is fixed-point text with exactly p decimals
      and an unpadded integer part, and it denotes the rounded value. */
  lemma FormatFixedRoundTrip(x: real, p: nat)
    ensures DecodeFixed(FormatFixed(x, p), p) == Some(Rounded(x, p))
  {
    SignedDigitsRoundTrip(x < 0.0, ScaledMagnitude(x, p), p);
  }

  /** "7.50" is the two-decimal text of 7.5. */
  lemma TwoDecimalExample()
    ensures DecodeFixed("7.50", 2) == Some(7.5)
  {
    var t := "7.50";
    assert IndexOf(t, '.') == 1;
    assert t[..1] == "7" && t[2..] == "50";
    assert DigitsValue("50") == 50 by {
      assert "50"[..1] == "5";
    }
  }

  /** With two decimals, "7.5" has too few and "07.50" a padded integer part. */
  lemma FixedShapeRejected()
    ensures DecodeFixed("7.5", 2) == None
    ensures DecodeFixed("07.50", 2) == None
  {
    assert IndexOf("7.5", '.') == 1;
    assert IndexOf("07.50", '.') == 2;
    assert "07.50"[..2] == "07";
  }

  /** `str` never writes "07" or "-0". */
  lemma IntShapeRejected()
    ensures DecodeInt("07") == None && DecodeInt("-0") == None
  {
    assert "-0"[1..] == "0";
  }

  lemma SignedDigitsRoundTrip(negative: bool, k: nat, p: nat)
    ensures DecodeFixed(SignedDigits(negative, k, p), p) == Some(SignedValue(negative, k, p))
  {
    FixedDigitsDecode(k, p);
    FixedDigitsChars(k, p);
    SignedDecode(negative, FixedDigits(k, p), p, k as real / Pow10(p) as real);
  }

  lemma DivideBounds(e: real, P: real)
    requires P > 0.0 && -1.0 / 2.0 <= e <= 1.0 / 2.0
    ensures -1.0 / (2.0 * P) <= e / P <= 1.0 / (2.0 * P)
  {
    assert 1.0 / (2.0 * P) == (1.0 / 2.0) / P;
    assert e / P <= (1.0 / 2.0) / P;
    assert (-1.0 / 2.0) / P <= e / P;
  }

  lemma DivideDifference(r: real, a: real, P: real)
    requires P > 0.0
    ensures (r - a * P) / P == r / P - a
  {
    assert (a * P) / P == a;
  }

  lemma CloseAfterDivision(r: real, a: real, P: real)
    requires P > 0.0 && Near(r, a * P, 1.0 / 2.0)
    ensures Near(r / P, a, 1.0 / (2.0 * P))
  {
    DivideBounds(r - a * P, P);
    DivideDifference(r, a, P);
  }

  /** ... and the rounded value is within half a unit of the last decimal. */
  lemma RoundedClose(x: real, p: nat)
    ensures Near(Rounded(x, p), x, HalfUnit(p))
  {
    ScaledClose(x, p, ScaledMagnitude(x, p));
  }

  /** The bound for any integer within one half of |x| * 10^p. */
  lemma ScaledClose(x: real, p: nat, k: nat)
    requires Near(k as real, RealAbs(x) * Pow10(p) as real, 1.0 / 2.0)
    ensures Near(Negated(x < 0.0, k as real / Pow10(p) as real), x, HalfUnit(p))
  {
    var P := Pow10(p) as real;
    Pow10Positive(p);
    CloseAfterDivision(k as real, RealAbs(x), P);
    SignedClose(x < 0.0, x, k as real / P, 1.0 / (2.0 * P));
  }

  lemma Pow10Positive(p: nat)
    ensures Pow10(p) as real > 0.0
  {
  }

  /** A magnitude close to |x|, given x's sign, is close to x. */
  lemma SignedClose(negative: bool, x: real, m: real, e: real)
    requires (negative <==> x < 0.0) && Near(m, RealAbs(x), e)
    ensures Near(Negated(negative, m), x, e)
  {
  }
}
