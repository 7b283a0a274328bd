/** String helpers with the meaning Python's `str` methods give them:
    `isspace`, `strip`, `replace` of one character, ASCII `lower`/`upper`
    and the substring test `p in s`. */
module Text {

  /** Python's `str.isspace` for one character: the ASCII control spaces,
      the information separators and the Unicode space separators. */
  predicate IsSpace(c: char)
  {
    c == ' ' || ('\t' <= c <= '\r') || ('\U{1C}' <= c <= '\U{1F}')
    || c == '\U{85}' || c == '\U{A0}' || c == '\U{1680}'
    || ('\U{2000}' <= c <= '\U{200A}') || c == '\U{2028}' || c == '\U{2029}'
    || c == '\U{202F}' || c == '\U{205F}' || c == '\U{3000}'
  }

  predicate AllSpace(s: string)
  {
    forall k :: 0 <= k < |s| ==> IsSpace(s[k])
  }

  function TrimLeft(s: string): (r: string)
    ensures |r| <= |s| && r == s[|s| - |r|..]
    ensures AllSpace(s[..|s| - |r|])
    ensures r == [] || !IsSpace(r[0])
  {
    if s != [] && IsSpace(s[0]) then
      var r := TrimLeft(s[1..]);
      assert s[..|s| - |r|] == [s[0]] + s[1..][..|s| - 1 - |r|];
      r
    else s
  }

  function TrimRight(s: string): (r: string)
    ensures |r| <= |s| && r == s[..|r|]
    ensures AllSpace(s[|r|..])
    ensures r == [] || !IsSpace(r[|r| - 1])
  {
    if s != [] && IsSpace(s[|s| - 1]) then
      var r := TrimRight(s[..|s| - 1]);
      assert s[|r|..] == s[..|s| - 1][|r|..] + [s[|s| - 1]];
      r
    else s
  }

  /** Python's `s.strip()`: leading and trailing whitespace removed. */
  function Strip(s: string): string
  {
    TrimRight(TrimLeft(s))
  }

  /** What `strip` returns is the slice of `s` between two runs of
      whitespace, and it neither begins nor ends with whitespace. */
  lemma StripIsTrimmedSlice(s: string)
    ensures exists i, j ::
      0 <= i <= j <= |s| && Strip(s) == s[i..j] && AllSpace(s[..i]) && AllSpace(s[j..])
    ensures Strip(s) == [] || (!IsSpace(Strip(s)[0]) && !IsSpace(Strip(s)[|Strip(s)| - 1]))
  {
    StripSlice(s);
    StripEnds(s);
  }

  lemma StripSlice(s: string)
    ensures exists i, j ::
      0 <= i <= j <= |s| && Strip(s) == s[i..j] && AllSpace(s[..i]) && AllSpace(s[j..])
  {
    var l := TrimLeft(s);
    var i := |s| - |l|;
    var r := TrimRight(l);
    var j := i + |r|;
    assert s[i..j] == l[..|r|];
    assert s[j..] == l[|r|..];
  }

  lemma StripEnds(s: string)
    ensures Strip(s) == [] || (!IsSpace(Strip(s)[0]) && !IsSpace(Strip(s)[|Strip(s)| - 1]))
  {
    var l := TrimLeft(s);
    var r := TrimRight(l);
    if r != [] {
      assert r[0] == l[0];
    }
  }

  lemma {:induction false} TrimLeftAllSpace(s: string)
    requires AllSpace(s)
    ensures TrimLeft(s) == []
  {
    if s != [] {
      TrimLeftAllSpace(s[1..]);
    }
  }

  /** `not s.strip()` holds exactly when every character of `s` is a space. */
  lemma StripEmptyIff(s: string)
    ensures Strip(s) == [] <==> AllSpace(s)
  {
    var l := TrimLeft(s);
    if AllSpace(s) {
      TrimLeftAllSpace(s);
    }
    if Strip(s) == [] {
      assert s == s[..|s| - |l|] + l;
      assert AllSpace(l[0..]);
    }
  }

  /** Python's `s.replace(a, b)` for single characters `a` and `b`. */
  function ReplaceChar(s: string, a: char, b: char): (r: string)
    ensures |r| == |s|
    ensures forall k :: 0 <= k < |s| ==> r[k] == if s[k] == a then b else s[k]
  {
    if s == [] then [] else [if s[0] == a then b else s[0]] + ReplaceChar(s[1..], a, b)
  }

  lemma ReplaceCharConcat(s: string, t: string, a: char, b: char)
    ensures ReplaceChar(s + t, a, b) == ReplaceChar(s, a, b) + ReplaceChar(t, a, b)
  {
    assert forall k :: 0 <= k < |s| + |t| ==> (s + t)[k] == if k < |s| then s[k] else t[k - |s|];
  }

  lemma ReplaceCharAbsent(s: string, a: char, b: char)
    requires a !in s
    ensures ReplaceChar(s, a, b) == s
  {
  }

  /** Swapping back undoes a swap into a character the text did not hold. */
  lemma ReplaceCharUndo(s: string, a: char, b: char)
    requires b !in s
    ensures ReplaceChar(ReplaceChar(s, a, b), b, a) == s
  {
  }

  /** The cell clean-up the row loops apply: every comma made a point, then surrounding whitespace stripped. */
  function Normalize(cell: string): string
  {
    Strip(ReplaceChar(cell, ',', '.'))
  }

  /** A decimal comma and a decimal point are the same to Normalize: two cells
      that agree up to swapping ',' and '.' normalise identically, and the
      normalised text never holds a comma. */
  lemma NormalizeIgnoresDecimalComma(s: string, t: string)
    requires |s| == |t|
    requires forall k :: 0 <= k < |s| ==> s[k] == t[k] || (s[k] in ",." && t[k] in ",.")
    ensures Normalize(s) == Normalize(t)
    ensures ',' !in Normalize(s)
  {
    var rs, rt := ReplaceChar(s, ',', '.'), ReplaceChar(t, ',', '.');
    forall k | 0 <= k < |s| ensures rs[k] == rt[k] {
      assert s[k] == t[k] || (s[k] in ",." && t[k] in ",.");
    }
    assert rs == rt;
    assert ',' !in rs by {
      forall k | 0 <= k < |rs| ensures rs[k] != ',' {
      }
    }
    StripKeepsAbsent(rs, ',');
  }

  /** Stripping never brings in a character the text lacked. */
  lemma StripKeepsAbsent(s: string, c: char)
    requires c !in s
    ensures c !in Strip(s)
  {
    StripIsTrimmedSlice(s);
    var i, j :| 0 <= i <= j <= |s| && Strip(s) == s[i..j];
    assert forall k :: 0 <= k < j - i ==> Strip(s)[k] == s[i + k];
  }

  /** The example of a decimal-comma cell: "500000,25" reads as "500000.25". */
  lemma DecimalCommaExample()
    ensures Normalize("500000,25") == Normalize("500000.25")
  {
    NormalizeIgnoresDecimalComma("500000,25", "500000.25");
  }

  /** ASCII case mapping; other characters are left as they are. */
  function LowerChar(c: char): char
  {
    if 'A' <= c <= 'Z' then (c as int + 32) as char else c
  }

  function UpperChar(c: char): char
  {
    if 'a' <= c <= 'z' then (c as int - 32) as char else c
  }

  function Lower(s: string): (r: string)
    ensures |r| == |s| && forall k :: 0 <= k < |s| ==> r[k] == LowerChar(s[k])
  {
    if s == [] then [] else [LowerChar(s[0])] + Lower(s[1..])
  }

  function Upper(s: string): (r: string)
    ensures |r| == |s| && forall k :: 0 <= k < |s| ==> r[k] == UpperChar(s[k])
  {
    if s == [] then [] else [UpperChar(s[0])] + Upper(s[1..])
  }

  /** `p` occurs in `s` starting at index `i`. */
  predicate OccursAt(s: string, p: string, i: int)
  {
    0 <= i && i + |p| <= |s| && s[i..i + |p|] == p
  }

  /** Python's substring test `p in s`. */
  function Contains(s: string, p: string): bool
    decreases |s|
  {
    if |p| > |s| then false
    else if s[..|p|] == p then true
    else Contains(s[1..], p)
  }

  /** Contains answers whether `p` occurs anywhere in `s`. */
  lemma {:induction false} ContainsIff(s: string, p: string)
    ensures Contains(s, p) <==> exists i :: OccursAt(s, p, i)
    decreases |s|
  {
    if |p| > |s| {
    } else if s[..|p|] == p {
      assert OccursAt(s, p, 0);
    } else {
      ContainsIff(s[1..], p);
      if Contains(s[1..], p) {
        var i :| OccursAt(s[1..], p, i);
        assert s[i + 1..i + 1 + |p|] == s[1..][i..i + |p|];
        assert OccursAt(s, p, i + 1);
      } else {
        assert s[..|p|] == s[0..|p|];
        forall i | OccursAt(s, p, i) ensures i >= 1 && OccursAt(s[1..], p, i - 1) {
          assert s[1..][i - 1..i - 1 + |p|] == s[i..i + |p|];
        }
      }
    }
  }

  /** Index of the first occurrence of `c` in `s`. */
  function IndexOf(s: string, c: char): (r: nat)
    ensures r <= |s|
    ensures r < |s| ==> s[r] == c
    ensures forall k :: 0 <= k < r ==> s[k] != c
  {
    if s == [] then 0 else if s[0] == c then 0 else 1 + IndexOf(s[1..], c)
  }

  lemma IndexOfConcat(a: string, c: char, b: string)
    requires c !in a
    ensures IndexOf(a + [c] + b, c) == |a|
  {
    var s := a + [c] + b;
    assert s[|a|] == c;
    assert forall k :: 0 <= k < |a| ==> s[k] == a[k];
  }
}
