/**
  Python's `str.strip()` with no argument, which the schema library applies to
  every string field when a schema's configuration sets `anystr_strip_whitespace`.
*/
module Whitespace {

  /** The characters `str.isspace()` accepts: the ASCII controls tab to carriage
      return, the separators U+001C..U+001F, space, and the Unicode spaces. */
  predicate IsSpace(c: char) {
    || ('\t' <= c <= '\r')
    || ('\U{1C}' <= c <= ' ')
    || c == '\U{85}' || c == '\U{A0}' || c == '\U{1680}'
    || ('\U{2000}' <= c <= '\U{200A}')
    || c == '\U{2028}' || c == '\U{2029}' || c == '\U{202F}' || c == '\U{205F}'
    || c == '\U{3000}'
  }

  predicate AllSpace(s: string) {
    forall i :: 0 <= i < |s| ==> IsSpace(s[i])
  }

  /** Neither the first nor the last character is whitespace. */
  predicate NoOuterSpace(s: string) {
    s == [] || (!IsSpace(s[0]) && !IsSpace(s[|s| - 1]))
  }

  /** The reference meaning of stripping: `r` is `s` with a whitespace prefix
      and a whitespace suffix cut off, leaving no whitespace at either end. */
  ghost predicate IsStripOf(s: string, r: string) {
    exists a, b :: 0 <= a <= b <= |s| && r == s[a..b] && AllSpace(s[..a]) && AllSpace(s[b..]) && NoOuterSpace(r)
  }

  /** `s` without its leading whitespace. */
  function TrimStart(s: string): (r: string)
    ensures |r| <= |s| && r == s[|s| - |r|..]
    ensures r == [] || !IsSpace(r[0])
  {
    if |s| > 0 && IsSpace(s[0]) then TrimStart(s[1..]) else s
  }

  /** What `TrimStart` cuts off is whitespace. */
  lemma {:induction false} TrimStartCutsSpace(s: string)
    ensures forall i :: 0 <= i < |s| - |TrimStart(s)| ==> IsSpace(s[i])
  {
    if |s| > 0 && IsSpace(s[0]) {
      TrimStartCutsSpace(s[1..]);
      assert forall i :: 1 <= i < |s| ==> s[i] == s[1..][i - 1];
    }
  }

  /** `s` without its trailing whitespace. */
  function TrimEnd(s: string): (r: string)
    ensures |r| <= |s| && r == s[..|r|]
    ensures r == [] || !IsSpace(r[|r| - 1])
  {
    if |s| > 0 && IsSpace(s[|s| - 1]) then TrimEnd(s[..|s| - 1]) else s
  }

  /** What `TrimEnd` cuts off is whitespace. */
  lemma {:induction false} TrimEndCutsSpace(s: string)
    ensures forall i :: |TrimEnd(s)| <= i < |s| ==> IsSpace(s[i])
  {
    if |s| > 0 && IsSpace(s[|s| - 1]) {
      TrimEndCutsSpace(s[..|s| - 1]);
    }
  }

  /** `s.strip()`. */
  function Strip(s: string): (r: string)
    ensures |r| <= |s|
    ensures NoOuterSpace(r)
  {
    TrimEnd(TrimStart(s))
  }

  /** `Strip` meets the reference definition. */
  lemma StripMeetsReference(s: string)
    ensures IsStripOf(s, Strip(s))
  {
    var t := TrimStart(s);
    var r := TrimEnd(t);
    var a := |s| - |t|;
    assert r == s[a..a + |r|];
    TrimStartCutsSpace(s);
    TrimEndCutsSpace(t);
    AllSpaceSlice(s, 0, a);
    AllSpaceSlice(s, a + |r|, |s|);
  }

  /** A string without outer whitespace is its own strip, and only such a string is. */
  lemma {:induction false} StripFixedPoint(s: string)
    ensures Strip(s) == s <==> NoOuterSpace(s)
  {
    if NoOuterSpace(s) {
      assert TrimStart(s) == s;
      assert TrimEnd(s) == s;
    }
  }

  /** Stripping twice is stripping once. */
  lemma {:induction false} StripIdempotent(s: string)
    ensures Strip(Strip(s)) == Strip(s)
  {
    StripFixedPoint(Strip(s));
  }

  /** `AllSpace` of a slice, stated on the indexes of the whole string. */
  lemma {:induction false} AllSpaceSlice(s: string, lo: nat, hi: nat)
    requires lo <= hi <= |s|
    ensures AllSpace(s[lo..hi]) <==> forall i :: lo <= i < hi ==> IsSpace(s[i])
  {
    if AllSpace(s[lo..hi]) {
      forall i | lo <= i < hi ensures IsSpace(s[i]) {
        assert s[lo..hi][i - lo] == s[i];
      }
    }
  }

  /** The reference definition determines the result: `Strip` is the only
      string `IsStripOf` admits. */
  lemma {:induction false} StripIsUnique(s: string, r: string)
    requires IsStripOf(s, r)
    ensures r == Strip(s)
  {
    var a, b :| 0 <= a <= b <= |s| && r == s[a..b] && AllSpace(s[..a]) && AllSpace(s[b..]) && NoOuterSpace(r);
    StripOfCut(s, r, a, b);
  }

  /** A cut of whitespace at both ends that leaves no outer whitespace is `Strip`. */
  lemma {:induction false} StripOfCut(s: string, r: string, a: nat, b: nat)
    requires a <= b <= |s| && r == s[a..b] && AllSpace(s[..a]) && AllSpace(s[b..]) && NoOuterSpace(r)
    ensures r == Strip(s)
  {
    assert forall i :: 0 <= i < a ==> IsSpace(s[i]) by {
      AllSpaceSlice(s, 0, a);
    }
    assert forall i :: b <= i < |s| ==> IsSpace(s[i]) by {
      AllSpaceSlice(s, b, |s|);
    }
    if a < b {
      assert !IsSpace(s[a]) && !IsSpace(s[b - 1]) by {
        assert s[a] == r[0] && s[b - 1] == r[|r| - 1];
      }
      StripBetweenNonSpaces(s, a, b);
    } else {
      TrimStartOfSpaces(s);
    }
  }

  /** When `s[a]` and `s[b - 1]` are the first and last non-space characters,
      stripping keeps exactly `s[a..b]`. */
  lemma {:induction false} StripBetweenNonSpaces(s: string, a: nat, b: nat)
    requires a < b <= |s| && !IsSpace(s[a]) && !IsSpace(s[b - 1])
    requires forall i :: 0 <= i < a ==> IsSpace(s[i])
    requires forall i :: b <= i < |s| ==> IsSpace(s[i])
    ensures Strip(s) == s[a..b]
  {
    assert TrimStart(s) == s[a..] by {
      TrimStartAtFirstNonSpace(s, a);
    }
    var t := s[a..];
    assert TrimEnd(t) == s[a..b] by {
      forall i | b - a <= i < |t| ensures IsSpace(t[i]) {
        assert t[i] == s[a + i];
      }
      assert t[b - a - 1] == s[b - 1];
      TrimEndAtLastNonSpace(t, b - a);
      assert t[..b - a] == s[a..b];
    }
  }

  /** `TrimStart` keeps everything from the first non-space character on. */
  lemma {:induction false} TrimStartAtFirstNonSpace(s: string, a: nat)
    requires a < |s| && !IsSpace(s[a])
    requires forall i :: 0 <= i < a ==> IsSpace(s[i])
    ensures TrimStart(s) == s[a..]
  {
    if a > 0 {
      assert s[1..][a - 1] == s[a];
      assert forall i :: 0 <= i < a - 1 ==> s[1..][i] == s[i + 1];
      TrimStartAtFirstNonSpace(s[1..], a - 1);
      assert s[1..][a - 1..] == s[a..];
    }
  }

  /** `TrimStart` of a string of whitespace is empty. */
  lemma {:induction false} TrimStartOfSpaces(s: string)
    requires forall i :: 0 <= i < |s| ==> IsSpace(s[i])
    ensures TrimStart(s) == []
  {
    if s != [] {
      assert forall i :: 0 <= i < |s| - 1 ==> s[1..][i] == s[i + 1];
      TrimStartOfSpaces(s[1..]);
    }
  }

  /** `TrimEnd` keeps everything up to the last non-space character. */
  lemma {:induction false} TrimEndAtLastNonSpace(s: string, b: nat)
    requires 0 < b <= |s| && !IsSpace(s[b - 1])
    requires forall i :: b <= i < |s| ==> IsSpace(s[i])
    ensures TrimEnd(s) == s[..b]
  {
    if b < |s| {
      var shorter := s[..|s| - 1];
      assert shorter[b - 1] == s[b - 1];
      assert forall i :: b <= i < |shorter| ==> shorter[i] == s[i];
      TrimEndAtLastNonSpace(shorter, b);
      assert shorter[..b] == s[..b];
    }
  }
}
