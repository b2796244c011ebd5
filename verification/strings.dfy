/** Character-level helpers the report pipeline relies on: Python's
    `str.strip()`, `str.upper()` and the substring test `p in s`. */
module Strings {

  /** Whitespace as Python's `str.isspace` sees it inside ASCII: the space,
      the controls \t \n \v \f \r (9-13) and the separators 0x1C-0x1F. */
  predicate IsSpace(c: char) {
    c == ' ' || (9 <= c as int <= 13) || (28 <= c as int <= 31)
  }

  predicate AllSpace(s: string) {
    forall i :: 0 <= i < |s| ==> IsSpace(s[i])
  }

  /** The number of whitespace characters that open `s`. */
  function LeadingSpaces(s: string): (n: nat)
    ensures n <= |s|
    ensures AllSpace(s[..n])
    ensures n < |s| ==> !IsSpace(s[n])
  {
    if |s| > 0 && IsSpace(s[0]) then
      var m := LeadingSpaces(s[1..]);
      assert s[..1 + m] == [s[0]] + s[1..][..m];
      1 + m
    else 0
  }

  /** The number of whitespace characters that close `s`. */
  function TrailingSpaces(s: string): (n: nat)
    ensures n <= |s|
    ensures AllSpace(s[|s| - n..])
    ensures n < |s| ==> !IsSpace(s[|s| - 1 - n])
  {
    if |s| > 0 && IsSpace(s[|s| - 1]) then
      var t := s[..|s| - 1];
      var m := TrailingSpaces(t);
      var u := s[|s| - 1 - m..];
      assert AllSpace(u) by {
        forall i | 0 <= i < |u|
          ensures IsSpace(u[i])
        {
          var v := t[|t| - m..];
          if i < m {
            assert IsSpace(v[i]) && v[i] == u[i];
          } else {
            assert u[i] == s[|s| - 1];
          }
        }
      }
      assert 1 + m < |s| ==> s[|s| - 2 - m] == t[|t| - 1 - m];
      1 + m
    else 0
  }

  /** Python's `s.strip()`: `s` without its leading and trailing whitespace.
      The result is the slice of `s` that starts after the leading
      whitespace, everything cut off at either end is whitespace, and the
      result neither starts nor ends with whitespace. */
  function Strip(s: string): (r: string)
    ensures LeadingSpaces(s) + |r| <= |s|
    ensures r == s[LeadingSpaces(s)..LeadingSpaces(s) + |r|]
    ensures AllSpace(s[..LeadingSpaces(s)]) && AllSpace(s[LeadingSpaces(s) + |r|..])
    ensures r != [] ==> !IsSpace(r[0]) && !IsSpace(r[|r| - 1])
  {
    var k := LeadingSpaces(s);
    var t := s[k..];
    var n := TrailingSpaces(t);
    var r := t[..|t| - n];
    assert r == s[k..k + |r|];
    assert AllSpace(s[k + |r|..]) by {
      assert s[k + |r|..] == t[|t| - n..];
    }
    assert r != [] ==> !IsSpace(r[0]) && !IsSpace(r[|r| - 1]) by {
      if r != [] {
        assert r[0] == s[k];
        assert r[|r| - 1] == t[|t| - 1 - n];
      }
    }
    r
  }

  /** A string strips to nothing exactly when it is all whitespace (the
      "blank after trimming" test of the row filter). */
  lemma {:induction false} StripEmptyIffBlank(s: string)
    ensures Strip(s) == [] <==> AllSpace(s)
  {
    var k := LeadingSpaces(s);
    if Strip(s) == [] {
      assert s[..k] == s;
    }
  }

  /** Stripping twice strips no more than stripping once. */
  lemma StripIdempotent(s: string)
    ensures Strip(Strip(s)) == Strip(s)
  {
    var r := Strip(s);
    if r != [] {
      assert LeadingSpaces(r) == 0;
      assert TrailingSpaces(r[LeadingSpaces(r)..]) == 0;
    }
  }

  /** Python's `str.upper()` on one character, restricted to ASCII letters. */
  function UpperChar(c: char): (u: char)
    ensures 'a' <= c <= 'z' ==> u as int == c as int - 32
    ensures !('a' <= c <= 'z') ==> u == c
  {
    if 'a' <= c <= 'z' then (c as int - 32) as char else c
  }

  function Upper(s: string): (r: string)
    ensures |r| == |s|
    ensures forall i :: 0 <= i < |s| ==> r[i] == UpperChar(s[i])
  {
    seq(|s|, i requires 0 <= i < |s| => UpperChar(s[i]))
  }

  /** `p` occurs in `s` starting at position `i`. */
  predicate OccursAt(p: string, s: string, i: int) {
    0 <= i && i + |p| <= |s| && s[i..i + |p|] == p
  }

  /** Python's `p in s`: does `p` occur somewhere in `s`? The empty string
      occurs in every string. */
  function Contains(s: string, p: string): (b: bool)
    ensures b <==> exists i :: OccursAt(p, s, i)
    decreases |s|
  {
    if |p| <= |s| && s[..|p|] == p then
      assert OccursAt(p, s, 0);
      true
    else if |s| == 0 then
      false
    else
      var b := Contains(s[1..], p);
      assert forall i :: OccursAt(p, s[1..], i) ==> OccursAt(p, s, i + 1) by {
        forall i | OccursAt(p, s[1..], i)
          ensures OccursAt(p, s, i + 1)
        {
          assert s[1..][i..i + |p|] == s[i + 1..i + 1 + |p|];
        }
      }
      assert forall i :: OccursAt(p, s, i) ==> OccursAt(p, s[1..], i - 1) by {
        forall i | OccursAt(p, s, i)
          ensures OccursAt(p, s[1..], i - 1)
        {
          assert i != 0;
          assert s[1..][i - 1..i - 1 + |p|] == s[i..i + |p|];
        }
      }
      b
  }
}
