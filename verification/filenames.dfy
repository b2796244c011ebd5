/** The output file name's stem: every character other than an
    alphanumeric, '_' or '-' becomes '_'; then the name is split at '_',
    empty pieces are dropped and the rest rejoined with '_' (collapsing
    runs and trimming underscores at both ends); then it is cut to 50
    characters. */
module FileNames {
  import opened Sequences

  /** Longest stem kept in an output file name. */
  const MaxStemLength: nat := 50

  /** Characters the stem may keep. `isAlnum` stands for Python's
      Unicode-aware `str.isalnum`. */
  predicate Allowed(isAlnum: char -> bool, c: char) {
    isAlnum(c) || c == '_' || c == '-'
  }

  /** Replaces every character that is not allowed by '_'. */
  function Replace(isAlnum: char -> bool, s: string): (r: string)
    ensures |r| == |s|
    ensures forall i :: 0 <= i < |s| ==> Allowed(isAlnum, r[i])
    ensures forall i :: 0 <= i < |s| && Allowed(isAlnum, s[i]) ==> r[i] == s[i]
    ensures forall i :: 0 <= i < |s| && !Allowed(isAlnum, s[i]) ==> r[i] == '_'
  {
    seq(|s|, i requires 0 <= i < |s| => if Allowed(isAlnum, s[i]) then s[i] else '_')
  }

  /** Python's `s.split(sep)`: the pieces between separators, always at
      least one, none containing the separator. */
  function Split(s: string, sep: char): (parts: seq<string>)
    ensures |parts| >= 1
    ensures forall i :: 0 <= i < |parts| ==> sep !in parts[i]
  {
    if |s| == 0 then [[]]
    else
      var rest := Split(s[1..], sep);
      if s[0] == sep then [[]] + rest
      else [[s[0]] + rest[0]] + rest[1..]
  }

  /** Joining the pieces of a split gives back the string. */
  lemma {:induction false} JoinSplit(s: string, sep: char)
    ensures Join(Split(s, sep), [sep]) == s
  {
    if |s| > 0 {
      var rest := Split(s[1..], sep);
      JoinSplit(s[1..], sep);
      if s[0] == sep {
        assert ([[]] + rest)[1..] == rest;
      } else {
        var parts := [[s[0]] + rest[0]] + rest[1..];
        assert parts[1..] == rest[1..];
        if |rest| > 1 {
          assert Join(rest, [sep]) == rest[0] + [sep] + Join(rest[1..], [sep]);
        }
      }
    }
  }

  lemma {:induction false} SplitNoSeparator(p: string, sep: char)
    requires sep !in p
    ensures Split(p, sep) == [p]
  {
    if |p| > 0 {
      SplitNoSeparator(p[1..], sep);
      assert [p[0]] + p[1..] == p;
    }
  }

  lemma {:induction false} SplitAfterPiece(p: string, sep: char, t: string)
    requires sep !in p
    ensures Split(p + [sep] + t, sep) == [p] + Split(t, sep)
  {
    var s := p + [sep] + t;
    if |p| == 0 {
      assert s == [sep] + t && s[1..] == t;
    } else {
      assert s[1..] == p[1..] + [sep] + t;
      SplitAfterPiece(p[1..], sep, t);
      assert [s[0]] + p[1..] == p;
    }
  }

  /** Splitting a join of separator-free pieces gives back the pieces. */
  lemma {:induction false} SplitJoin(parts: seq<string>, sep: char)
    requires |parts| >= 1
    requires forall i :: 0 <= i < |parts| ==> sep !in parts[i]
    ensures Split(Join(parts, [sep]), sep) == parts
  {
    if |parts| == 1 {
      SplitNoSeparator(parts[0], sep);
    } else {
      SplitJoin(parts[1..], sep);
      SplitAfterPiece(parts[0], sep, Join(parts[1..], [sep]));
    }
  }

  /** Python's `filter(None, parts)`: the non-empty pieces, in order. */
  function NonEmpty(parts: seq<string>): (r: seq<string>)
    ensures forall p :: p in r <==> p in parts && p != []
  {
    if |parts| == 0 then []
    else (if parts[0] != [] then [parts[0]] else []) + NonEmpty(parts[1..])
  }

  /** `'_'.join(filter(None, s.split('_')))`. */
  function Collapse(s: string): string {
    Join(NonEmpty(Split(s, '_')), "_")
  }

  predicate NoDoubleUnderscore(s: string) {
    forall i :: 0 < i < |s| ==> !(s[i - 1] == '_' && s[i] == '_')
  }

  /** No underscore at either end and no two in a row. */
  predicate Tidy(s: string) {
    (|s| > 0 ==> s[0] != '_' && s[|s| - 1] != '_') && NoDoubleUnderscore(s)
  }

  lemma {:induction false} JoinTidy(parts: seq<string>)
    requires forall i :: 0 <= i < |parts| ==> parts[i] != [] && '_' !in parts[i]
    ensures Tidy(Join(parts, ['_']))
    ensures |parts| > 0 ==> Join(parts, ['_']) != []
  {
    if |parts| == 1 {
      var p := parts[0];
      assert forall i :: 0 <= i < |p| ==> p[i] != '_';
    } else if |parts| > 1 {
      var p, j := parts[0], Join(parts[1..], ['_']);
      JoinTidy(parts[1..]);
      var s := p + ['_'] + j;
      assert s == Join(parts, ['_']);
      assert forall i :: 0 <= i < |p| ==> s[i] == p[i] && p[i] != '_';
      assert forall i :: |p| < i < |s| ==> s[i] == j[i - |p| - 1];
      assert s[|p|] == '_';
    }
  }

  /** The collapsed name is tidy. */
  lemma CollapseTidy(s: string)
    ensures Tidy(Collapse(s))
  {
    var ps := NonEmpty(Split(s, '_'));
    assert forall i :: 0 <= i < |ps| ==> ps[i] in ps;
    JoinTidy(ps);
  }

  /** The pieces of a string with no double and no trailing underscore are
      non-empty, except the first when the string opens with '_'. */
  lemma {:induction false} SplitPiecesNonEmpty(s: string)
    requires s != [] && s[|s| - 1] != '_' && NoDoubleUnderscore(s)
    ensures forall i :: 1 <= i < |Split(s, '_')| ==> Split(s, '_')[i] != []
    ensures Split(s, '_')[0] == [] <==> s[0] == '_'
  {
    var t := s[1..];
    if |t| > 0 {
      assert t[|t| - 1] == s[|s| - 1];
      assert forall i :: 0 < i < |t| ==> t[i - 1] == s[i] && t[i] == s[i + 1];
      SplitPiecesNonEmpty(t);
      if s[0] == '_' {
        assert s[1] == t[0];
      }
    }
  }

  lemma {:induction false} NonEmptyAll(parts: seq<string>)
    requires forall i :: 0 <= i < |parts| ==> parts[i] != []
    ensures NonEmpty(parts) == parts
  {
    if |parts| > 0 {
      NonEmptyAll(parts[1..]);
    }
  }

  /** Collapsing changes a name exactly when it is not tidy. */
  lemma CollapseFixedIffTidy(s: string)
    ensures Collapse(s) == s <==> Tidy(s)
  {
    CollapseTidy(s);
    if Tidy(s) && s != [] {
      SplitPiecesNonEmpty(s);
      var ps := Split(s, '_');
      assert forall i :: 0 <= i < |ps| ==> ps[i] != [];
      NonEmptyAll(ps);
      JoinSplit(s, '_');
    }
  }

  /** `s` with every underscore removed. */
  function DropUnderscores(s: string): (r: string)
    ensures forall c :: c in r <==> c in s && c != '_'
  {
    if |s| == 0 then []
    else (if s[0] == '_' then [] else [s[0]]) + DropUnderscores(s[1..])
  }

  lemma {:induction false} DropUnderscoresAppend(a: string, b: string)
    ensures DropUnderscores(a + b) == DropUnderscores(a) + DropUnderscores(b)
  {
    if |a| == 0 {
      assert a + b == b;
    } else {
      assert (a + b)[1..] == a[1..] + b;
      DropUnderscoresAppend(a[1..], b);
    }
  }

  lemma {:induction false} DropUnderscoresNone(p: string)
    requires '_' !in p
    ensures DropUnderscores(p) == p
  {
    if |p| > 0 {
      DropUnderscoresNone(p[1..]);
    }
  }

  lemma {:induction false} ConcatSplit(s: string)
    ensures Flatten(Split(s, '_')) == DropUnderscores(s)
  {
    if |s| > 0 {
      ConcatSplit(s[1..]);
      var rest := Split(s[1..], '_');
      if s[0] != '_' {
        var parts := [[s[0]] + rest[0]] + rest[1..];
        assert parts[1..] == rest[1..];
        assert Flatten(rest) == rest[0] + Flatten(rest[1..]);
      } else {
        assert ([[]] + rest)[1..] == rest;
      }
    }
  }

  lemma {:induction false} ConcatNonEmpty(parts: seq<string>)
    ensures Flatten(NonEmpty(parts)) == Flatten(parts)
  {
    if |parts| > 0 {
      ConcatNonEmpty(parts[1..]);
      var tail := NonEmpty(parts[1..]);
      if parts[0] == [] {
        assert NonEmpty(parts) == tail;
        assert Flatten(parts) == Flatten(parts[1..]);
      } else {
        assert NonEmpty(parts) == [parts[0]] + tail;
        assert ([parts[0]] + tail)[1..] == tail;
      }
    }
  }

  lemma {:induction false} DropUnderscoresJoin(parts: seq<string>)
    requires forall i :: 0 <= i < |parts| ==> '_' !in parts[i]
    ensures DropUnderscores(Join(parts, ['_'])) == Flatten(parts)
  {
    if |parts| == 1 {
      DropUnderscoresNone(parts[0]);
    } else if |parts| > 1 {
      DropUnderscoresJoin(parts[1..]);
      DropUnderscoresNone(parts[0]);
      DropUnderscoresAppend(parts[0] + ['_'], Join(parts[1..], ['_']));
      DropUnderscoresAppend(parts[0], ['_']);
    }
  }

  /** Collapsing only ever removes underscores: every other character is
      kept, in order. */
  lemma CollapseKeepsOtherChars(s: string)
    ensures DropUnderscores(Collapse(s)) == DropUnderscores(s)
  {
    var ps := NonEmpty(Split(s, '_'));
    assert forall i :: 0 <= i < |ps| ==> ps[i] in ps;
    DropUnderscoresJoin(ps);
    ConcatNonEmpty(Split(s, '_'));
    ConcatSplit(s);
  }

  /** The sanitised stem: the replaced and collapsed stem, cut to its
      first 50 characters. So it is at most 50 characters, each allowed, no
      underscore in front and none doubled; and, unless the cut at 50
      characters bites, no underscore at the end either. */
  function Sanitize(isAlnum: char -> bool, stem: string): (r: string)
    ensures |r| <= MaxStemLength
    ensures forall i :: 0 <= i < |r| ==> Allowed(isAlnum, r[i])
    ensures r != [] ==> r[0] != '_'
    ensures NoDoubleUnderscore(r)
    ensures |Collapse(Replace(isAlnum, stem))| <= MaxStemLength ==> Tidy(r)
    ensures var c := Collapse(Replace(isAlnum, stem));
            |r| == (if |c| <= MaxStemLength then |c| else MaxStemLength) && r == c[..|r|]
  {
    var replaced := Replace(isAlnum, stem);
    var c := Collapse(replaced);
    CollapseTidy(replaced);
    CollapseKeepsOtherChars(replaced);
    assert forall i :: 0 <= i < |c| ==> Allowed(isAlnum, c[i]) by {
      forall i | 0 <= i < |c|
        ensures Allowed(isAlnum, c[i])
      {
        if c[i] != '_' {
          assert c[i] in DropUnderscores(c);
          var j :| 0 <= j < |replaced| && replaced[j] == c[i];
        }
      }
    }
    if |c| > MaxStemLength then c[..MaxStemLength] else c
  }

  /** Sanitising a sanitised stem changes nothing, unless the cut at 50
      characters left an underscore at its end. */
  lemma SanitizeIdempotent(isAlnum: char -> bool, stem: string)
    requires var r := Sanitize(isAlnum, stem); r == [] || r[|r| - 1] != '_'
    ensures Sanitize(isAlnum, Sanitize(isAlnum, stem)) == Sanitize(isAlnum, stem)
  {
    var r := Sanitize(isAlnum, stem);
    assert Replace(isAlnum, r) == r;
    CollapseFixedIffTidy(r);
  }
}
