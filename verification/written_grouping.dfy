/** The grouping exactly as the source builds it: the key of a row is the
    single string Trunk Group + "|||" + Country Destination, NaN when either
    side is NaN; the groups are the distinct key values in order of first
    occurrence, and a group collects the rows whose key compares equal to
    its value (NaN compares equal to nothing). Two discrepancies with the
    pair grouping of the `Grouping` module follow, and the condition under
    which the two agree. */
module WrittenGrouping {
  import opened Wrappers
  import opened Columns
  import opened Rows
  import opened Sequences
  import opened Grouping
  import opened Layout

  const KeySeparator: string := "|||"

  /** The key of a row under a pair key: the concatenation, or NaN (None). */
  function Encode(k: GroupKey): Option<string> {
    if k.trunk.Text? && k.country.Text? then Some(k.trunk.s + KeySeparator + k.country.s) else None
  }

  function WrittenKey(r: Rec): Option<string> {
    Encode(KeyOf(r))
  }

  function WrittenKeys(rows: seq<Rec>): (ks: seq<Option<string>>)
    ensures |ks| == |rows|
    ensures forall i :: 0 <= i < |rows| ==> ks[i] == WrittenKey(rows[i])
  {
    seq(|rows|, i requires 0 <= i < |rows| => WrittenKey(rows[i]))
  }

  /** The rows a group selects: those whose key equals `k`, provided `k`
      is not NaN. */
  function WrittenMembers(rows: seq<Rec>, k: Option<string>): (g: seq<Rec>)
    ensures forall r :: r in g <==> r in rows && k.Some? && WrittenKey(r) == k
  {
    if |rows| == 0 then []
    else (if k.Some? && WrittenKey(rows[0]) == k then [rows[0]] else []) + WrittenMembers(rows[1..], k)
  }

  /** The groups as the source forms them. */
  function WrittenGroups(rows: seq<Rec>): (gs: seq<seq<Rec>>)
    ensures |gs| == |Distinct(WrittenKeys(rows))|
    ensures forall i :: 0 <= i < |gs| ==> gs[i] == WrittenMembers(rows, Distinct(WrittenKeys(rows))[i])
  {
    var d := Distinct(WrittenKeys(rows));
    seq(|d|, i requires 0 <= i < |d| => WrittenMembers(rows, d[i]))
  }

  /** A row with a NaN Trunk Group vanishes from the report as written.
      Next to a row `r1` with a text key (which keeps the column textual),
      a row `r2` whose Trunk Group is empty gets the NaN key. NaN is one of
      the distinct keys, but its group selects no row, so the report has
      a zero subtotal for it and no detail row for `r2`: 8 rows where the
      layout formula asks for 9, and `r2`'s amounts are lost. The pair
      grouping keeps both rows. */
  lemma NullTrunkRowVanishes(r1: Rec, r2: Rec)
    requires r1.trunk.Text? && r1.country.Text? && r2.trunk.Null?
    ensures WrittenGroups([r1, r2]) == [[r1], []]
    ensures Details(Emit(WrittenGroups([r1, r2]))) == [r1]
    ensures |Emit(WrittenGroups([r1, r2]))| == 8
    ensures Emit(WrittenGroups([r1, r2]))[7] == Subtotal(0, 0, 0)
    ensures Groups([r1, r2]) == [[r1], [r2]]
    ensures Details(Emit(Groups([r1, r2]))) == [r1, r2]
    ensures |Emit(Groups([r1, r2]))| == 9
  {
    WrittenGroupsOfNullTrunk(r1, r2);
    TwoKeysTwoGroups(r1, r2);
    ReportOfOneAndEmpty(r1);
    ReportOfTwoSingletons(r1, r2);
  }

  /** The report for a one-row group followed by an empty group. */
  lemma ReportOfOneAndEmpty(r1: Rec)
    ensures Details(Emit([[r1], []])) == [r1]
    ensures |Emit([[r1], []])| == 8
    ensures Emit([[r1], []])[7] == Subtotal(0, 0, 0)
  {
    var none: seq<Rec> := [];
    var written := [[r1], none];
    assert Flatten(written) == [r1] by {
      assert Flatten(written) == [r1] + Flatten([none]);
      assert Flatten([none]) == none + Flatten([]);
    }
    EmitProjections(written);
    EmitEndsWithSubtotal(written);
    assert Total(none) == Totals(0, 0, 0);
  }

  /** The report for two one-row groups. */
  lemma ReportOfTwoSingletons(r1: Rec, r2: Rec)
    ensures Details(Emit([[r1], [r2]])) == [r1, r2]
    ensures |Emit([[r1], [r2]])| == 9
  {
    var pairs := [[r1], [r2]];
    assert Flatten(pairs) == [r1, r2] by {
      assert Flatten(pairs) == [r1] + Flatten([[r2]]);
      assert Flatten([[r2]]) == [r2] + Flatten([]);
    }
    EmitProjections(pairs);
  }

  lemma WrittenGroupsOfNullTrunk(r1: Rec, r2: Rec)
    requires r1.trunk.Text? && r1.country.Text? && r2.trunk.Null?
    ensures WrittenGroups([r1, r2]) == [[r1], []]
  {
    var rows := [r1, r2];
    NullTrunkDistinct(r1, r2);
    NullTrunkMembers(r1, r2);
    assert WrittenGroups(rows)[0] == [r1];
    assert WrittenGroups(rows)[1] == [];
  }

  lemma NullTrunkDistinct(r1: Rec, r2: Rec)
    requires r1.trunk.Text? && r1.country.Text? && r2.trunk.Null?
    ensures Distinct(WrittenKeys([r1, r2])) == [WrittenKey(r1), None]
  {
    assert WrittenKeys([r1, r2]) == [WrittenKey(r1), None];
    DistinctPair(WrittenKey(r1), None);
  }

  lemma NullTrunkMembers(r1: Rec, r2: Rec)
    requires r1.trunk.Text? && r1.country.Text? && r2.trunk.Null?
    ensures WrittenMembers([r1, r2], WrittenKey(r1)) == [r1]
    ensures WrittenMembers([r1, r2], None) == []
  {
    WrittenMembersOfPair(r1, r2, WrittenKey(r1));
    WrittenMembersOfPair(r1, r2, None);
    assert [r1] + [] == [r1];
  }

  /** Two rows with different (Trunk Group, Country Destination) pairs
      get the same written key, and so land in one group, when the first
      Trunk Group is `t|||x` with destination `c` and the second is `t` with
      destination `x|||c`; the pair grouping keeps them apart. */
  lemma SeparatorMergesGroups(r0: Rec, r1: Rec, t: string, x: string, c: string)
    requires r0.trunk == Text(t + KeySeparator + x) && r0.country == Text(c)
    requires r1.trunk == Text(t) && r1.country == Text(x + KeySeparator + c)
    ensures KeyOf(r0) != KeyOf(r1)
    ensures WrittenGroups([r0, r1]) == [[r0, r1]]
    ensures Groups([r0, r1]) == [[r0], [r1]]
  {
    assert KeyOf(r0) != KeyOf(r1) by {
      assert |KeySeparator| == 3;
      assert |r0.trunk.s| == |t| + 3 + |x|;
    }
    assert WrittenKey(r0) == WrittenKey(r1) by {
      assert (t + KeySeparator + x) + KeySeparator + c == t + KeySeparator + (x + KeySeparator + c);
    }
    SameWrittenKeyOneGroup(r0, r1);
    TwoKeysTwoGroups(r0, r1);
  }

  /** Two rows with the same (non-NaN) written key form one written group. */
  lemma SameWrittenKeyOneGroup(r0: Rec, r1: Rec)
    requires WrittenKey(r0).Some? && WrittenKey(r0) == WrittenKey(r1)
    ensures WrittenGroups([r0, r1]) == [[r0, r1]]
  {
    var rows := [r0, r1];
    SameWrittenKeyDistinct(r0, r1);
    SameWrittenKeyMembers(r0, r1);
    assert WrittenGroups(rows)[0] == [r0, r1];
  }

  lemma SameWrittenKeyDistinct(r0: Rec, r1: Rec)
    requires WrittenKey(r0) == WrittenKey(r1)
    ensures Distinct(WrittenKeys([r0, r1])) == [WrittenKey(r0)]
  {
    var k := WrittenKey(r0);
    assert WrittenKeys([r0, r1]) == [k, k];
    DistinctPair(k, k);
  }

  lemma SameWrittenKeyMembers(r0: Rec, r1: Rec)
    requires WrittenKey(r0).Some? && WrittenKey(r0) == WrittenKey(r1)
    ensures WrittenMembers([r0, r1], WrittenKey(r0)) == [r0, r1]
  {
    WrittenMembersOfPair(r0, r1, WrittenKey(r0));
    assert [r0] + [r1] == [r0, r1];
  }

  lemma WrittenMembersOfPair(r0: Rec, r1: Rec, k: Option<string>)
    ensures WrittenMembers([r0, r1], k) ==
            (if k.Some? && WrittenKey(r0) == k then [r0] else []) + (if k.Some? && WrittenKey(r1) == k then [r1] else [])
  {
    var tail := if k.Some? && WrittenKey(r1) == k then [r1] else [];
    assert [r0, r1][1..] == [r1] && [r1][1..] == [];
    assert WrittenMembers([r1], k) == tail + WrittenMembers([], k);
    assert WrittenMembers([r1], k) == tail;
  }

  /** A key whose fields are both text and whose trunk holds no '|'. */
  predicate Plain(k: GroupKey) {
    k.trunk.Text? && k.country.Text? && '|' !in k.trunk.s
  }

  /** On plain keys the written key determines the pair. */
  lemma {:induction false} EncodeInjective(k1: GroupKey, k2: GroupKey)
    requires Plain(k1) && Plain(k2)
    requires Encode(k1) == Encode(k2)
    ensures k1 == k2
  {
    var a, b, c, d := k1.trunk.s, k1.country.s, k2.trunk.s, k2.country.s;
    var s := a + KeySeparator + b;
    assert s == c + KeySeparator + d;
    BeforeBarOfKey(a, b);
    BeforeBarOfKey(c, d);
    assert a == s[..|a|] == c;
    assert b == s[|a| + 3..] == d;
  }

  /** The text before the first '|' of `s`. */
  function BeforeBar(s: string): string {
    if |s| == 0 || s[0] == '|' then [] else [s[0]] + BeforeBar(s[1..])
  }

  /** The written key's first '|' sits right after the trunk. */
  lemma {:induction false} BeforeBarOfKey(a: string, b: string)
    requires '|' !in a
    ensures BeforeBar(a + KeySeparator + b) == a
  {
    var s := a + KeySeparator + b;
    if |a| > 0 {
      assert s[1..] == a[1..] + KeySeparator + b;
      BeforeBarOfKey(a[1..], b);
      assert [a[0]] + a[1..] == a;
    }
  }

  /** Rows whose Trunk Group and Country Destination are text and whose
      Trunk Group holds no '|' (after the row filter the destination always
      is text). */
  predicate PlainRows(rows: seq<Rec>) {
    forall i :: 0 <= i < |rows| ==> Plain(KeyOf(rows[i]))
  }

  function EncodeAll(ks: seq<GroupKey>): (es: seq<Option<string>>)
    ensures |es| == |ks|
    ensures forall i :: 0 <= i < |ks| ==> es[i] == Encode(ks[i])
  {
    seq(|ks|, i requires 0 <= i < |ks| => Encode(ks[i]))
  }

  predicate PlainKeys(ks: seq<GroupKey>) {
    forall i :: 0 <= i < |ks| ==> Plain(ks[i])
  }

  /** Among plain keys, a key's encoding occurs iff the key does. */
  lemma EncodeMember(d: seq<GroupKey>, k: GroupKey)
    requires PlainKeys(d) && Plain(k)
    ensures Encode(k) in EncodeAll(d) <==> k in d
  {
    if Encode(k) in EncodeAll(d) {
      var i :| 0 <= i < |d| && EncodeAll(d)[i] == Encode(k);
      EncodeInjective(d[i], k);
    }
    if k in d {
      var i :| 0 <= i < |d| && d[i] == k;
      assert EncodeAll(d)[i] == Encode(k);
    }
  }

  lemma EncodeAllSnoc(d: seq<GroupKey>, k: GroupKey)
    ensures EncodeAll(d + [k]) == EncodeAll(d) + [Encode(k)]
  {
  }

  /** The distinct values of plain keys are plain. */
  lemma DistinctPlain(ks: seq<GroupKey>)
    requires PlainKeys(ks)
    ensures PlainKeys(Distinct(ks))
  {
    var d := Distinct(ks);
    forall i | 0 <= i < |d|
      ensures Plain(d[i])
    {
      assert d[i] in ks;
    }
  }

  /** Encoding keys that are all plain commutes with taking distinct values. */
  lemma {:induction false} DistinctEncode(ks: seq<GroupKey>)
    requires PlainKeys(ks)
    ensures Distinct(EncodeAll(ks)) == EncodeAll(Distinct(ks))
  {
    if |ks| > 0 {
      var n := |ks| - 1;
      var es := EncodeAll(ks);
      assert es[..n] == EncodeAll(ks[..n]);
      assert PlainKeys(ks[..n]);
      DistinctEncode(ks[..n]);
      var d := Distinct(ks[..n]);
      DistinctPlain(ks[..n]);
      EncodeMember(d, ks[n]);
      EncodeAllSnoc(d, ks[n]);
    }
  }

  /** On plain rows, a written group selects the same rows as the pair group
      of a key that occurs in the rows. */
  lemma {:induction false} WrittenMembersAgree(rows: seq<Rec>, k: GroupKey)
    requires PlainRows(rows)
    requires Plain(k)
    ensures WrittenMembers(rows, Encode(k)) == Members(rows, k)
  {
    if |rows| > 0 {
      WrittenMembersAgree(rows[1..], k);
      if WrittenKey(rows[0]) == Encode(k) {
        EncodeInjective(KeyOf(rows[0]), k);
      }
    }
  }

  /** When every Trunk Group and Country Destination is text and no Trunk
      Group holds '|', the grouping as written and the pair grouping
      produce the same groups in the same order. */
  lemma WrittenAgreesOnPlainRows(rows: seq<Rec>)
    requires PlainRows(rows)
    ensures WrittenGroups(rows) == Groups(rows)
  {
    assert WrittenKeys(rows) == EncodeAll(KeysOf(rows));
    DistinctEncode(KeysOf(rows));
    var d := GroupKeys(rows);
    forall i | 0 <= i < |d|
      ensures WrittenGroups(rows)[i] == Groups(rows)[i]
    {
      assert d[i] in KeysOf(rows);
      WrittenMembersAgree(rows, d[i]);
    }
  }
}
