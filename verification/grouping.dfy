/** Grouping by (Trunk Group, Country Destination) in order of first
    occurrence. Each group is the stable sub-sequence of the rows carrying
    its key, and the groups together hold every row exactly once. */
module Grouping {
  import opened Columns
  import opened Rows
  import opened Sequences

  /** The pair a row is grouped by. Two rows share a group exactly when
      both fields are equal (case-sensitive, untrimmed). */
  datatype GroupKey = GroupKey(trunk: Cell, country: Cell)

  function KeyOf(r: Rec): GroupKey {
    GroupKey(r.trunk, r.country)
  }

  function KeysOf(rows: seq<Rec>): (ks: seq<GroupKey>)
    ensures |ks| == |rows|
    ensures forall i :: 0 <= i < |rows| ==> ks[i] == KeyOf(rows[i])
  {
    seq(|rows|, i requires 0 <= i < |rows| => KeyOf(rows[i]))
  }

  predicate NoDups<K(==)>(s: seq<K>) {
    forall i, j :: 0 <= i < j < |s| ==> s[i] != s[j]
  }

  /** The position of the first occurrence of `k` in `s`. */
  function FirstIndex<K(==)>(s: seq<K>, k: K): (i: nat)
    requires k in s
    ensures i < |s| && s[i] == k
    ensures forall j :: 0 <= j < i ==> s[j] != k
  {
    if s[0] == k then 0 else 1 + FirstIndex(s[1..], k)
  }

  /** A first occurrence inside a prefix is the first occurrence in the whole. */
  lemma FirstIndexPrefix<K>(s: seq<K>, n: nat)
    requires n <= |s|
    ensures forall k :: k in s[..n] ==> FirstIndex(s, k) == FirstIndex(s[..n], k)
  {
    forall k | k in s[..n]
      ensures FirstIndex(s, k) == FirstIndex(s[..n], k)
    {
      var i := FirstIndex(s[..n], k);
      assert s[i] == k;
    }
  }

  /** Python's `unique()`: every value of `ks` once, in order of first
      occurrence. */
  function Distinct<K(==,!new)>(ks: seq<K>): (d: seq<K>)
    ensures forall k :: k in d <==> k in ks
    ensures NoDups(d)
    ensures forall i, j :: 0 <= i < j < |d| ==> FirstIndex(ks, d[i]) < FirstIndex(ks, d[j])
  {
    if |ks| == 0 then []
    else
      var n := |ks| - 1;
      var d := Distinct(ks[..n]);
      assert ks == ks[..n] + [ks[n]];
      FirstIndexPrefix(ks, n);
      if ks[n] in d then d
      else
        assert FirstIndex(ks, ks[n]) == n;
        d + [ks[n]]
  }

  /** `unique()` of one or two values. */
  lemma DistinctSingleton<K(!new)>(k: K)
    ensures Distinct([k]) == [k]
  {
    assert [k][..0] == [];
  }

  lemma DistinctPair<K(!new)>(k0: K, k1: K)
    ensures Distinct([k0, k1]) == if k0 == k1 then [k0] else [k0, k1]
  {
    assert [k0, k1][..1] == [k0];
    DistinctSingleton(k0);
  }

  /** The rows carrying key `k`, in their original order. */
  function Members(rows: seq<Rec>, k: GroupKey): (g: seq<Rec>)
    ensures forall r :: r in g <==> r in rows && KeyOf(r) == k
    ensures |g| <= |rows|
  {
    if |rows| == 0 then []
    else (if KeyOf(rows[0]) == k then [rows[0]] else []) + Members(rows[1..], k)
  }

  /** A group keeps its members' relative order: the members of `a + b`
      are those of `a` followed by those of `b`. */
  lemma {:induction false} MembersAppend(a: seq<Rec>, b: seq<Rec>, k: GroupKey)
    ensures Members(a + b, k) == Members(a, k) + Members(b, k)
  {
    if |a| == 0 {
      assert a + b == b;
    } else {
      assert (a + b)[1..] == a[1..] + b;
      MembersAppend(a[1..], b, k);
    }
  }

  /** One group per key of `d`, in the order of `d`. */
  function GroupsOf(d: seq<GroupKey>, rows: seq<Rec>): (gs: seq<seq<Rec>>)
    ensures |gs| == |d|
    ensures forall i :: 0 <= i < |d| ==> gs[i] == Members(rows, d[i])
  {
    seq(|d|, i requires 0 <= i < |d| => Members(rows, d[i]))
  }

  /** A key that some row carries selects at least that row. */
  lemma MembersNonEmpty(rows: seq<Rec>, k: GroupKey)
    requires k in KeysOf(rows)
    ensures Members(rows, k) != []
  {
    var j :| 0 <= j < |rows| && KeysOf(rows)[j] == k;
    assert rows[j] in Members(rows, k);
  }

  /** The keys of the groups, in output order. */
  function GroupKeys(rows: seq<Rec>): seq<GroupKey> {
    Distinct(KeysOf(rows))
  }

  /** Every group of a key that occurs is nonempty and starts with a row
      of that key. */
  lemma GroupHeads(rows: seq<Rec>)
    ensures var d := GroupKeys(rows);
            forall i :: 0 <= i < |d| ==>
              GroupsOf(d, rows)[i] != [] && KeyOf(GroupsOf(d, rows)[i][0]) == d[i]
  {
    var d := GroupKeys(rows);
    forall i | 0 <= i < |d|
      ensures GroupsOf(d, rows)[i] != [] && KeyOf(GroupsOf(d, rows)[i][0]) == d[i]
    {
      MembersNonEmpty(rows, d[i]);
      assert Members(rows, d[i])[0] in Members(rows, d[i]);
    }
  }

  /** The grouping stage. Groups come in order of first occurrence of their
      key; no group is empty; every member of group i carries key i; and
      no two groups share a key. */
  function Groups(rows: seq<Rec>): (gs: seq<seq<Rec>>)
    ensures |gs| == |GroupKeys(rows)|
    ensures forall i :: 0 <= i < |gs| ==> gs[i] != []
    ensures forall i, r :: 0 <= i < |gs| && r in gs[i] ==> KeyOf(r) == GroupKeys(rows)[i]
    ensures forall i, j :: 0 <= i < j < |gs| ==> KeyOf(gs[i][0]) != KeyOf(gs[j][0])
    ensures forall i, j :: 0 <= i < j < |gs| ==>
              FirstIndex(KeysOf(rows), KeyOf(gs[i][0])) < FirstIndex(KeysOf(rows), KeyOf(gs[j][0]))
  {
    GroupHeads(rows);
    GroupsOf(GroupKeys(rows), rows)
  }

  /** Two rows with different pair keys form two singleton groups. */
  lemma TwoKeysTwoGroups(r0: Rec, r1: Rec)
    requires KeyOf(r0) != KeyOf(r1)
    ensures Groups([r0, r1]) == [[r0], [r1]]
  {
    var rows := [r0, r1];
    TwoKeysDistinct(r0, r1);
    TwoKeysMembers(r0, r1);
    assert Groups(rows)[0] == [r0];
    assert Groups(rows)[1] == [r1];
  }

  lemma TwoKeysDistinct(r0: Rec, r1: Rec)
    requires KeyOf(r0) != KeyOf(r1)
    ensures GroupKeys([r0, r1]) == [KeyOf(r0), KeyOf(r1)]
  {
    assert KeysOf([r0, r1]) == [KeyOf(r0), KeyOf(r1)];
    DistinctPair(KeyOf(r0), KeyOf(r1));
  }

  lemma TwoKeysMembers(r0: Rec, r1: Rec)
    requires KeyOf(r0) != KeyOf(r1)
    ensures Members([r0, r1], KeyOf(r0)) == [r0]
    ensures Members([r0, r1], KeyOf(r1)) == [r1]
  {
    MembersOfPair(r0, r1, KeyOf(r0));
    MembersOfPair(r0, r1, KeyOf(r1));
    assert [r0] + [] == [r0] && [] + [r1] == [r1];
  }

  lemma MembersOfPair(r0: Rec, r1: Rec, k: GroupKey)
    ensures Members([r0, r1], k) == (if KeyOf(r0) == k then [r0] else []) + (if KeyOf(r1) == k then [r1] else [])
  {
    var tail := if KeyOf(r1) == k then [r1] else [];
    assert [r0, r1][1..] == [r1] && [r1][1..] == [];
    assert Members([r1], k) == tail + Members([], k);
    assert Members([r1], k) == tail;
  }

  /** Two rows with the same pair key form one group. */
  lemma SameKeyOneGroup(r0: Rec, r1: Rec)
    requires KeyOf(r0) == KeyOf(r1)
    ensures Groups([r0, r1]) == [[r0, r1]]
  {
    var rows := [r0, r1];
    SameKeyDistinct(r0, r1);
    SameKeyMembers(r0, r1);
    assert Groups(rows)[0] == [r0, r1];
  }

  lemma SameKeyDistinct(r0: Rec, r1: Rec)
    requires KeyOf(r0) == KeyOf(r1)
    ensures GroupKeys([r0, r1]) == [KeyOf(r0)]
  {
    assert KeysOf([r0, r1]) == [KeyOf(r0), KeyOf(r0)];
    DistinctPair(KeyOf(r0), KeyOf(r0));
  }

  lemma SameKeyMembers(r0: Rec, r1: Rec)
    requires KeyOf(r0) == KeyOf(r1)
    ensures Members([r0, r1], KeyOf(r0)) == [r0, r1]
  {
    MembersOfPair(r0, r1, KeyOf(r0));
    assert [r0] + [r1] == [r0, r1];
  }

  lemma {:induction false} GroupsOfNoRows(d: seq<GroupKey>)
    ensures Flatten(GroupsOf(d, [])) == []
  {
    if |d| > 0 {
      assert GroupsOf(d, [])[1..] == GroupsOf(d[1..], []);
      GroupsOfNoRows(d[1..]);
    }
  }

  /** The tail of a duplicate-free list is duplicate-free and misses the head. */
  lemma NoDupsTail<K>(d: seq<K>)
    requires NoDups(d) && |d| > 0
    ensures NoDups(d[1..]) && d[0] !in d[1..]
    ensures forall k :: k in d <==> k == d[0] || k in d[1..]
  {
    assert d == [d[0]] + d[1..];
  }

  lemma FlattenGroupsOfHead(d: seq<GroupKey>, rows: seq<Rec>)
    requires |d| > 0
    ensures multiset(Flatten(GroupsOf(d, rows))) ==
            multiset(Members(rows, d[0])) + multiset(Flatten(GroupsOf(d[1..], rows)))
  {
    assert GroupsOf(d, rows)[1..] == GroupsOf(d[1..], rows);
  }

  lemma MembersCons(r: Rec, rest: seq<Rec>, k: GroupKey)
    ensures multiset(Members([r] + rest, k)) ==
            (if KeyOf(r) == k then multiset{r} else multiset{}) + multiset(Members(rest, k))
  {
    assert ([r] + rest)[1..] == rest;
  }

  /** Adding a row in front of the table adds it once to the grouped rows
      when its key is among `d`, and not at all otherwise. */
  lemma {:induction false} GroupsOfCons(d: seq<GroupKey>, r: Rec, rest: seq<Rec>)
    requires NoDups(d)
    ensures multiset(Flatten(GroupsOf(d, [r] + rest))) ==
            (if KeyOf(r) in d then multiset{r} else multiset{}) + multiset(Flatten(GroupsOf(d, rest)))
  {
    if |d| > 0 {
      NoDupsTail(d);
      GroupsOfCons(d[1..], r, rest);
      MembersCons(r, rest, d[0]);
      FlattenGroupsOfHead(d, [r] + rest);
      FlattenGroupsOfHead(d, rest);
    }
  }

  /** Grouping by a duplicate-free key list that covers every row's key
      neither loses nor duplicates a row. */
  lemma {:induction false} GroupsOfPartition(d: seq<GroupKey>, rows: seq<Rec>)
    requires NoDups(d)
    requires forall r :: r in rows ==> KeyOf(r) in d
    ensures multiset(Flatten(GroupsOf(d, rows))) == multiset(rows)
  {
    if |rows| == 0 {
      GroupsOfNoRows(d);
    } else {
      assert rows == [rows[0]] + rows[1..];
      GroupsOfCons(d, rows[0], rows[1..]);
      GroupsOfPartition(d, rows[1..]);
    }
  }

  /** Every row appears in exactly one group, exactly as often as in the
      input: the concatenated groups are a permutation of the rows. */
  lemma GroupsPartition(rows: seq<Rec>)
    ensures multiset(Flatten(Groups(rows))) == multiset(rows)
    ensures |Flatten(Groups(rows))| == |rows|
  {
    var d := GroupKeys(rows);
    forall r | r in rows
      ensures KeyOf(r) in d
    {
      var i :| 0 <= i < |rows| && rows[i] == r;
      assert KeysOf(rows)[i] == KeyOf(r);
    }
    GroupsOfPartition(d, rows);
    assert |multiset(Flatten(Groups(rows)))| == |multiset(rows)|;
  }
}
