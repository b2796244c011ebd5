/** The output layout: for each group its detail rows, then one subtotal
    row, then a run of blank spacer rows unless it is the last group. */
module Layout {
  import opened Rows
  import opened Sequences
  import opened Grouping

  /** Revenue, cost and profit summed together. */
  datatype Totals = Totals(revenue: int, cost: int, profit: int)

  function Plus(a: Totals, b: Totals): Totals {
    Totals(a.revenue + b.revenue, a.cost + b.cost, a.profit + b.profit)
  }

  function AmountsOf(r: Rec): Totals {
    Totals(r.revenue, r.cost, r.profit)
  }

  /** Column sums of a group. Amounts are whole cents, so rounding the sums
      to two decimals leaves them unchanged. */
  function Total(g: seq<Rec>): Totals {
    if |g| == 0 then Totals(0, 0, 0) else Plus(AmountsOf(g[0]), Total(g[1..]))
  }

  /** Summing is additive over a split of the rows. */
  lemma {:induction false} TotalAppend(a: seq<Rec>, b: seq<Rec>)
    ensures Total(a + b) == Plus(Total(a), Total(b))
  {
    if |a| == 0 {
      assert a + b == b;
    } else {
      assert (a + b)[1..] == a[1..] + b;
      TotalAppend(a[1..], b);
    }
  }

  lemma {:induction false} MultisetRemoveAt(b: seq<Rec>, j: nat)
    requires j < |b|
    ensures multiset(b[..j] + b[j + 1..]) == multiset(b) - multiset{b[j]}
  {
    assert b == b[..j] + [b[j]] + b[j + 1..];
  }

  lemma {:induction false} TotalRemoveAt(b: seq<Rec>, j: nat)
    requires j < |b|
    ensures Total(b) == Plus(AmountsOf(b[j]), Total(b[..j] + b[j + 1..]))
  {
    var p, x, q := b[..j], b[j], b[j + 1..];
    var xq := [x] + q;
    assert b == p + xq;
    assert xq[0] == x && xq[1..] == q;
    assert Total(xq) == Plus(AmountsOf(x), Total(q));
    TotalAppend(p, xq);
    TotalAppend(p, q);
  }

  /** Sums do not depend on row order: rearranged rows sum to the same totals. */
  lemma {:induction false} TotalPermutation(a: seq<Rec>, b: seq<Rec>)
    requires multiset(a) == multiset(b)
    ensures Total(a) == Total(b)
    decreases |a|
  {
    if |a| == 0 {
      assert |b| == |multiset(b)| == 0;
    } else {
      var x := a[0];
      assert x in multiset(b);
      var j :| 0 <= j < |b| && b[j] == x;
      MultisetRemoveAt(b, j);
      assert a == [x] + a[1..];
      assert multiset(a[1..]) == multiset(a) - multiset{x};
      TotalPermutation(a[1..], b[..j] + b[j + 1..]);
      TotalRemoveAt(b, j);
    }
  }

  /** A row of the report. Subtotal rows leave the descriptive columns
      blank and spacer rows leave every column blank. */
  datatype OutRow = Detail(rec: Rec) | Subtotal(revenue: int, cost: int, profit: int) | Spacer

  /** Blank rows written between two groups. */
  const SpacerRun: nat := 5

  /** The subtotal row of a group: its three column sums. */
  function SubtotalOf(g: seq<Rec>): (o: OutRow)
    ensures o.Subtotal?
    ensures Totals(o.revenue, o.cost, o.profit) == Total(g)
  {
    Subtotal(Total(g).revenue, Total(g).cost, Total(g).profit)
  }

  function DetailRows(g: seq<Rec>): (out: seq<OutRow>)
    ensures |out| == |g|
    ensures forall i :: 0 <= i < |g| ==> out[i] == Detail(g[i])
  {
    seq(|g|, i requires 0 <= i < |g| => Detail(g[i]))
  }

  function Spacers(n: nat): (out: seq<OutRow>)
    ensures |out| == n
    ensures forall i :: 0 <= i < n ==> out[i] == Spacer
  {
    seq(n, i => Spacer)
  }

  /** One group's rows: its details in order, then its subtotal. */
  function Block(g: seq<Rec>): seq<OutRow> {
    DetailRows(g) + [SubtotalOf(g)]
  }

  /** The report rows for a sequence of groups. */
  function Emit(gs: seq<seq<Rec>>): seq<OutRow> {
    if |gs| == 0 then []
    else if |gs| == 1 then Block(gs[0])
    else Block(gs[0]) + Spacers(SpacerRun) + Emit(gs[1..])
  }

  /** The records carried by the detail rows, in output order. */
  function Details(out: seq<OutRow>): seq<Rec> {
    if |out| == 0 then []
    else (if out[0].Detail? then [out[0].rec] else []) + Details(out[1..])
  }

  /** The amounts of the subtotal rows, in output order. */
  function SubtotalAmounts(out: seq<OutRow>): seq<Totals> {
    if |out| == 0 then []
    else (if out[0].Subtotal? then [Totals(out[0].revenue, out[0].cost, out[0].profit)] else [])
         + SubtotalAmounts(out[1..])
  }

  function SpacerCount(out: seq<OutRow>): nat {
    if |out| == 0 then 0 else (if out[0].Spacer? then 1 else 0) + SpacerCount(out[1..])
  }

  /** The sums of each group, in group order. */
  function GroupTotals(gs: seq<seq<Rec>>): (ts: seq<Totals>)
    ensures |ts| == |gs|
    ensures forall i :: 0 <= i < |gs| ==> ts[i] == Total(gs[i])
  {
    seq(|gs|, i requires 0 <= i < |gs| => Total(gs[i]))
  }

  lemma {:induction false} DetailsAppend(a: seq<OutRow>, b: seq<OutRow>)
    ensures Details(a + b) == Details(a) + Details(b)
  {
    if |a| == 0 {
      assert a + b == b;
    } else {
      var h := if a[0].Detail? then [a[0].rec] else [];
      assert (a + b)[0] == a[0] && (a + b)[1..] == a[1..] + b;
      assert Details(a + b) == h + Details(a[1..] + b);
      DetailsAppend(a[1..], b);
      assert h + (Details(a[1..]) + Details(b)) == (h + Details(a[1..])) + Details(b);
    }
  }

  lemma {:induction false} SubtotalAmountsAppend(a: seq<OutRow>, b: seq<OutRow>)
    ensures SubtotalAmounts(a + b) == SubtotalAmounts(a) + SubtotalAmounts(b)
  {
    if |a| == 0 {
      assert a + b == b;
    } else {
      var h := if a[0].Subtotal? then [Totals(a[0].revenue, a[0].cost, a[0].profit)] else [];
      assert (a + b)[0] == a[0] && (a + b)[1..] == a[1..] + b;
      assert SubtotalAmounts(a + b) == h + SubtotalAmounts(a[1..] + b);
      SubtotalAmountsAppend(a[1..], b);
      assert h + (SubtotalAmounts(a[1..]) + SubtotalAmounts(b)) == (h + SubtotalAmounts(a[1..])) + SubtotalAmounts(b);
    }
  }

  lemma {:induction false} SpacerCountAppend(a: seq<OutRow>, b: seq<OutRow>)
    ensures SpacerCount(a + b) == SpacerCount(a) + SpacerCount(b)
  {
    if |a| == 0 {
      assert a + b == b;
    } else {
      assert (a + b)[1..] == a[1..] + b;
      SpacerCountAppend(a[1..], b);
    }
  }

  /** The three read-back projections distribute over concatenation. */
  lemma ProjectionsAppend(a: seq<OutRow>, b: seq<OutRow>)
    ensures Details(a + b) == Details(a) + Details(b)
    ensures SubtotalAmounts(a + b) == SubtotalAmounts(a) + SubtotalAmounts(b)
    ensures SpacerCount(a + b) == SpacerCount(a) + SpacerCount(b)
  {
    DetailsAppend(a, b);
    SubtotalAmountsAppend(a, b);
    SpacerCountAppend(a, b);
  }

  lemma {:induction false} DetailRowsProjections(g: seq<Rec>)
    ensures Details(DetailRows(g)) == g
    ensures SubtotalAmounts(DetailRows(g)) == []
    ensures SpacerCount(DetailRows(g)) == 0
  {
    if |g| > 0 {
      assert DetailRows(g)[1..] == DetailRows(g[1..]);
      DetailRowsProjections(g[1..]);
    }
  }

  lemma {:induction false} SpacersProjections(n: nat)
    ensures Details(Spacers(n)) == []
    ensures SubtotalAmounts(Spacers(n)) == []
    ensures SpacerCount(Spacers(n)) == n
  {
    if n > 0 {
      assert Spacers(n)[1..] == Spacers(n - 1);
      SpacersProjections(n - 1);
    }
  }

  /** A block holds the group's records as details, then its one subtotal. */
  lemma BlockProjections(g: seq<Rec>)
    ensures |Block(g)| == |g| + 1
    ensures Details(Block(g)) == g
    ensures SubtotalAmounts(Block(g)) == [Total(g)]
    ensures SpacerCount(Block(g)) == 0
  {
    ProjectionsAppend(DetailRows(g), [SubtotalOf(g)]);
    DetailRowsProjections(g);
    assert [SubtotalOf(g)][1..] == [];
  }

  lemma {:induction false} EmitDetails(gs: seq<seq<Rec>>)
    requires |gs| >= 1
    ensures Details(Emit(gs)) == Flatten(gs)
  {
    BlockProjections(gs[0]);
    if |gs| == 1 {
      assert Flatten(gs) == gs[0] + Flatten(gs[1..]);
    } else {
      EmitDetails(gs[1..]);
      SpacersProjections(SpacerRun);
      DetailsAppend(Block(gs[0]), Spacers(SpacerRun));
      DetailsAppend(Block(gs[0]) + Spacers(SpacerRun), Emit(gs[1..]));
    }
  }

  lemma {:induction false} EmitSubtotals(gs: seq<seq<Rec>>)
    requires |gs| >= 1
    ensures SubtotalAmounts(Emit(gs)) == GroupTotals(gs)
  {
    BlockProjections(gs[0]);
    if |gs| > 1 {
      EmitSubtotals(gs[1..]);
      SpacersProjections(SpacerRun);
      SubtotalAmountsAppend(Block(gs[0]), Spacers(SpacerRun));
      SubtotalAmountsAppend(Block(gs[0]) + Spacers(SpacerRun), Emit(gs[1..]));
      assert GroupTotals(gs) == [Total(gs[0])] + GroupTotals(gs[1..]);
    }
  }

  lemma {:induction false} EmitSpacers(gs: seq<seq<Rec>>)
    requires |gs| >= 1
    ensures SpacerCount(Emit(gs)) == SpacerRun * (|gs| - 1)
  {
    BlockProjections(gs[0]);
    if |gs| > 1 {
      EmitSpacers(gs[1..]);
      SpacersProjections(SpacerRun);
      SpacerCountAppend(Block(gs[0]), Spacers(SpacerRun));
      SpacerCountAppend(Block(gs[0]) + Spacers(SpacerRun), Emit(gs[1..]));
    }
  }

  lemma {:induction false} EmitLength(gs: seq<seq<Rec>>)
    requires |gs| >= 1
    ensures |Emit(gs)| == |Flatten(gs)| + |gs| + SpacerRun * (|gs| - 1)
  {
    BlockProjections(gs[0]);
    if |gs| == 1 {
      assert Flatten(gs) == gs[0] + Flatten(gs[1..]);
    } else {
      EmitLength(gs[1..]);
      assert Flatten(gs) == gs[0] + Flatten(gs[1..]);
    }
  }

  /** Reading the report back: the detail rows carry exactly the grouped
      records in group order, unchanged; the subtotal rows carry exactly
      the group sums in group order; and there are SpacerRun spacers for
      every group but the last. */
  lemma EmitProjections(gs: seq<seq<Rec>>)
    requires |gs| >= 1
    ensures Details(Emit(gs)) == Flatten(gs)
    ensures SubtotalAmounts(Emit(gs)) == GroupTotals(gs)
    ensures SpacerCount(Emit(gs)) == SpacerRun * (|gs| - 1)
    ensures |Emit(gs)| == |Flatten(gs)| + |gs| + SpacerRun * (|gs| - 1)
  {
    EmitDetails(gs);
    EmitSubtotals(gs);
    EmitSpacers(gs);
    EmitLength(gs);
  }

  /** The report never ends in spacers: its last row is the subtotal of the
      last group. */
  lemma {:induction false} EmitEndsWithSubtotal(gs: seq<seq<Rec>>)
    requires |gs| >= 1
    ensures |Emit(gs)| >= 1
    ensures Emit(gs)[|Emit(gs)| - 1] == SubtotalOf(gs[|gs| - 1])
  {
    if |gs| > 1 {
      EmitEndsWithSubtotal(gs[1..]);
    }
  }

  /** Concatenating two non-empty group lists puts exactly one run of
      SpacerRun spacers between their reports and nothing else. */
  lemma {:induction false} EmitAppend(a: seq<seq<Rec>>, b: seq<seq<Rec>>)
    requires |a| >= 1 && |b| >= 1
    ensures Emit(a + b) == Emit(a) + Spacers(SpacerRun) + Emit(b)
  {
    assert (a + b)[0] == a[0];
    if |a| == 1 {
      assert (a + b)[1..] == b;
    } else {
      assert (a + b)[1..] == a[1..] + b;
      EmitAppend(a[1..], b);
    }
  }

  /** Sum of the group sums. */
  function SumTotals(ts: seq<Totals>): Totals {
    if |ts| == 0 then Totals(0, 0, 0) else Plus(ts[0], SumTotals(ts[1..]))
  }

  lemma {:induction false} SumGroupTotals(gs: seq<seq<Rec>>)
    ensures SumTotals(GroupTotals(gs)) == Total(Flatten(gs))
  {
    if |gs| > 0 {
      assert GroupTotals(gs)[1..] == GroupTotals(gs[1..]);
      SumGroupTotals(gs[1..]);
      TotalAppend(gs[0], Flatten(gs[1..]));
    }
  }

  /** Subtotals lose nothing: over all groups they add up to the column
      sums of the whole table. */
  lemma GrandTotal(rows: seq<Rec>)
    ensures SumTotals(GroupTotals(Groups(rows))) == Total(rows)
  {
    SumGroupTotals(Groups(rows));
    GroupsPartition(rows);
    TotalPermutation(Flatten(Groups(rows)), rows);
  }
}
