/** Worked examples of the transformation on small inputs. */
module Scenarios {
  import opened Strings
  import opened Columns
  import opened Rows
  import opened Recalculation
  import opened Grouping
  import opened Layout

  /** Vendor codes in any case match the OPS/IVG rule; other names do not. */
  lemma VendorCodes()
    ensures VendorMatches(DefaultPatterns, Text("OPS-1"))
    ensures VendorMatches(DefaultPatterns, Text("Ivg Carrier"))
    ensures !VendorMatches(DefaultPatterns, Text("ACME"))
  {
    assert Upper("OPS-1")[..3] == "OPS";
    PatternAtStartMatches("OPS-1", "OPS");
    assert Upper("Ivg Carrier")[..3] == "IVG";
    PatternAtStartMatches("Ivg Carrier", "IVG");
    AcmeDoesNotMatch();
  }

  /** A vendor whose upper-cased name starts with one of the patterns matches. */
  lemma PatternAtStartMatches(name: string, p: string)
    requires p in DefaultPatterns
    requires |p| <= |name| && Upper(name)[..|p|] == p
    ensures VendorMatches(DefaultPatterns, Text(name))
  {
    assert OccursAt(p, Upper(name), 0);
    assert Contains(Upper(Display(Text(name))), p);
  }

  lemma AcmeDoesNotMatch()
    ensures !VendorMatches(DefaultPatterns, Text("ACME"))
  {
    assert Upper("ACME") == "ACME";
    forall i | 0 <= i <= 1
      ensures !OccursAt("OPS", "ACME", i) && !OccursAt("IVG", "ACME", i)
    {
      assert "ACME"[i..i + 3][0] == "ACME"[i];
    }
    assert !Contains("ACME", "OPS") && !Contains("ACME", "IVG");
  }

  /** An ACME row and an OPS row of the same trunk and destination: the OPS
      row's cost is cleared and its profit becomes its revenue, and the one
      group is closed by the subtotal of the recalculated amounts, with no
      spacer after it. */
  lemma OneGroupWithOpsVendor(acme: Rec, ops: Rec)
    requires acme.vendor == Text("ACME") && ops.vendor == Text("OPS-1")
    requires KeyOf(acme) == KeyOf(ops)
    ensures var ops' := ops.(cost := 0, profit := ops.revenue);
            Emit(Groups(RecalcRows(DefaultPatterns, [acme, ops]))) ==
              [Detail(acme), Detail(ops'),
               Subtotal(acme.revenue + ops.revenue, acme.cost, acme.profit + ops.revenue)]
  {
    VendorCodes();
    OneGroupAfterRecalc(DefaultPatterns, acme, ops);
  }

  /** A non-matching row and a matching row of one key: one group whose
      second detail has its cost cleared. */
  lemma OneGroupAfterRecalc(patterns: seq<string>, a: Rec, b: Rec)
    requires !VendorMatches(patterns, a.vendor) && VendorMatches(patterns, b.vendor)
    requires KeyOf(a) == KeyOf(b)
    ensures var b' := b.(cost := 0, profit := b.revenue);
            Emit(Groups(RecalcRows(patterns, [a, b]))) ==
              [Detail(a), Detail(b'), Subtotal(a.revenue + b.revenue, a.cost, a.profit + b.revenue)]
  {
    var b' := b.(cost := 0, profit := b.revenue);
    OnlySecondRecalculated(patterns, a, b);
    OneGroupReport(a, b');
  }

  /** Two rows of one key: both details, then their subtotal. */
  lemma OneGroupReport(a: Rec, b: Rec)
    requires KeyOf(a) == KeyOf(b)
    ensures Emit(Groups([a, b])) == [Detail(a), Detail(b),
                                     Subtotal(a.revenue + b.revenue, a.cost + b.cost, a.profit + b.profit)]
  {
    SameKeyOneGroup(a, b);
    EmitOneGroup(a, b);
  }

  /** Of two rows, only the one whose vendor matches is recalculated. */
  lemma OnlySecondRecalculated(patterns: seq<string>, a: Rec, b: Rec)
    requires !VendorMatches(patterns, a.vendor) && VendorMatches(patterns, b.vendor)
    ensures RecalcRows(patterns, [a, b]) == [a, b.(cost := 0, profit := b.revenue)]
  {
    var xs := RecalcRows(patterns, [a, b]);
    assert xs[0] == a;
    assert xs[1] == b.(cost := 0, profit := b.revenue);
  }

  lemma EmitOneGroup(a: Rec, b: Rec)
    ensures Emit([[a, b]]) == [Detail(a), Detail(b),
                               Subtotal(a.revenue + b.revenue, a.cost + b.cost, a.profit + b.profit)]
  {
    assert Emit([[a, b]]) == Block([a, b]);
    assert DetailRows([a, b]) == [Detail(a), Detail(b)];
    assert Total([a, b]) == Totals(a.revenue + b.revenue, a.cost + b.cost, a.profit + b.profit) by {
      TotalOfPair(a, b);
    }
  }

  lemma TotalOfPair(a: Rec, b: Rec)
    ensures Total([a, b]) == Totals(a.revenue + b.revenue, a.cost + b.cost, a.profit + b.profit)
  {
    assert [a, b][1..] == [b] && [b][1..] == [];
    assert Total([b]) == Plus(AmountsOf(b), Total([]));
    assert Total([a, b]) == Plus(AmountsOf(a), Total([b]));
  }

  /** Two rows of different (Trunk Group, Country Destination) pairs: each
      is followed by its subtotal, with exactly five spacers between the
      first subtotal and the second group's detail and none after the last. */
  lemma TwoGroupsAreSpaced(a: Rec, b: Rec)
    requires KeyOf(a) != KeyOf(b)
    ensures Emit(Groups([a, b])) ==
              [Detail(a), Subtotal(a.revenue, a.cost, a.profit), Spacer, Spacer, Spacer, Spacer, Spacer,
               Detail(b), Subtotal(b.revenue, b.cost, b.profit)]
  {
    TwoKeysTwoGroups(a, b);
    EmitTwoSingletons(a, b);
  }

  lemma EmitTwoSingletons(a: Rec, b: Rec)
    ensures Emit([[a], [b]]) ==
              [Detail(a), Subtotal(a.revenue, a.cost, a.profit), Spacer, Spacer, Spacer, Spacer, Spacer,
               Detail(b), Subtotal(b.revenue, b.cost, b.profit)]
  {
    var gs := [[a], [b]];
    assert gs[1..] == [[b]];
    assert Block([a]) == [Detail(a), Subtotal(a.revenue, a.cost, a.profit)] by {
      TotalOfOne(a);
      assert DetailRows([a]) == [Detail(a)];
    }
    assert Block([b]) == [Detail(b), Subtotal(b.revenue, b.cost, b.profit)] by {
      TotalOfOne(b);
      assert DetailRows([b]) == [Detail(b)];
    }
    assert Spacers(SpacerRun) == [Spacer, Spacer, Spacer, Spacer, Spacer];
  }

  lemma TotalOfOne(a: Rec)
    ensures Total([a]) == Totals(a.revenue, a.cost, a.profit)
  {
    assert [a][1..] == [];
    assert Total([a]) == Plus(AmountsOf(a), Total([]));
  }

  /** Next to a row with visible Vendor and Country Destination, a row whose
      Vendor is only spaces is removed by the filter. */
  lemma BlankVendorIsDropped(kept: Row, blank: Row)
    requires kept.vendor == Text("ACME") && kept.country == Text("US")
    requires blank.vendor == Text("  ")
    ensures FilterRows([kept, blank]) == [kept]
  {
    VisibleText("ACME");
    VisibleText("US");
    assert !Survives(blank) by {
      StripEmptyIffBlank("  ");
    }
    FilterRowsOfPair(kept, blank);
  }

  /** Text that starts with a non-space character is present. */
  lemma VisibleText(s: string)
    requires s != [] && !IsSpace(s[0])
    ensures Present(Text(s))
  {
    StripEmptyIffBlank(s);
  }

  lemma FilterRowsOfPair(r0: Row, r1: Row)
    requires Survives(r0) && !Survives(r1)
    ensures FilterRows([r0, r1]) == [r0]
  {
    FilterRowsAppend([r0], [r1]);
    assert [r0] + [r1] == [r0, r1];
    assert [r0][1..] == [] && [r1][1..] == [];
    assert FilterRows([r0]) == [r0] + FilterRows([]);
    assert FilterRows([r1]) == [] + FilterRows([]);
  }
}
