/** Vendor recalculation: rows whose vendor name, upper-cased, contains one
    of a list of codes get their cost cleared and their profit set to their
    revenue. The list is a parameter; the report uses "OPS" and "IVG". */
module Recalculation {
  import opened Strings
  import opened Columns
  import opened Rows

  /** The vendor codes the report matches. */
  const DefaultPatterns: seq<string> := ["OPS", "IVG"]

  /** A cell as `astype(str)` renders it; NaN prints as "nan". */
  function Display(c: Cell): string {
    match c
    case Null => "nan"
    case Text(s) => s
  }

  /** The upper-cased vendor name contains at least one of the codes. */
  predicate VendorMatches(patterns: seq<string>, vendor: Cell) {
    exists p :: p in patterns && Contains(Upper(Display(vendor)), p)
  }

  /** Recalculates one row. A matching row keeps its revenue, gets cost 0
      and profit equal to revenue (revenue minus the cleared cost); any
      other row is returned unchanged. Revenue and the descriptive fields
      never change. */
  function Recalc(patterns: seq<string>, r: Rec): (x: Rec)
    ensures x.customer == r.customer && x.trunk == r.trunk
    ensures x.country == r.country && x.vendor == r.vendor
    ensures x.revenue == r.revenue
    ensures VendorMatches(patterns, r.vendor) ==> x.cost == 0 && x.profit == x.revenue - x.cost
    ensures !VendorMatches(patterns, r.vendor) ==> x == r
  {
    if VendorMatches(patterns, r.vendor) then r.(cost := 0, profit := r.revenue) else r
  }

  function RecalcRows(patterns: seq<string>, rows: seq<Rec>): (xs: seq<Rec>)
    ensures |xs| == |rows|
    ensures forall i :: 0 <= i < |rows| ==> xs[i] == Recalc(patterns, rows[i])
  {
    seq(|rows|, i requires 0 <= i < |rows| => Recalc(patterns, rows[i]))
  }

  /** Recalculating an already recalculated table changes nothing. */
  lemma RecalcIdempotent(patterns: seq<string>, rows: seq<Rec>)
    ensures RecalcRows(patterns, RecalcRows(patterns, rows)) == RecalcRows(patterns, rows)
  {
  }

  /** The number of rows whose vendor matches: the count the summary reports. */
  function CountMatching(patterns: seq<string>, rows: seq<Rec>): (n: nat)
    ensures n <= |rows|
    ensures n == 0 <==> forall i :: 0 <= i < |rows| ==> !VendorMatches(patterns, rows[i].vendor)
    ensures n == |rows| <==> forall i :: 0 <= i < |rows| ==> VendorMatches(patterns, rows[i].vendor)
  {
    if |rows| == 0 then 0
    else
      var n := CountMatching(patterns, rows[1..]);
      assert forall i :: 1 <= i < |rows| ==> rows[i] == rows[1..][i - 1];
      (if VendorMatches(patterns, rows[0].vendor) then 1 else 0) + n
  }

  /** The count is additive over a split of the table. */
  lemma {:induction false} CountMatchingAppend(patterns: seq<string>, a: seq<Rec>, b: seq<Rec>)
    ensures CountMatching(patterns, a + b) == CountMatching(patterns, a) + CountMatching(patterns, b)
  {
    if |a| == 0 {
      assert a + b == b;
    } else {
      assert (a + b)[1..] == a[1..] + b;
      CountMatchingAppend(patterns, a[1..], b);
    }
  }

  /** After recalculation every matching row has cost 0 and profit equal to
      revenue, every other row holds exactly its coerced amounts, and the
      count of matching rows is unchanged by the recalculation itself. */
  lemma RecalcRowsEffect(patterns: seq<string>, rows: seq<Rec>)
    ensures forall i :: 0 <= i < |rows| && VendorMatches(patterns, rows[i].vendor) ==>
              RecalcRows(patterns, rows)[i].cost == 0 &&
              RecalcRows(patterns, rows)[i].profit == rows[i].revenue
    ensures forall i :: 0 <= i < |rows| && !VendorMatches(patterns, rows[i].vendor) ==>
              RecalcRows(patterns, rows)[i] == rows[i]
    ensures CountMatching(patterns, RecalcRows(patterns, rows)) == CountMatching(patterns, rows)
  {
    CountMatchingRecalc(patterns, rows);
  }

  lemma {:induction false} CountMatchingRecalc(patterns: seq<string>, rows: seq<Rec>)
    ensures CountMatching(patterns, RecalcRows(patterns, rows)) == CountMatching(patterns, rows)
  {
    if |rows| > 0 {
      var xs := RecalcRows(patterns, rows);
      assert xs[1..] == RecalcRows(patterns, rows[1..]);
      CountMatchingRecalc(patterns, rows[1..]);
      assert xs[0].vendor == rows[0].vendor;
    }
  }
}
