/** The row stages of the report: pick the seven report columns out of each
    data row, drop rows without a vendor or destination, and coerce the
    three money columns to numbers. */
module Rows {
  import opened Wrappers
  import opened Strings
  import opened Columns

  /** A data row restricted to the seven report columns, still raw. */
  datatype Row = Row(customer: Cell, trunk: Cell, country: Cell, vendor: Cell,
                     revenue: Cell, cost: Cell, profit: Cell)

  /** A row after numeric coercion. Amounts are whole cents. */
  datatype Rec = Rec(customer: Cell, trunk: Cell, country: Cell, vendor: Cell,
                     revenue: int, cost: int, profit: int)

  function ExtractRow(header: seq<string>, cells: seq<Cell>): (r: Row)
    requires |cells| == |header| && HasRequired(header)
  {
    Row(Lookup(header, cells, "Customer Relationships"),
        Lookup(header, cells, "Trunk Group"),
        Lookup(header, cells, "Country Destination"),
        Lookup(header, cells, "Vendor"),
        Lookup(header, cells, "Revenue"),
        Lookup(header, cells, "Cost"),
        Lookup(header, cells, "Profit"))
  }

  /** One `Row` per data row, in table order. */
  function ExtractRows(t: Table): (rows: seq<Row>)
    requires Rectangular(t) && HasRequired(t.header)
    ensures |rows| == |t.rows|
  {
    seq(|t.rows|, i requires 0 <= i < |t.rows| => ExtractRow(t.header, t.rows[i]))
  }

  /** A field that is neither NaN nor blank after trimming. */
  predicate Present(c: Cell) {
    c.Text? && Strip(c.s) != ""
  }

  /** A field is present exactly when it is text holding some character
      that is not whitespace. */
  lemma PresentIffVisible(c: Cell)
    ensures Present(c) <==> c.Text? && exists i :: 0 <= i < |c.s| && !IsSpace(c.s[i])
  {
    if c.Text? {
      StripEmptyIffBlank(c.s);
    }
  }

  /** The row filter's test: both Vendor and Country Destination are present. */
  predicate Survives(r: Row) {
    Present(r.vendor) && Present(r.country)
  }

  /** The stable row filter. A row is kept exactly when it survives. */
  function FilterRows(rows: seq<Row>): (kept: seq<Row>)
    ensures forall r :: r in kept <==> r in rows && Survives(r)
    ensures |kept| <= |rows|
  {
    if |rows| == 0 then []
    else (if Survives(rows[0]) then [rows[0]] else []) + FilterRows(rows[1..])
  }

  /** The filter keeps the survivors in their relative order: filtering
      `a + b` gives the survivors of `a` followed by those of `b`. */
  lemma {:induction false} FilterRowsAppend(a: seq<Row>, b: seq<Row>)
    ensures FilterRows(a + b) == FilterRows(a) + FilterRows(b)
  {
    if |a| == 0 {
      assert a + b == b;
    } else {
      assert (a + b)[1..] == a[1..] + b;
      FilterRowsAppend(a[1..], b);
    }
  }

  /** Numeric coercion of one money field: a value the parser accepts is
      kept as parsed; NaN and anything the parser rejects become 0. */
  function Amount(parse: string -> Option<int>, c: Cell): (v: int)
    ensures c.Text? && parse(c.s).Some? ==> v == parse(c.s).value
    ensures c.Null? || parse(c.s).None? ==> v == 0
  {
    match c
    case Null => 0
    case Text(s) => match parse(s) case Some(v) => v case None => 0
  }

  /** Coerces the three money fields; the descriptive fields pass through. */
  function Coerce(parse: string -> Option<int>, r: Row): (x: Rec)
    ensures x.customer == r.customer && x.trunk == r.trunk
    ensures x.country == r.country && x.vendor == r.vendor
    ensures x.revenue == Amount(parse, r.revenue)
    ensures x.cost == Amount(parse, r.cost)
    ensures x.profit == Amount(parse, r.profit)
  {
    Rec(r.customer, r.trunk, r.country, r.vendor,
        Amount(parse, r.revenue), Amount(parse, r.cost), Amount(parse, r.profit))
  }

  function CoerceRows(parse: string -> Option<int>, rows: seq<Row>): (xs: seq<Rec>)
    ensures |xs| == |rows|
    ensures forall i :: 0 <= i < |rows| ==> xs[i] == Coerce(parse, rows[i])
  {
    seq(|rows|, i requires 0 <= i < |rows| => Coerce(parse, rows[i]))
  }
}
