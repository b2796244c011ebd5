/** The header stage of the report: trim column names, drop the fixed
    denylist of call-quality columns that are present, and check that the
    seven columns the report needs are there. */
module Columns {
  import opened Strings

  /** One field as the CSV reader hands it over. `Null` is pandas' NaN (an
      empty or NA field); every other field is its text. */
  datatype Cell = Null | Text(s: string)

  /** A raw table: column names and, per data row, one cell per column. */
  datatype Table = Table(header: seq<string>, rows: seq<seq<Cell>>)

  /** Every row has one cell per column, as in any data frame. */
  predicate Rectangular(t: Table) {
    forall i :: 0 <= i < |t.rows| ==> |t.rows[i]| == |t.header|
  }

  /** Informational columns removed from the report when they are present. */
  const Denylist: seq<string> :=
    ["Attempts", "Completions", "Minutes", "ASR %", "NER %", "Aloc",
     "PPM", "PRV", "NEPR %", "SDR %", "MOS", "PDD", "LCR Depth"]

  /** Columns the report cannot be built without, in the order the error
      message lists them. */
  const Required: seq<string> :=
    ["Customer Relationships", "Trunk Group", "Country Destination",
     "Vendor", "Revenue", "Cost", "Profit"]

  /** The same table with every column name stripped of surrounding whitespace. */
  function TrimHeader(t: Table): (r: Table)
    ensures r.rows == t.rows
    ensures |r.header| == |t.header|
    ensures forall i :: 0 <= i < |t.header| ==> r.header[i] == Strip(t.header[i])
  {
    Table(seq(|t.header|, i requires 0 <= i < |t.header| => Strip(t.header[i])), t.rows)
  }

  /** The column names that survive the prune, in their original order. */
  function PruneHeader(header: seq<string>): (r: seq<string>)
    ensures forall c :: c in r <==> c in header && c !in Denylist
    ensures |r| <= |header|
  {
    if |header| == 0 then []
    else (if header[0] in Denylist then [] else [header[0]]) + PruneHeader(header[1..])
  }

  /** The entries of `xs` that sit under a column whose name is not
      denylisted: the cells a data row keeps when the columns are dropped. */
  function KeepCols<T>(header: seq<string>, xs: seq<T>): (r: seq<T>)
    requires |xs| == |header|
    ensures |r| == |PruneHeader(header)|
  {
    if |header| == 0 then []
    else (if header[0] in Denylist then [] else [xs[0]]) + KeepCols(header[1..], xs[1..])
  }

  /** Drops the denylisted columns that are present, header and cells alike. */
  function Prune(t: Table): (r: Table)
    requires Rectangular(t)
    ensures Rectangular(r)
    ensures r.header == PruneHeader(t.header)
    ensures |r.rows| == |t.rows|
  {
    Table(PruneHeader(t.header),
          seq(|t.rows|, i requires 0 <= i < |t.rows| => KeepCols(t.header, t.rows[i])))
  }

  /** The whole header stage: trim, then prune. No denylisted name is left,
      every remaining name is already trimmed, and a name is kept exactly
      when it is the trimmed form of some column and is not denylisted. */
  function CleanHeader(t: Table): (r: Table)
    requires Rectangular(t)
    ensures Rectangular(r)
    ensures |r.rows| == |t.rows|
    ensures forall c :: c in r.header ==> c !in Denylist && Strip(c) == c
    ensures forall c :: c in r.header <==>
              c !in Denylist && exists i :: 0 <= i < |t.header| && Strip(t.header[i]) == c
  {
    var trimmed := TrimHeader(t);
    forall c | c in trimmed.header
      ensures Strip(c) == c
    {
      var i :| 0 <= i < |trimmed.header| && trimmed.header[i] == c;
      StripIdempotent(t.header[i]);
    }
    assert forall c :: c in trimmed.header <==>
             exists i :: 0 <= i < |t.header| && Strip(t.header[i]) == c by {
      forall c | c in trimmed.header
        ensures exists i :: 0 <= i < |t.header| && Strip(t.header[i]) == c
      {
        var i :| 0 <= i < |trimmed.header| && trimmed.header[i] == c;
      }
      forall c | exists i :: 0 <= i < |t.header| && Strip(t.header[i]) == c
        ensures c in trimmed.header
      {
        var i :| 0 <= i < |t.header| && Strip(t.header[i]) == c;
        assert trimmed.header[i] == c;
      }
    }
    Prune(trimmed)
  }

  /** Dropping columns commutes with splitting the header: the kept columns
      of `a + b` are those of `a` followed by those of `b`, so the order of
      the columns that remain is the original order. */
  lemma {:induction false} PruneHeaderAppend(a: seq<string>, b: seq<string>)
    ensures PruneHeader(a + b) == PruneHeader(a) + PruneHeader(b)
  {
    if |a| == 0 {
      assert a + b == b;
    } else {
      assert (a + b)[1..] == a[1..] + b;
      PruneHeaderAppend(a[1..], b);
    }
  }

  /** The cell in column `name` of `row` (the first column of that name). */
  function Lookup(header: seq<string>, row: seq<Cell>, name: string): Cell
    requires |row| == |header| && name in header
  {
    if header[0] == name then row[0] else Lookup(header[1..], row[1..], name)
  }

  /** Pruning leaves every other column's content where a lookup by name
      finds it: a column that is not denylisted is still present after the
      prune and every row still holds the same cell in it. */
  lemma {:induction false} PruneKeepsCell(header: seq<string>, row: seq<Cell>, name: string)
    requires |row| == |header| && name in header && name !in Denylist
    ensures name in PruneHeader(header)
    ensures Lookup(PruneHeader(header), KeepCols(header, row), name) == Lookup(header, row, name)
  {
    var kept, cells := PruneHeader(header), KeepCols(header, row);
    var kept', cells' := PruneHeader(header[1..]), KeepCols(header[1..], row[1..]);
    if header[0] == name {
      assert kept == [name] + kept' && cells == [row[0]] + cells';
    } else {
      PruneKeepsCell(header[1..], row[1..], name);
      if header[0] in Denylist {
        assert kept == kept' && cells == cells';
      } else {
        assert kept == [header[0]] + kept' && cells == [row[0]] + cells';
        assert kept[1..] == kept' && cells[1..] == cells';
      }
    }
  }

  /** The names in `wanted` that `header` lacks. Exactly the wanted names
      not in the header are reported. */
  function MissingFrom(wanted: seq<string>, header: seq<string>): (m: seq<string>)
    ensures forall c :: c in m <==> c in wanted && c !in header
    ensures |m| <= |wanted|
  {
    if |wanted| == 0 then []
    else (if wanted[0] in header then [] else [wanted[0]]) + MissingFrom(wanted[1..], header)
  }

  /** The missing names keep the order of the wanted list: the missing names
      of `a + b` are those of `a` followed by those of `b`. */
  lemma {:induction false} MissingFromAppend(a: seq<string>, b: seq<string>, header: seq<string>)
    ensures MissingFrom(a + b, header) == MissingFrom(a, header) + MissingFrom(b, header)
  {
    if |a| == 0 {
      assert a + b == b;
    } else {
      assert (a + b)[1..] == a[1..] + b;
      MissingFromAppend(a[1..], b, header);
    }
  }

  predicate HasRequired(header: seq<string>) {
    forall c :: c in Required ==> c in header
  }

  /** The required-column check: nothing is missing exactly when every
      required column is present. */
  lemma NothingMissingIffComplete(header: seq<string>)
    ensures MissingFrom(Required, header) == [] <==> HasRequired(header)
  {
    var m := MissingFrom(Required, header);
    if m != [] {
      assert m[0] in m;
    }
  }
}
