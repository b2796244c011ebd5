/** The whole report transformation: header stage, required-column check,
    row filter, numeric coercion, vendor recalculation, grouping with
    subtotals and spacers, and the summary and file name of the report. */
module Pipeline {
  import opened Wrappers
  import opened Strings
  import opened Columns
  import opened Rows
  import opened Recalculation
  import opened Grouping
  import opened Layout
  import opened FileNames
  import opened Sequences

  /** Why no report is produced. */
  datatype Error =
    | MissingColumns(missing: seq<string>, available: seq<string>)
    | NoRowsRemaining

  /** The counts the summary text reports, and the output file's name. */
  datatype Summary = Summary(processed: nat, recalculated: nat, groups: nat,
                             outputRows: nat, fileName: string)

  datatype Report = Report(rows: seq<OutRow>, summary: Summary, preview: seq<OutRow>)

  /** Rows shown in the preview. */
  const PreviewRows: nat := 20

  /** Every part occurs in the joined text. */
  lemma {:induction false} JoinContains(parts: seq<string>, sep: string, i: nat)
    requires i < |parts|
    ensures Contains(Join(parts, sep), parts[i])
  {
    var j := Join(parts, sep);
    if i == 0 {
      if |parts| > 1 {
        assert j[..|parts[0]|] == parts[0];
      }
      assert OccursAt(parts[0], j, 0);
    } else {
      JoinContains(parts[1..], sep, i - 1);
      var rest := Join(parts[1..], sep);
      var k :| OccursAt(parts[i], rest, k);
      var off := |parts[0]| + |sep|;
      assert j == parts[0] + sep + rest;
      assert j[off + k..off + k + |parts[i]|] == rest[k..k + |parts[i]|];
      assert OccursAt(parts[i], j, off + k);
    }
  }

  /** The message shown for an error. */
  function Message(e: Error): (m: string)
    ensures |m| >= 7 && m[..7] == "Error: "
    ensures e.MissingColumns? ==> forall i :: 0 <= i < |e.missing| ==> Contains(m, e.missing[i])
    ensures e.MissingColumns? ==> forall i :: 0 <= i < |e.available| ==> Contains(m, e.available[i])
  {
    match e
    case NoRowsRemaining =>
      var head := "Error: ";
      var m := head + "No rows remaining after filtering. Please check your data.";
      assert m[..7] == head;
      m
    case MissingColumns(missing, available) =>
      MissingMessageMentions(missing, available);
      MissingMessage(missing, available)
  }

  /** The missing-columns message: the missing names, then the available
      ones, each list joined by ", ". */
  function MissingMessage(missing: seq<string>, available: seq<string>): string {
    "Error: Missing required columns: " + Join(missing, ", ")
      + "\n\nAvailable columns in file: " + Join(available, ", ")
  }

  lemma MissingMessageMentions(missing: seq<string>, available: seq<string>)
    ensures var m := MissingMessage(missing, available);
            && |m| >= 7 && m[..7] == "Error: "
            && (forall i :: 0 <= i < |missing| ==> Contains(m, missing[i]))
            && (forall i :: 0 <= i < |available| ==> Contains(m, available[i]))
  {
    var m := MissingMessage(missing, available);
    assert m[..7] == "Error: Missing required columns: "[..7];
    forall i | 0 <= i < |missing|
      ensures Contains(m, missing[i])
    {
      MentionsMissing(missing, available, i);
    }
    forall i | 0 <= i < |available|
      ensures Contains(m, available[i])
    {
      MentionsAvailable(missing, available, i);
    }
  }

  lemma MentionsMissing(missing: seq<string>, available: seq<string>, i: nat)
    requires i < |missing|
    ensures Contains(MissingMessage(missing, available), missing[i])
  {
    var head := "Error: Missing required columns: ";
    var rest := "\n\nAvailable columns in file: " + Join(available, ", ");
    JoinContains(missing, ", ", i);
    ContainsInside(head, Join(missing, ", "), rest, missing[i]);
    assert MissingMessage(missing, available) == head + Join(missing, ", ") + rest;
  }

  lemma MentionsAvailable(missing: seq<string>, available: seq<string>, i: nat)
    requires i < |available|
    ensures Contains(MissingMessage(missing, available), available[i])
  {
    var front := "Error: Missing required columns: " + Join(missing, ", ")
                 + "\n\nAvailable columns in file: ";
    JoinContains(available, ", ", i);
    ContainsInside(front, Join(available, ", "), [], available[i]);
    assert MissingMessage(missing, available) == front + Join(available, ", ") + [];
  }

  /** A string found in the middle piece is found in the whole. */
  lemma ContainsInside(x: string, y: string, z: string, p: string)
    requires Contains(y, p)
    ensures Contains(x + y + z, p)
  {
    var k :| OccursAt(p, y, k);
    var s := x + y + z;
    assert s[|x| + k..|x| + k + |p|] == y[k..k + |p|];
    assert OccursAt(p, s, |x| + k);
  }

  /** The name the report is saved under: a sortable timestamp, then the
      sanitised stem of the input file's name. */
  function OutputFileName(timestamp: string, isAlnum: char -> bool, stem: string): (name: string)
    ensures |timestamp| + 5 <= |name| <= |timestamp| + 5 + MaxStemLength
    ensures name[..|timestamp| + 1] == timestamp + "_"
    ensures name[|name| - 4..] == ".csv"
    ensures forall i :: |timestamp| + 1 <= i < |name| - 4 ==> Allowed(isAlnum, name[i])
    ensures name == timestamp + "_" + Sanitize(isAlnum, stem) + ".csv"
  {
    var r := Sanitize(isAlnum, stem);
    var name := timestamp + "_" + r + ".csv";
    assert forall i :: |timestamp| + 1 <= i < |name| - 4 ==> name[i] == r[i - |timestamp| - 1];
    name
  }

  /** The rows that reach the grouping stage: survivors of the filter,
      coerced and recalculated. */
  function Prepared(parse: string -> Option<int>, patterns: seq<string>, t: Table): (xs: seq<Rec>)
    requires Rectangular(t) && HasRequired(CleanHeader(t).header)
    ensures |xs| == |FilterRows(ExtractRows(CleanHeader(t)))|
  {
    RecalcRows(patterns, CoerceRows(parse, FilterRows(ExtractRows(CleanHeader(t)))))
  }

  /** The report built from the rows that survived the filter (at least
      one). It has at least one group; its length is the survivors plus one
      subtotal per group plus SpacerRun spacers between consecutive groups;
      the preview is its first rows and the summary counts agree with it. */
  function BuildReport(parse: string -> Option<int>, patterns: seq<string>, isAlnum: char -> bool,
                       kept: seq<Row>, stem: string, timestamp: string): (rep: Report)
    requires kept != []
    ensures var s := rep.summary;
            && s.processed == |kept|
            && s.groups >= 1
            && s.recalculated <= s.processed
            && s.outputRows == |rep.rows|
            && |rep.rows| == s.processed + s.groups + SpacerRun * (s.groups - 1)
            && |rep.preview| == (if |rep.rows| < PreviewRows then |rep.rows| else PreviewRows)
            && rep.preview == rep.rows[..|rep.preview|]
            && s.fileName == OutputFileName(timestamp, isAlnum, stem)
  {
    var coerced := CoerceRows(parse, kept);
    var recalced := RecalcRows(patterns, coerced);
    var groups := Groups(recalced);
    var out := Emit(groups);
    LayoutLength(recalced);
    var summary := Summary(|kept|, CountMatching(patterns, coerced), |groups|, |out|,
                           OutputFileName(timestamp, isAlnum, stem));
    var preview := if |out| < PreviewRows then out else out[..PreviewRows];
    Report(out, summary, preview)
  }

  /** A nonempty table has at least one group, and its report has one row
      per record, one subtotal per group and a spacer run between groups. */
  lemma LayoutLength(rows: seq<Rec>)
    requires rows != []
    ensures |Groups(rows)| >= 1
    ensures |Emit(Groups(rows))| == |rows| + |Groups(rows)| + SpacerRun * (|Groups(rows)| - 1)
  {
    assert KeysOf(rows)[0] in GroupKeys(rows);
    GroupsPartition(rows);
    EmitProjections(Groups(rows));
  }

  /** The report for input table `t`. `parse` is the numeric parser (in
      cents), `patterns` the vendor codes, `isAlnum` Python's `str.isalnum`,
      `stem` the input file's name without directory and extension and
      `timestamp` the formatted time of the run.
      A missing-column error is returned exactly when a required column is
      absent after the header stage; it names exactly the absent ones, in
      the order of the required list, and lists every column found. A no-rows error is returned exactly when
      the columns are complete but no row survives the filter. Otherwise
      the report is built from the survivors. */
  function Process(parse: string -> Option<int>, patterns: seq<string>, isAlnum: char -> bool,
                   t: Table, stem: string, timestamp: string): (res: Result<Report, Error>)
    requires Rectangular(t)
    ensures (res.Failure? && res.error.MissingColumns?) <==> !HasRequired(CleanHeader(t).header)
    ensures res.Failure? && res.error.MissingColumns? ==>
              (forall c :: c in res.error.missing <==> c in Required && c !in CleanHeader(t).header)
              && res.error.available == CleanHeader(t).header
    ensures res.Failure? && res.error.MissingColumns? ==>
              res.error.missing == MissingFrom(Required, CleanHeader(t).header)
    ensures (res.Failure? && res.error.NoRowsRemaining?) <==>
              HasRequired(CleanHeader(t).header) &&
              forall r :: r in ExtractRows(CleanHeader(t)) ==> !Survives(r)
    ensures res.Success? ==>
              var s := res.value.summary;
              && s.processed >= 1
              && s.groups >= 1
              && s.recalculated <= s.processed
              && s.outputRows == |res.value.rows|
              && |res.value.rows| == s.processed + s.groups + SpacerRun * (s.groups - 1)
              && |res.value.preview| == (if |res.value.rows| < PreviewRows then |res.value.rows| else PreviewRows)
              && res.value.preview == res.value.rows[..|res.value.preview|]
              && s.fileName == OutputFileName(timestamp, isAlnum, stem)
  {
    var clean := CleanHeader(t);
    var missing := MissingFrom(Required, clean.header);
    NothingMissingIffComplete(clean.header);
    if missing != [] then
      Failure(MissingColumns(missing, clean.header))
    else
      var kept := FilterRows(ExtractRows(clean));
      if kept == [] then
        Failure(NoRowsRemaining)
      else
        assert kept[0] in kept;
        Success(BuildReport(parse, patterns, isAlnum, kept, stem, timestamp))
  }

  /** What a successful report holds: its detail rows are exactly the
      prepared rows (each once, grouped, otherwise unchanged); its subtotal
      rows are the group sums in group order and together add up to the
      column sums of all prepared rows; the processed count is the number
      of surviving rows and the recalculated count the number of them
      whose vendor matches. */
  lemma ProcessContent(parse: string -> Option<int>, patterns: seq<string>, isAlnum: char -> bool,
                       t: Table, stem: string, timestamp: string)
    requires Rectangular(t)
    requires Process(parse, patterns, isAlnum, t, stem, timestamp).Success?
    ensures var rep := Process(parse, patterns, isAlnum, t, stem, timestamp).value;
            var xs := Prepared(parse, patterns, t);
            && multiset(Details(rep.rows)) == multiset(xs)
            && Details(rep.rows) == Flatten(Groups(xs))
            && SubtotalAmounts(rep.rows) == GroupTotals(Groups(xs))
            && SumTotals(SubtotalAmounts(rep.rows)) == Total(xs)
            && rep.summary.processed == |xs|
            && rep.summary.recalculated == CountMatching(patterns, xs)
            && rep.summary.groups == |GroupKeys(xs)|
  {
    var clean := CleanHeader(t);
    NothingMissingIffComplete(clean.header);
    var xs := Prepared(parse, patterns, t);
    var groups := Groups(xs);
    GroupsPartition(xs);
    EmitProjections(groups);
    GrandTotal(xs);
    RecalcRowsEffect(patterns, CoerceRows(parse, FilterRows(ExtractRows(clean))));
  }
}
