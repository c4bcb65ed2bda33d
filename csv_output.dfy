/** `write_csv`: the crawl rows are dictionaries that the writer completes
    in place with every missing column before writing them in a fixed
    column order. */
module CsvOutput {

  /** The fixed column order of the crawl CSV. */
  const FieldNames: seq<string> :=
    ["SampleID", "WorkID", "Date", "Session", "ResultCode", "RecordURL",
     "ViewURL", "LogsURL", "InterviewerNo", "InterviewerName",
     "ContactMethod", "ContactAnsweredAt", "T16Answer",
     "Sampling", "SamplingQ", "InterviewRecord", "HasFill"]

  /** `m` with each of `fields` it lacks added as "". */
  function PadWith(m: map<string, string>, fields: seq<string>): map<string, string>
    decreases |fields|
  {
    if fields == [] then m
    else
      var p := PadWith(m, fields[..|fields| - 1]);
      var f := fields[|fields| - 1];
      if f in p then p else p[f := ""]
  }

  /** Padding keeps every cell the row has, adds exactly the missing
      listed columns, and fills each of them with "". */
  lemma {:induction false} PadWithFacts(m: map<string, string>, fields: seq<string>)
    ensures PadWith(m, fields).Keys == m.Keys + set f | f in fields
    ensures forall k | k in m :: PadWith(m, fields)[k] == m[k]
    ensures forall f | f in fields && f !in m :: PadWith(m, fields)[f] == ""
    decreases |fields|
  {
    if fields != [] {
      var n := |fields| - 1;
      PadWithFacts(m, fields[..n]);
      assert forall f :: f in fields <==> f in fields[..n] || f == fields[n];
    }
  }

  /** A row after the padding loop of `write_csv`. */
  function Padded(m: map<string, string>): (p: map<string, string>)
    ensures p.Keys == m.Keys + set f | f in FieldNames
    ensures forall k | k in m :: p[k] == m[k]
    ensures forall f | f in FieldNames && f !in m :: p[f] == ""
  {
    PadWithFacts(m, FieldNames);
    PadWith(m, FieldNames)
  }

  /** Padding a padded row changes nothing. */
  lemma PaddedIdempotent(m: map<string, string>)
    ensures Padded(Padded(m)) == Padded(m)
  {
  }

  /** A row that already has every column is not changed. */
  lemma PaddedComplete(m: map<string, string>)
    requires forall f | f in FieldNames :: f in m
    ensures Padded(m) == m
  {
  }

  /** A row of the crawl: the dictionary `write_csv` receives and updates. */
  class CrawlRow {
    var cells: map<string, string>

    constructor (cells: map<string, string>)
      ensures this.cells == cells
    {
      this.cells := cells;
    }

    /** `for field in fieldnames: if field not in row: row[field] = ""`. */
    method Pad()
      modifies this
      ensures cells == Padded(old(cells))
    {
      ghost var original := cells;
      for k := 0 to |FieldNames|
        invariant cells == PadWith(original, FieldNames[..k])
      {
        assert FieldNames[..k + 1][..k] == FieldNames[..k];
        var field := FieldNames[k];
        if field !in cells {
          cells := cells[field := ""];
        }
      }
      assert FieldNames[..|FieldNames|] == FieldNames;
    }
  }

  /** The line `csv.DictWriter` writes for a row: its cells in column
      order, "" (its `restval`) for a missing one. */
  function Line(m: map<string, string>): (line: seq<string>)
    ensures |line| == |FieldNames|
    ensures forall i | 0 <= i < |FieldNames| :: line[i] == if FieldNames[i] in m then m[FieldNames[i]] else ""
  {
    seq(|FieldNames|, i requires 0 <= i < |FieldNames| => if FieldNames[i] in m then m[FieldNames[i]] else "")
  }

  /** On a padded row every column is present, so the line is the row's
      own cells, with "" exactly where the row lacked the column. */
  lemma LineOfPadded(m: map<string, string>)
    ensures forall i | 0 <= i < |FieldNames| ::
              Line(Padded(m))[i] == if FieldNames[i] in m then m[FieldNames[i]] else ""
  {
  }

  /** `csv.DictWriter` refuses a row with a column outside `fieldnames`. */
  predicate OnlyKnownColumns(m: map<string, string>) {
    forall k | k in m :: k in FieldNames
  }

  /** The padding loop of `write_csv`: every listed row is padded in
      place, a row listed twice once. */
  method PadAll(rows: seq<CrawlRow>)
    modifies set r | r in rows
    ensures forall r | r in rows :: r.cells == Padded(old(r.cells))
  {
    for i := 0 to |rows|
      invariant forall r | r in rows ::
        r.cells == if r in rows[..i] then Padded(old(r.cells)) else old(r.cells)
    {
      var row := rows[i];
      PaddedIdempotent(old(row.cells));
      row.Pad();
      assert forall r | r in rows[..i + 1] :: r in rows[..i] || r == row;
    }
    assert rows[..|rows|] == rows;
  }

  /** What `writer.writeheader()` and `writer.writerows(rows)` write. */
  function Lines(cells: seq<map<string, string>>): (lines: seq<seq<string>>)
    ensures |lines| == |cells| + 1 && lines[0] == FieldNames
    ensures forall i | 0 <= i < |cells| :: lines[i + 1] == Line(cells[i])
  {
    [FieldNames] + seq(|cells|, i requires 0 <= i < |cells| => Line(cells[i]))
  }

  /** The index of the first row with a column outside the fixed order,
      or the number of rows when there is none. */
  function FirstUnknown(cells: seq<map<string, string>>): (k: nat)
    ensures k <= |cells|
    ensures forall i | 0 <= i < k :: OnlyKnownColumns(cells[i])
    ensures k < |cells| ==> !OnlyKnownColumns(cells[k])
  {
    if cells == [] then 0
    else if !OnlyKnownColumns(cells[0]) then 0
    else 1 + FirstUnknown(cells[1..])
  }

  /** `write_csv(rows, path)`: nothing happens for no rows; otherwise every
      row is padded in place and, when the file opens (the parameter
      `canWrite`), the header is written and then the rows one by one.
      `writerows` stops with an error at the first row that has a column
      outside the fixed order; the header and the rows before it stay in
      the file, and the result is "". Otherwise the result is `path`. */
  method WriteCsv(rows: seq<CrawlRow>, path: string, canWrite: bool)
    returns (result: string, lines: seq<seq<string>>)
    modifies set r | r in rows
    ensures rows == [] ==> result == "" && lines == []
    ensures forall r | r in rows :: r.cells == Padded(old(r.cells))
    ensures rows != [] && !canWrite ==> result == "" && lines == []
    ensures rows != [] && canWrite ==>
              var padded := seq(|rows|, i requires 0 <= i < |rows| => Padded(old(rows[i].cells)));
              && lines == Lines(padded[..FirstUnknown(padded)])
              && (result == if forall i | 0 <= i < |rows| :: OnlyKnownColumns(padded[i]) then path else "")
  {
    if rows == [] {
      return "", [];
    }
    PadAll(rows);
    var cells := seq(|rows|, i requires 0 <= i < |rows| reads rows => rows[i].cells);
    assert forall i | 0 <= i < |rows| :: rows[i] in rows;
    assert cells == seq(|rows|, i requires 0 <= i < |rows| => Padded(old(rows[i].cells)));
    if !canWrite {
      return "", [];
    }
    var complete;
    lines, complete := WriteRows(cells);
    result := if complete then path else "";
  }

  /** `writer.writeheader()` and `writer.writerows(rows)`: the header, then
      the rows one by one until the first one with a column outside the
      fixed order, where writing stops with an error. */
  method WriteRows(cells: seq<map<string, string>>) returns (lines: seq<seq<string>>, complete: bool)
    ensures lines == Lines(cells[..FirstUnknown(cells)])
    ensures complete <==> forall i | 0 <= i < |cells| :: OnlyKnownColumns(cells[i])
  {
    lines := [FieldNames];
    var k := 0;
    assert lines == Lines(cells[..0]);
    while k < |cells| && OnlyKnownColumns(cells[k])
      invariant k <= FirstUnknown(cells)
      invariant lines == Lines(cells[..k])
    {
      LinesAppend(cells, k);
      lines := lines + [Line(cells[k])];
      k := k + 1;
    }
    complete := k == |cells|;
  }

  /** Writing one more row adds its line at the end. */
  lemma LinesAppend(cells: seq<map<string, string>>, k: nat)
    requires k < |cells|
    ensures Lines(cells[..k + 1]) == Lines(cells[..k]) + [Line(cells[k])]
  {
    var a, b := Lines(cells[..k + 1]), Lines(cells[..k]) + [Line(cells[k])];
    assert |a| == |b|;
    forall i | 0 <= i < |a|
      ensures a[i] == b[i]
    {
      if 0 < i <= k {
        assert cells[..k + 1][i - 1] == cells[..k][i - 1];
      }
    }
  }

  /** A single row with an extra column "X": the file keeps only the
      header. */
  lemma ExtraColumnLeavesHeader()
    ensures var padded := [Padded(map["X" := "1"])];
            FirstUnknown(padded) == 0 && Lines(padded[..FirstUnknown(padded)]) == [FieldNames]
  {
    var padded := [Padded(map["X" := "1"])];
    assert "X" in padded[0];
    assert "X" !in FieldNames;
    assert padded[..0] == [];
  }

  /** A padded row has only known columns exactly when the row it came
      from had. */
  lemma KnownAfterPadding(rows: seq<CrawlRow>)
    ensures forall r | r in rows :: OnlyKnownColumns(Padded(r.cells)) <==> OnlyKnownColumns(r.cells)
  {
  }
}
