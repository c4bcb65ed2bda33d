/** Rule II, questionnaire filling (`check_II_questionnaire`): which of the
    visit form, the household sampling, the sampling questionnaire and the
    interview record a visit must or must not carry, given its result
    code, the later visits of its sample and whether the sample
    succeeded. */
module Questionnaire {
  import opened Text
  import opened Normalize
  import opened Table
  import opened Issues

  /** `forbidden`: codes whose visit must not carry sampling or record forms. */
  const Forbidden: set<string> :=
    {"202", "206", "207", "302", "303", "304", "311", "312", "313", "324", "329"}

  /** `allowed_newer`: codes a later visit may carry that excuse the forms. */
  const AllowedNewer: set<string> :=
    {"201", "203", "204", "205", "301", "305", "306", "307", "309", "310", "311", "314", "315",
     "316", "317", "318", "319", "320", "321", "322", "325", "326", "331", "100"}

  /** `must_have_sampling`: codes whose visit needs both sampling forms. */
  const MustHaveSampling: set<string> :=
    {"201", "203", "204", "205", "301", "305", "306", "307", "309", "310", "311", "314", "315",
     "316", "317", "318", "319", "320", "321", "322", "325", "326", "331"}

  /** The codes that need sampling are exactly the excusing codes other
      than success. */
  lemma MustHaveSamplingIsAllowedNewer()
    ensures MustHaveSampling == AllowedNewer - {"100"}
  {
  }

  // ---------------------------------------------------------------- reverse scan

  /** `has_future_allowed[i]`: a later visit in the same run of the
      SampleID carries a code of `allowed_newer`. */
  function LaterAllowed(g: seq<Row>, i: nat): bool
    requires i < |g|
    decreases |g| - i
  {
    && i + 1 < |g|
    && g[i + 1].Sid() == g[i].Sid()
    && (g[i + 1].code3 in AllowedNewer || LaterAllowed(g, i + 1))
  }

  /** The reverse scan of `check_II_questionnaire`: walks the sorted
      table from the end, resets its running flag whenever the SampleID
      changes, records the flag, then raises it on an allowed code. */
  method FutureAllowedFlags(g: seq<Row>) returns (flags: seq<bool>)
    ensures |flags| == |g|
    ensures forall i | 0 <= i < |g| :: flags[i] == LaterAllowed(g, i)
  {
    var hasFutureAllowed := new bool[|g|](_ => false);
    var prevSid: Option<string> := None;
    var futureFlag := false;
    var i := |g|;
    while i > 0
      invariant 0 <= i <= |g|
      invariant i == |g| ==> !futureFlag
      invariant i < |g| ==> prevSid == Some(g[i].Sid())
      invariant i < |g| ==> futureFlag == (g[i].code3 in AllowedNewer || LaterAllowed(g, i))
      invariant forall j | i <= j < |g| :: hasFutureAllowed[j] == LaterAllowed(g, j)
    {
      i := i - 1;
      var sid := g[i].Sid();
      if prevSid != Some(sid) {
        futureFlag := false;
        prevSid := Some(sid);
      }
      hasFutureAllowed[i] := futureFlag;
      if g[i].code3 in AllowedNewer {
        futureFlag := true;
      }
    }
    flags := hasFutureAllowed[..];
  }

  /** In a sorted table a sample's rows are contiguous. */
  lemma Contiguous(g: seq<Row>, i: nat, m: nat, j: nat)
    requires Sorted(g) && i <= m <= j < |g| && g[i].Sid() == g[j].Sid()
    ensures g[m].Sid() == g[i].Sid()
  {
    if i < m < j {
      KeyLeSampleOrder(g[i], g[m]);
      KeyLeSampleOrder(g[m], g[j]);
      LexLeAntisymmetric(g[i].Sid(), g[m].Sid());
    }
  }

  /** On the sorted table the flag means: some strictly later visit of the
      same sample has an allowed code. So the latest visit of a sample
      never has it, and it never crosses into another sample. */
  lemma {:induction false} LaterAllowedMeaning(g: seq<Row>, i: nat)
    requires Sorted(g) && i < |g|
    ensures LaterAllowed(g, i) <==>
            exists j | i < j < |g| :: g[j].Sid() == g[i].Sid() && g[j].code3 in AllowedNewer
    decreases |g| - i
  {
    if i + 1 < |g| {
      LaterAllowedMeaning(g, i + 1);
      if j :| i < j < |g| && g[j].Sid() == g[i].Sid() && g[j].code3 in AllowedNewer {
        Contiguous(g, i, i + 1, j);
      }
    }
  }

  // ---------------------------------------------------------------- success

  /** `sample_has_100[sid]`: some visit of the sample has canonical code
      exactly "100". */
  predicate SampleHas100(g: seq<Row>, sid: string) {
    g != [] && ((g[0].Sid() == sid && g[0].code3 == "100") || SampleHas100(g[1..], sid))
  }

  lemma {:induction false} SampleHas100Meaning(g: seq<Row>, sid: string)
    ensures SampleHas100(g, sid) <==> exists r | r in g :: r.Sid() == sid && r.code3 == "100"
  {
    if g != [] {
      SampleHas100Meaning(g[1..], sid);
      assert g == [g[0]] + g[1..];
    }
  }

  /** `groupby("SampleID")["ResultCode3"].apply(lambda x: "100" in x.values)`:
      one entry per sample of the table. */
  function Has100BySample(g: seq<Row>): (m: map<string, bool>)
    ensures forall sid :: sid in m <==> exists r | r in g :: r.Sid() == sid
    ensures forall sid | sid in m :: m[sid] == SampleHas100(g, sid)
  {
    if g == [] then map[]
    else
      var m := Has100BySample(g[1..]);
      var sid := g[0].Sid();
      assert g == [g[0]] + g[1..];
      assert forall q :: q in g <==> q == g[0] || q in g[1..];
      SampleHas100Meaning(g[1..], sid);
      m[sid := g[0].code3 == "100" || (sid in m && m[sid])]
  }

  /** `g["SampleID"].map(sample_has_100)`: the column `SampleHas100`. */
  function SampleHas100Column(g: seq<Row>): (col: seq<bool>)
    ensures |col| == |g|
    ensures forall i | 0 <= i < |g| :: col[i] == SampleHas100(g, g[i].Sid())
  {
    var m := Has100BySample(g);
    seq(|g|, i requires 0 <= i < |g| => assert g[i] in g; m[g[i].Sid()])
  }

  // ---------------------------------------------------------------- row checks

  /** What the row loop pushes for one visit, given its flag and whether
      its sample succeeded. */
  function RowFindings(r: Row, laterAllowed: bool, has100: bool): seq<Finding> {
    if !IsFilled(r.rec.resultCode) then
      if r.t16Filled || r.samplingFilled || r.samplingQFilled || r.interviewRecordFilled
      then [NoCodeButFilled] else []
    else
      var code := Trim(r.code3);
      (if !r.t16Filled then [VisitFormMissing] else [])
      + (if code in Forbidden && (r.samplingFilled || r.samplingQFilled || r.interviewRecordFilled)
            && !laterAllowed && !has100
         then [SamplingForbidden] else [])
      + (if code in MustHaveSampling && !(r.samplingFilled && r.samplingQFilled)
         then [SamplingRequired] else [])
  }

  /** A row of the sorted table once the columns `HasFutureAllowed` and
      `SampleHas100` are added to it. */
  datatype CheckedRow = CheckedRow(row: Row, hasFutureAllowed: bool, sampleHas100: bool)

  /** The sorted table with its two added columns. */
  function WithColumns(g: seq<Row>): (rows: seq<CheckedRow>)
    ensures |rows| == |g|
    ensures forall i | 0 <= i < |g| ::
              rows[i] == CheckedRow(g[i], LaterAllowed(g, i), SampleHas100(g, g[i].Sid()))
  {
    seq(|g|, i requires 0 <= i < |g| => CheckedRow(g[i], LaterAllowed(g, i), SampleHas100(g, g[i].Sid())))
  }

  /** What the row loop pushes for one row of the extended table. */
  function CheckedRowIssues(c: CheckedRow): seq<Issue> {
    RowIssues(c.row, RowFindings(c.row, c.hasFutureAllowed, c.sampleHas100))
  }

  /** A visit without a result code gets at most the one "no code but
      forms" issue, and gets it exactly when one of its four forms is
      filled; no other check looks at it. */
  lemma NoCodeRow(r: Row, laterAllowed: bool, has100: bool)
    requires !IsFilled(r.rec.resultCode)
    ensures var fs := RowFindings(r, laterAllowed, has100);
            && |fs| <= 1
            && (fs != [] <==> r.t16Filled || r.samplingFilled || r.samplingQFilled || r.interviewRecordFilled)
            && (forall f | f in fs :: f == NoCodeButFilled)
  {
  }

  /** The position of a coded finding in the order the row loop checks:
      the visit form, then the forbidden forms, then the required ones. */
  function CodedRank(f: Finding): nat {
    match f
    case VisitFormMissing => 0
    case SamplingForbidden => 1
    case SamplingRequired => 2
    case _ => 3
  }

  /** A visit with a result code gets each of the three coded findings at
      most once, in the order visit form, forbidden forms, required forms,
      and each exactly when its condition holds. */
  lemma CodedRow(r: Row, laterAllowed: bool, has100: bool)
    requires IsFilled(r.rec.resultCode)
    ensures var fs := RowFindings(r, laterAllowed, has100);
            var code := Trim(r.code3);
            && NoCodeButFilled !in fs
            && |fs| <= 3
            && InCheckOrder(fs)
            && (VisitFormMissing in fs <==> !r.t16Filled)
            && (SamplingForbidden in fs <==>
                  code in Forbidden && (r.samplingFilled || r.samplingQFilled || r.interviewRecordFilled)
                  && !laterAllowed && !has100)
            && (SamplingRequired in fs <==> code in MustHaveSampling && !(r.samplingFilled && r.samplingQFilled))
  {
    var code := Trim(r.code3);
    var visitForm := if !r.t16Filled then [VisitFormMissing] else [];
    var forbidden :=
      if code in Forbidden && (r.samplingFilled || r.samplingQFilled || r.interviewRecordFilled)
         && !laterAllowed && !has100
      then [SamplingForbidden] else [];
    var required :=
      if code in MustHaveSampling && !(r.samplingFilled && r.samplingQFilled) then [SamplingRequired] else [];
    assert RowFindings(r, laterAllowed, has100) == visitForm + forbidden + required;
    CodedRowOrder(r, laterAllowed, has100);
  }

  lemma CodedRowOrder(r: Row, laterAllowed: bool, has100: bool)
    requires IsFilled(r.rec.resultCode)
    ensures InCheckOrder(RowFindings(r, laterAllowed, has100))
  {
    var code := Trim(r.code3);
    var visitForm := if !r.t16Filled then [VisitFormMissing] else [];
    var forbidden :=
      if code in Forbidden && (r.samplingFilled || r.samplingQFilled || r.interviewRecordFilled)
         && !laterAllowed && !has100
      then [SamplingForbidden] else [];
    var required :=
      if code in MustHaveSampling && !(r.samplingFilled && r.samplingQFilled) then [SamplingRequired] else [];
    assert RowFindings(r, laterAllowed, has100) == visitForm + forbidden + required;
    RankedThree(visitForm, forbidden, required);
  }

  /** Three parts of at most one finding each, of ranks 0, 1 and 2, are
      in check order together. */
  lemma RankedThree(a: seq<Finding>, b: seq<Finding>, c: seq<Finding>)
    requires |a| <= 1 && |b| <= 1 && |c| <= 1
    requires forall f | f in a :: CodedRank(f) == 0
    requires forall f | f in b :: CodedRank(f) == 1
    requires forall f | f in c :: CodedRank(f) == 2
    ensures InCheckOrder(a + b + c)
  {
    InCheckOrderAppend(a, b);
    InCheckOrderAppend(a + b, c);
  }

  /** Findings of strictly increasing rank. */
  predicate InCheckOrder(fs: seq<Finding>) {
    forall i, j | 0 <= i < j < |fs| :: CodedRank(fs[i]) < CodedRank(fs[j])
  }

  /** Two runs in check order, every finding of the first ranked below
      every finding of the second, make one run in check order. */
  lemma InCheckOrderAppend(x: seq<Finding>, y: seq<Finding>)
    requires InCheckOrder(x) && InCheckOrder(y)
    requires forall f, g | f in x && g in y :: CodedRank(f) < CodedRank(g)
    ensures InCheckOrder(x + y)
  {
    var xy := x + y;
    forall i, j | 0 <= i < j < |xy|
      ensures CodedRank(xy[i]) < CodedRank(xy[j])
    {
      if j < |x| {
        assert xy[i] == x[i] && xy[j] == x[j];
      } else if i >= |x| {
        assert xy[i] == y[i - |x|] && xy[j] == y[j - |x|];
      } else {
        assert xy[i] in x && xy[j] in y;
      }
    }
  }


  /** On the sorted table the forbidden-forms issue of visit `i` is
      suppressed exactly by a later visit of the same sample with an
      allowed code, or by a visit of the sample with code "100". */
  lemma ForbiddenSuppression(g: seq<Row>, i: nat)
    requires Sorted(g) && i < |g| && IsFilled(g[i].rec.resultCode)
    ensures var r := g[i];
            SamplingForbidden in RowFindings(r, LaterAllowed(g, i), SampleHas100(g, r.Sid())) <==>
              && Trim(r.code3) in Forbidden
              && (r.samplingFilled || r.samplingQFilled || r.interviewRecordFilled)
              && !(exists j | i < j < |g| :: g[j].Sid() == r.Sid() && g[j].code3 in AllowedNewer)
              && !(exists q | q in g :: q.Sid() == r.Sid() && q.code3 == "100")
  {
    LaterAllowedMeaning(g, i);
    SampleHas100Meaning(g, g[i].Sid());
    CodedRow(g[i], LaterAllowed(g, i), SampleHas100(g, g[i].Sid()));
  }

  /** Code 311 is both forbidden and in need of sampling: a coded visit
      with code 311, no later allowed visit and no success in its sample
      is reported whatever its sampling forms say. */
  lemma Code311AlwaysReported(r: Row)
    requires IsFilled(r.rec.resultCode) && Trim(r.code3) == "311"
    ensures RowFindings(r, false, false) != []
  {
    CodedRow(r, false, false);
  }

  /** The body of the row loop. */
  method CheckRow(r: Row, laterAllowed: bool, has100: bool) returns (found: seq<Issue>)
    ensures found == RowIssues(r, RowFindings(r, laterAllowed, has100))
  {
    var code3 := Trim(r.code3);
    var hasRc := IsFilled(r.rec.resultCode);
    if !hasRc {
      if r.t16Filled || r.samplingFilled || r.samplingQFilled || r.interviewRecordFilled {
        found := [RowIssue(r, NoCodeButFilled)];
      } else {
        found := [];
      }
      return;
    }
    ghost var visitForm := if !r.t16Filled then [VisitFormMissing] else [];
    ghost var forbidden :=
      if code3 in Forbidden && (r.samplingFilled || r.samplingQFilled || r.interviewRecordFilled)
         && !laterAllowed && !has100
      then [SamplingForbidden] else [];
    ghost var required :=
      if code3 in MustHaveSampling && !(r.samplingFilled && r.samplingQFilled) then [SamplingRequired] else [];
    assert RowFindings(r, laterAllowed, has100) == visitForm + forbidden + required;
    found := [];
    ghost var fs: seq<Finding> := [];
    if !r.t16Filled {
      RowIssuesPush(r, fs, VisitFormMissing);
      found, fs := found + [RowIssue(r, VisitFormMissing)], fs + [VisitFormMissing];
    }
    assert fs == visitForm;
    if code3 in Forbidden {
      if r.samplingFilled || r.samplingQFilled || r.interviewRecordFilled {
        if !laterAllowed && !has100 {
          RowIssuesPush(r, fs, SamplingForbidden);
          found, fs := found + [RowIssue(r, SamplingForbidden)], fs + [SamplingForbidden];
        }
      }
    }
    assert fs == visitForm + forbidden;
    if code3 in MustHaveSampling {
      if !(r.samplingFilled && r.samplingQFilled) {
        RowIssuesPush(r, fs, SamplingRequired);
        found, fs := found + [RowIssue(r, SamplingRequired)], fs + [SamplingRequired];
      }
    }
    assert fs == visitForm + forbidden + required;
  }

  // ---------------------------------------------------------------- sample check

  /** The success check on one sample's visits in key order: a latest
      visit with canonical code "100" must have all four forms filled. */
  function SuccessIssues(g: seq<Row>): seq<Issue> {
    if g == [] then []
    else
      var last := Last(g);
      if Trim(last.code3) == "100"
         && !(last.t16Filled && last.samplingFilled && last.samplingQFilled && last.interviewRecordFilled)
      then [RowIssue(last, SuccessIncomplete)]
      else []
  }

  lemma SuccessIssuesPerGroup()
    ensures PerGroup(SuccessIssues)
    ensures forall g: seq<Row> :: |SuccessIssues(g)| <= 1
  {
    forall g: seq<Row>, x | x in SuccessIssues(g)
      ensures g != [] && (OneSample(g) ==> x.sampleId == g[0].Sid())
    {
    }
  }

  /** The success check reports a sample at most once, and exactly when
      the sample's latest visit has canonical code "100" and one of its
      four forms is not filled. */
  lemma SuccessPerSample(df: seq<Row>, sid: string)
    requires UniqueRows(df)
    ensures var mine := IssuesOf(Collect(Groups(SortRows(df)), SuccessIssues), sid);
            var s := SampleRows(df, sid);
            && |mine| <= 1
            && (|mine| == 1 <==>
                  && s != []
                  && var last := Last(SortRows(s));
                     Trim(last.code3) == "100"
                     && !(last.t16Filled && last.samplingFilled && last.samplingQFilled && last.interviewRecordFilled))
            && (|mine| == 1 ==> mine[0] == RowIssue(Last(SortRows(s)), SuccessIncomplete))
  {
    SuccessIssuesPerGroup();
    PerSample(df, SuccessIssues, sid);
    if SampleRows(df, sid) == [] {
      assert SortRows(SampleRows(df, sid)) == [];
    } else {
      LatestVisit(SampleRows(df, sid));
    }
  }

  // ---------------------------------------------------------------- the rule

  /** Everything `check_II_questionnaire` pushes: the row checks over the
      sorted table, then the success check group by group. */
  function QuestionnaireIssues(df: seq<Row>): seq<Issue> {
    var g := SortRows(df);
    Collect(WithColumns(g), CheckedRowIssues) + Collect(Groups(g), SuccessIssues)
  }

  /** The row loop of `check_II_questionnaire` over the extended table. */
  method CheckRows(rows: seq<CheckedRow>) returns (recs: seq<Issue>)
    ensures recs == Collect(rows, CheckedRowIssues)
  {
    recs := [];
    for i := 0 to |rows|
      invariant recs == Collect(rows[..i], CheckedRowIssues)
    {
      CollectStep(rows, i, CheckedRowIssues);
      var row := rows[i];
      var found := CheckRow(row.row, row.hasFutureAllowed, row.sampleHas100);
      recs := recs + found;
    }
    assert rows[..|rows|] == rows;
  }

  /** The group loop of `check_II_questionnaire`: the success check. */
  method CheckSuccess(g: seq<Row>) returns (recs: seq<Issue>)
    ensures recs == Collect(Groups(g), SuccessIssues)
  {
    var groups := Groups(g);
    recs := [];
    for k := 0 to |groups|
      invariant recs == Collect(groups[..k], SuccessIssues)
    {
      CollectStep(groups, k, SuccessIssues);
      var found := CheckSuccessGroup(groups[k]);
      recs := recs + found;
    }
    assert groups[..|groups|] == groups;
  }

  /** The body of the group loop of the success check. */
  method CheckSuccessGroup(grp: seq<Row>) returns (found: seq<Issue>)
    requires OneSample(grp)
    ensures found == SuccessIssues(grp)
  {
    found := [];
    var last := grp[|grp| - 1];
    if Trim(last.code3) == "100" {
      if !(last.t16Filled && last.samplingFilled && last.samplingQFilled && last.interviewRecordFilled) {
        found := [RowIssue(last, SuccessIncomplete)];
      }
    }
  }

  /** `check_II_questionnaire`. */
  method CheckQuestionnaire(df: seq<Row>) returns (recs: seq<Issue>)
    ensures recs == QuestionnaireIssues(df)
  {
    var g := SortRows(df);
    var sampleHas100 := SampleHas100Column(g);
    var hasFutureAllowed := FutureAllowedFlags(g);
    var rows := seq(|g|, i requires 0 <= i < |g| => CheckedRow(g[i], hasFutureAllowed[i], sampleHas100[i]));
    assert rows == WithColumns(g);
    var rowRecs := CheckRows(rows);
    var successRecs := CheckSuccess(g);
    recs := rowRecs + successRecs;
  }
}
