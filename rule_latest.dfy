/** Rule IV, latest visit codes (`check_IV_latest_codes`): a sample whose
    latest visit ended with one of sixteen contact codes must have the
    contact situation explained. */
module LatestCodes {
  import opened Text
  import opened Table
  import opened Issues

  /** `target`: the sixteen codes that ask for an explanation. */
  const Target: set<string> :=
    {"305", "314", "315", "316", "317", "318", "319", "320", "321", "322", "323", "324",
     "326", "329", "330", "331"}

  /** Rule IV on one sample's visits in key order. */
  function LatestIssues(g: seq<Row>): seq<Issue> {
    if g == [] then []
    else
      var code := Trim(Last(g).code3);
      if code in Target then [RowIssue(Last(g), LatestCode(code))] else []
  }

  /** The body of the group loop of `check_IV_latest_codes`. */
  method CheckLatestGroup(grp: seq<Row>) returns (found: seq<Issue>)
    requires OneSample(grp)
    ensures found == LatestIssues(grp)
  {
    found := [];
    var last := grp[|grp| - 1];
    var code3 := Trim(last.code3);
    if code3 in Target {
      found := [RowIssue(last, LatestCode(code3))];
    }
  }

  /** `check_IV_latest_codes`: the groups of the sorted table, one issue
      for each whose last visit has a target code. */
  method CheckLatestCodes(df: seq<Row>) returns (recs: seq<Issue>)
    ensures recs == Collect(Groups(SortRows(df)), LatestIssues)
  {
    var sorted := SortRows(df);
    var groups := Groups(sorted);
    recs := [];
    for k := 0 to |groups|
      invariant recs == Collect(groups[..k], LatestIssues)
    {
      CollectStep(groups, k, LatestIssues);
      var found := CheckLatestGroup(groups[k]);
      recs := recs + found;
    }
    assert groups[..|groups|] == groups;
  }

  lemma LatestIssuesPerGroup()
    ensures PerGroup(LatestIssues)
    ensures forall g: seq<Row> :: |LatestIssues(g)| <= 1
  {
    forall g: seq<Row>, x | x in LatestIssues(g)
      ensures g != [] && (OneSample(g) ==> x.sampleId == g[0].Sid())
    {
    }
  }

  /** Rule IV reports each sample at most once, exactly when the canonical
      code of its latest visit is a target code, and then with that
      visit's sample, interviewer, date and raw code. */
  lemma LatestPerSample(df: seq<Row>, sid: string)
    requires UniqueRows(df)
    ensures var mine := IssuesOf(Collect(Groups(SortRows(df)), LatestIssues), sid);
            var s := SampleRows(df, sid);
            && |mine| <= 1
            && (|mine| == 1 <==> s != [] && Trim(Last(SortRows(s)).code3) in Target)
            && (|mine| == 1 ==>
                  mine[0] == RowIssue(Last(SortRows(s)), LatestCode(Trim(Last(SortRows(s)).code3))))
  {
    LatestIssuesPerGroup();
    PerSample(df, LatestIssues, sid);
    if SampleRows(df, sid) == [] {
      assert SortRows(SampleRows(df, sid)) == [];
    } else {
      LatestVisit(SampleRows(df, sid));
    }
  }

  /** Success (100) never asks for an explanation; code 330 does. */
  lemma TargetExamples()
    ensures "100" !in Target && "330" in Target
  {
  }
}
