/** The issue records the four rule families push, and how a rule that
    works group by group over the sorted table relates to the samples. */
module Issues {
  import opened Normalize
  import opened Table

  /** What an issue reports. The message text the source renders from it
      is not modelled; each finding names one message. */
  datatype Finding =
    | VisitsShort(missingVisits: nat, missingHoliday: nat, present: set<Bucket>)
    | NoCodeButFilled      // no result code, yet questionnaires are filled
    | VisitFormMissing     // the visit form (T16) is not filled
    | SamplingForbidden    // this code must not carry sampling or record forms
    | SamplingRequired     // this code needs sampling and its questionnaire
    | SuccessIncomplete    // a successful sample with forms left unfilled
    | GuardMissing         // contact is a guard, the visit form does not say so
    | IntercomMissing      // contact is an intercom, the visit form does not say so
    | NotGuardFor304       // code 304 without a guard contact
    | NotPublicServant     // code 311 or 312 without a public-servant contact
    | LatestCode(code: string)

  /** The `檢查類別` column. */
  function Category(f: Finding): (c: string)
    ensures f.VisitsShort? <==> c == "I.三訪規則"
    ensures f.LatestCode? <==> c == "IV.訪次檢查"
  {
    match f
    case VisitsShort(_, _, _) => "I.三訪規則"
    case NoCodeButFilled | VisitFormMissing | SamplingForbidden | SamplingRequired | SuccessIncomplete =>
      "II.問卷填寫"
    case GuardMissing | IntercomMissing | NotGuardFor304 | NotPublicServant => "III.問卷內容"
    case LatestCode(_) => "IV.訪次檢查"
  }

  /** One pushed record: `樣本編號`, `訪員姓名`, `日期`, `結果代碼` and the
      finding behind `問題描述` and `檢查類別`. */
  datatype Issue = Issue(sampleId: string, interviewer: string, date: string, resultCode: string, finding: Finding)

  /** `push(row, …)`, and the record the sample checks build from the last
      row: the visit's own sample, interviewer, date and raw code. */
  function RowIssue(r: Row, f: Finding): Issue {
    Issue(r.Sid(), r.rec.interviewerName, r.rec.date, r.rec.resultCode, f)
  }

  function RowIssues(r: Row, fs: seq<Finding>): (xs: seq<Issue>)
    ensures |xs| == |fs|
    ensures forall k | 0 <= k < |fs| :: xs[k] == RowIssue(r, fs[k])
  {
    if fs == [] then [] else [RowIssue(r, fs[0])] + RowIssues(r, fs[1..])
  }

  /** Pushing the issue for one more finding extends the issues by it. */
  lemma RowIssuesPush(r: Row, fs: seq<Finding>, f: Finding)
    ensures RowIssues(r, fs + [f]) == RowIssues(r, fs) + [RowIssue(r, f)]
  {
    var xs := RowIssues(r, fs + [f]);
    assert xs[|fs|] == RowIssue(r, (fs + [f])[|fs|]);
    forall k | 0 <= k < |fs|
      ensures xs[k] == RowIssue(r, fs[k])
    {
      assert (fs + [f])[k] == fs[k];
    }
  }

  /** The issues a loop pushes when it handles `xs` in order and pushes
      `f(x)` for each. */
  function Collect<T>(xs: seq<T>, f: T -> seq<Issue>): seq<Issue> {
    if xs == [] then [] else Collect(xs[..|xs| - 1], f) + f(xs[|xs| - 1])
  }

  lemma CollectStep<T>(xs: seq<T>, k: nat, f: T -> seq<Issue>)
    requires k < |xs|
    ensures Collect(xs[..k + 1], f) == Collect(xs[..k], f) + f(xs[k])
  {
    assert xs[..k + 1][..k] == xs[..k];
  }

  /** The issues about sample `sid`, in order. */
  function IssuesOf(xs: seq<Issue>, sid: string): seq<Issue> {
    if xs == [] then []
    else IssuesOf(xs[..|xs| - 1], sid) + (if xs[|xs| - 1].sampleId == sid then [xs[|xs| - 1]] else [])
  }

  lemma {:induction false} IssuesOfAppend(a: seq<Issue>, b: seq<Issue>, sid: string)
    ensures IssuesOf(a + b, sid) == IssuesOf(a, sid) + IssuesOf(b, sid)
    decreases |b|
  {
    if b == [] {
      assert a + b == a;
    } else {
      var m := |b| - 1;
      assert (a + b)[..|a + b| - 1] == a + b[..m];
      IssuesOfAppend(a, b[..m], sid);
    }
  }

  lemma {:induction false} IssuesOfAll(xs: seq<Issue>, sid: string)
    requires forall x | x in xs :: x.sampleId == sid
    ensures IssuesOf(xs, sid) == xs
  {
    if xs != [] {
      var m := |xs| - 1;
      assert xs[m] in xs;
      IssuesOfAll(xs[..m], sid);
      assert xs == xs[..m] + [xs[m]];
    }
  }

  lemma {:induction false} IssuesOfNone(xs: seq<Issue>, sid: string)
    requires forall x | x in xs :: x.sampleId != sid
    ensures IssuesOf(xs, sid) == []
  {
    if xs != [] {
      var m := |xs| - 1;
      assert xs[m] in xs;
      IssuesOfNone(xs[..m], sid);
    }
  }

  /** `f` looks at one group and, given the rows of one sample, reports
      only against that sample; it has nothing to say about no rows. */
  ghost predicate PerGroup(f: seq<Row> -> seq<Issue>) {
    && f([]) == []
    && forall g: seq<Row>, x | x in f(g) :: g != [] && (OneSample(g) ==> x.sampleId == g[0].Sid())
  }

  /** The groups of `gs` are nonempty and no two share a sample. */
  predicate DistinctGroups(gs: seq<seq<Row>>) {
    && (forall k | 0 <= k < |gs| :: OneSample(gs[k]))
    && (forall k, l | 0 <= k < l < |gs| :: gs[k][0].Sid() != gs[l][0].Sid())
  }

  lemma {:induction false} CollectAbsent(gs: seq<seq<Row>>, f: seq<Row> -> seq<Issue>, sid: string)
    requires PerGroup(f) && DistinctGroups(gs)
    requires forall k | 0 <= k < |gs| :: gs[k][0].Sid() != sid
    ensures IssuesOf(Collect(gs, f), sid) == []
  {
    if gs != [] {
      var m := |gs| - 1;
      CollectAbsent(gs[..m], f, sid);
      IssuesOfAppend(Collect(gs[..m], f), f(gs[m]), sid);
      IssuesOfNone(f(gs[m]), sid);
    }
  }

  lemma {:induction false} CollectGroup(gs: seq<seq<Row>>, f: seq<Row> -> seq<Issue>, k: nat)
    requires PerGroup(f) && DistinctGroups(gs) && k < |gs|
    ensures IssuesOf(Collect(gs, f), gs[k][0].Sid()) == f(gs[k])
  {
    var sid := gs[k][0].Sid();
    var m := |gs| - 1;
    IssuesOfAppend(Collect(gs[..m], f), f(gs[m]), sid);
    if k == m {
      CollectAbsent(gs[..m], f, sid);
      IssuesOfAll(f(gs[m]), sid);
    } else {
      CollectGroup(gs[..m], f, k);
      IssuesOfNone(f(gs[m]), sid);
    }
  }

  /** A rule that works group by group over `groupby("SampleID")` of the
      sorted table reports, for every sample, exactly what it reports
      when given that sample's rows alone, sorted. */
  lemma PerSample(t: seq<Row>, f: seq<Row> -> seq<Issue>, sid: string)
    requires UniqueRows(t) && PerGroup(f)
    ensures IssuesOf(Collect(Groups(SortRows(t)), f), sid) == f(SortRows(SampleRows(t, sid)))
  {
    var gs: seq<seq<Row>> := Groups(SortRows(t));
    GroupsDistinct(SortRows(t));
    if k: int :| 0 <= k < |gs| && gs[k][0].Sid() == sid {
      CollectGroup(gs, f, k);
      GroupIsSortedSample(t, k);
    } else {
      CollectAbsent(gs, f, sid);
      SampleWithoutGroup(t, sid);
    }
  }

  /** A rule that reports at most once per group reports at most once
      per sample. */
  lemma AtMostOncePerSample(t: seq<Row>, f: seq<Row> -> seq<Issue>, sid: string)
    requires UniqueRows(t) && PerGroup(f)
    requires forall g: seq<Row> :: |f(g)| <= 1
    ensures |IssuesOf(Collect(Groups(SortRows(t)), f), sid)| <= 1
  {
    PerSample(t, f, sid);
  }
}
