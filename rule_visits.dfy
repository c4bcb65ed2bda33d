/** Rule I, the three-visit rule (`check_I_three_visits`): a sample whose
    latest visit still carries a 2xx code must have been visited at least
    three times, in at least two of the three sessions, and at least once
    on a weekend or holiday. */
module ThreeVisits {
  import opened Text
  import opened Normalize
  import opened Table
  import opened Issues

  // ---------------------------------------------------------------- mode

  function Count(names: seq<string>, x: string): nat {
    multiset(names)[x]
  }

  /** `m` is a mode of `names` as `Series.mode().iat[0]` picks it: one of
      the most frequent names, and the smallest of them, because `mode()`
      returns its values sorted. */
  predicate IsMode(names: seq<string>, m: string) {
    && m in names
    && (forall x | x in names :: Count(names, x) <= Count(names, m))
    && (forall x | x in names && Count(names, x) == Count(names, m) :: LexLe(m, x))
  }

  /** The best of `cands` by (count in `names` descending, name ascending). */
  function Best(cands: seq<string>, names: seq<string>): (m: string)
    requires cands != []
    ensures m in cands
    ensures forall x | x in cands ::
      Count(names, x) < Count(names, m) || (Count(names, x) == Count(names, m) && LexLe(m, x))
  {
    if |cands| == 1 then cands[0]
    else
      var b := Best(cands[1..], names);
      var c := cands[0];
      assert cands == [c] + cands[1..];
      if Count(names, c) > Count(names, b) || (Count(names, c) == Count(names, b) && LexLess(c, b)) then
        forall x | x in cands[1..] && Count(names, x) == Count(names, c)
          ensures LexLe(c, x)
        {
          LexLeTransitive(c, b, x);
        }
        c
      else
        LexLessTrichotomy(c, b);
        b
  }

  /** `g["InterviewerName"].mode().iat[0]`. */
  function Mode(names: seq<string>): (m: string)
    requires names != []
    ensures IsMode(names, m)
  {
    Best(names, names)
  }

  /** There is only one such mode. */
  lemma ModeUnique(names: seq<string>, m1: string, m2: string)
    requires IsMode(names, m1) && IsMode(names, m2)
    ensures m1 == m2
  {
    LexLeAntisymmetric(m1, m2);
  }

  /** The mode depends only on how often each name occurs, not on the
      order of the visits. */
  lemma ModePermutation(a: seq<string>, b: seq<string>)
    requires a != [] && multiset(a) == multiset(b)
    ensures b != [] && Mode(a) == Mode(b)
  {
    assert |b| == |multiset(b)| == |a|;
    var m := Mode(a);
    assert m in multiset(b);
    forall x | x in b
      ensures x in a
    {
      assert x in multiset(a);
    }
    assert IsMode(b, m);
    ModeUnique(b, m, Mode(b));
  }

  // ---------------------------------------------------------------- one sample

  /** The interviewer names of the visits, in order. */
  function Names(g: seq<Row>): (ns: seq<string>) {
    seq(|g|, i requires 0 <= i < |g| => g[i].rec.interviewerName)
  }

  /** Taking out the visit at `j` takes its name out of the names. */
  lemma NamesRemove(b: seq<Row>, j: nat)
    requires j < |b|
    ensures multiset(Names(b)) == multiset(Names(b[..j] + b[j + 1..])) + multiset{b[j].rec.interviewerName}
  {
    var left, right := Names(b[..j]), Names(b[j + 1..]);
    assert Names(b) == left + [b[j].rec.interviewerName] + right;
    assert Names(b[..j] + b[j + 1..]) == left + right;
    MultisetMiddle(left, b[j].rec.interviewerName, right);
  }

  /** Reordering the visits reorders their names the same way. */
  lemma {:induction false} NamesPermutation(a: seq<Row>, b: seq<Row>)
    requires multiset(a) == multiset(b)
    ensures multiset(Names(a)) == multiset(Names(b))
    decreases |a|
  {
    if a == [] {
      assert |b| == |multiset(b)| == 0;
    } else {
      assert a[0] in multiset(b);
      var j :| 0 <= j < |b| && b[j] == a[0];
      var rest := b[..j] + b[j + 1..];
      PermutationRest(a, b, j);
      NamesPermutation(a[1..], rest);
      NamesRemove(b, j);
      assert Names(a) == [a[0].rec.interviewerName] + Names(a[1..]);
    }
  }

  /** The session buckets among `{"白天", "下午", "晚上"}` that the visits cover. */
  function SessionsPresent(g: seq<Row>): (p: set<Bucket>)
    ensures p <= {Day, Afternoon, Evening}
  {
    set r | r in g && r.bucket in {Day, Afternoon, Evening} :: r.bucket
  }

  /** `g["IsWeekendOrHoliday"].sum()`. */
  function HolidayVisits(g: seq<Row>): (n: nat)
    ensures n <= |g|
  {
    if g == [] then 0 else (if g[0].weekendOrHoliday then 1 else 0) + HolidayVisits(g[1..])
  }

  /** No holiday visit counted means no visit on a weekend or holiday. */
  lemma {:induction false} HolidayVisitsZero(g: seq<Row>)
    ensures HolidayVisits(g) == 0 <==> forall r | r in g :: !r.weekendOrHoliday
  {
    if g != [] {
      HolidayVisitsZero(g[1..]);
      assert g == [g[0]] + g[1..];
    }
  }

  predicate StartsWithTwo(code: string) {
    |code| > 0 && code[0] == '2'
  }

  /** Fewer than three visits, fewer than two sessions, or no visit on a
      weekend or holiday. */
  predicate Deficient(g: seq<Row>) {
    || |g| < 3
    || |SessionsPresent(g)| < 2
    || forall r | r in g :: !r.weekendOrHoliday
  }

  /** Rule I on one sample's visits in key order. */
  function VisitIssues(g: seq<Row>): seq<Issue> {
    if g == [] then []
    else
      var code := Trim(Last(g).code3);
      if StartsWithTwo(code) && Deficient(g) then
        var missingVisits := if |g| < 3 then 3 - |g| else 0;
        var missingHoliday := if forall r | r in g :: !r.weekendOrHoliday then 1 else 0;
        [Issue(g[0].Sid(), Mode(Names(g)), "", code, VisitsShort(missingVisits, missingHoliday, SessionsPresent(g)))]
      else []
  }

  // ---------------------------------------------------------------- the rule

  /** The body of the group loop of `check_I_three_visits`. */
  method CheckGroup(g: seq<Row>) returns (found: seq<Issue>)
    requires OneSample(g)
    ensures found == VisitIssues(g)
  {
    found := [];
    var sid := g[0].Sid();
    var last := g[|g| - 1];
    var lastCode := Trim(last.code3);
    if !StartsWithTwo(lastCode) {
      return;
    }
    var totalVisits := |g|;
    var missingVisits := if 3 - totalVisits > 0 then 3 - totalVisits else 0;
    var sessionsPresent := SessionsPresent(g);
    var holidayVisits := HolidayVisits(g);
    var missingHoliday := 1 - (if holidayVisits < 1 then holidayVisits else 1);
    HolidayVisitsZero(g);
    if missingVisits > 0 || |sessionsPresent| < 2 || missingHoliday > 0 {
      var names := Names(g);
      var interviewer := if |names| > 0 then Mode(names) else "";
      found := [Issue(sid, interviewer, "", lastCode,
                      VisitsShort(missingVisits, missingHoliday, sessionsPresent))];
    }
  }

  /** `check_I_three_visits`: walks the groups of the sorted table and
      pushes what each group yields. */
  method CheckThreeVisits(df: seq<Row>) returns (recs: seq<Issue>)
    ensures recs == Collect(Groups(SortRows(df)), VisitIssues)
  {
    var sorted := SortRows(df);
    var groups := Groups(sorted);
    recs := [];
    for k := 0 to |groups|
      invariant recs == Collect(groups[..k], VisitIssues)
    {
      CollectStep(groups, k, VisitIssues);
      var found := CheckGroup(groups[k]);
      recs := recs + found;
    }
    assert groups[..|groups|] == groups;
  }

  lemma VisitIssuesPerGroup()
    ensures PerGroup(VisitIssues)
    ensures forall g: seq<Row> :: |VisitIssues(g)| <= 1
  {
  }

  lemma SessionsPermutation(a: seq<Row>, b: seq<Row>)
    requires multiset(a) == multiset(b)
    ensures SessionsPresent(a) == SessionsPresent(b)
    ensures (forall r | r in a :: !r.weekendOrHoliday) <==> (forall r | r in b :: !r.weekendOrHoliday)
  {
    forall r
      ensures r in a <==> r in b
    {
      assert r in a <==> r in multiset(a);
    }
  }

  /** `mine`, the Rule I issues for sample `sid`, hold at most one issue,
      and hold one exactly when the last of the visits in key order,
      `sorted`, has a canonical code starting with "2" and the same visits
      in table order, `s`, are fewer than three, cover
      fewer than two of the three sessions, or have no weekend or holiday
      visit. The issue carries no date, the latest visit's code, the most
      frequent interviewer name, and a Rule I finding with the number of
      missing visits, the missing holiday visit and the sessions covered. */
  predicate ReportsSample(mine: seq<Issue>, s: seq<Row>, sorted: seq<Row>, sid: string) {
    && |mine| <= 1
    && (|mine| == 1 <==> sorted != [] && StartsWithTwo(Trim(Last(sorted).code3)) && Deficient(s))
    && (|mine| == 1 ==>
          && mine[0].sampleId == sid
          && mine[0].date == ""
          && s != [] && sorted != []
          && mine[0].resultCode == Trim(Last(sorted).code3)
          && mine[0].interviewer == Mode(Names(s))
          && Category(mine[0].finding) == "I.三訪規則"
          && mine[0].finding == VisitsShort(
               if |s| < 3 then 3 - |s| else 0,
               if HolidayVisits(s) == 0 then 1 else 0,
               SessionsPresent(s)))
  }

  /** Rule I reports each sample at most once, and reports it as
      `ReportsSample` says of the sample's visits. */
  lemma ThreeVisitsPerSample(df: seq<Row>, sid: string)
    requires UniqueRows(df)
    ensures var s := SampleRows(df, sid);
            ReportsSample(IssuesOf(Collect(Groups(SortRows(df)), VisitIssues), sid), s, SortRows(s), sid)
  {
    VisitIssuesPerGroup();
    PerSample(df, VisitIssues, sid);
    var s := SampleRows(df, sid);
    var g := SortRows(s);
    if g != [] {
      assert g[0] in multiset(s);
      SampleRowsMember(df, sid, g[0]);
    }
    SampleVisitIssues(IssuesOf(Collect(Groups(SortRows(df)), VisitIssues), sid), g, s, sid);
  }

  /** What Rule I yields on the visits `g` of sample `sid`, stated on the
      same visits `s` in any order. */
  lemma SampleVisitIssues(mine: seq<Issue>, g: seq<Row>, s: seq<Row>, sid: string)
    requires mine == VisitIssues(g) && multiset(g) == multiset(s)
    requires g != [] ==> g[0].Sid() == sid
    ensures ReportsSample(mine, s, g, sid)
  {
    assert |g| == |multiset(g)| == |s|;
    if g != [] {
      VisitIssuesPermutation(g, s);
    }
  }

  /** Rule I on a sample's visits in one order, stated on the same visits
      in any other order. */
  lemma VisitIssuesPermutation(g: seq<Row>, s: seq<Row>)
    requires g != [] && multiset(g) == multiset(s)
    ensures |VisitIssues(g)| == 1 <==> StartsWithTwo(Trim(Last(g).code3)) && Deficient(s)
    ensures |VisitIssues(g)| == 1 ==>
              VisitIssues(g)[0] == Issue(g[0].Sid(), Mode(Names(s)), "", Trim(Last(g).code3),
                                         VisitsShort(if |s| < 3 then 3 - |s| else 0,
                                                     if HolidayVisits(s) == 0 then 1 else 0,
                                                     SessionsPresent(s)))
  {
    OrderFree(g, s);
    var code := Trim(Last(g).code3);
    if StartsWithTwo(code) && Deficient(g) {
      var missingHoliday := if forall r | r in g :: !r.weekendOrHoliday then 1 else 0;
      assert VisitIssues(g) ==
        [Issue(g[0].Sid(), Mode(Names(g)), "", code,
               VisitsShort(if |g| < 3 then 3 - |g| else 0, missingHoliday, SessionsPresent(g)))];
    } else {
      assert VisitIssues(g) == [];
    }
  }

  /** The visit count, the sessions covered, the holiday test and the
      interviewer do not depend on the order of the visits. */
  lemma OrderFree(g: seq<Row>, s: seq<Row>)
    requires g != [] && multiset(g) == multiset(s)
    ensures |g| == |s| && SessionsPresent(g) == SessionsPresent(s)
    ensures (forall r | r in g :: !r.weekendOrHoliday) <==> HolidayVisits(s) == 0
    ensures Deficient(g) == Deficient(s)
    ensures Mode(Names(g)) == Mode(Names(s))
  {
    assert |g| == |multiset(g)| == |s|;
    SessionsPermutation(g, s);
    HolidayVisitsZero(s);
    NamesPermutation(g, s);
    ModePermutation(Names(g), Names(s));
  }
}
