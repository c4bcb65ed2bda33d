/** Report aggregation in `run_all_checks`: the issues of all four rule
    families, one list per interviewer sorted by (sample, date), the file
    name each list is written under, and the per-interviewer summary. */
module Report {
  import opened Text
  import opened Normalize
  import opened Table
  import opened Issues
  import ThreeVisits
  import Questionnaire
  import Content
  import LatestCodes

  // ---------------------------------------------------------------- per interviewer

  /** The issues of one interviewer, in order. */
  function IssuesBy(xs: seq<Issue>, name: string): seq<Issue> {
    if xs == [] then []
    else IssuesBy(xs[..|xs| - 1], name) + (if xs[|xs| - 1].interviewer == name then [xs[|xs| - 1]] else [])
  }

  /** An interviewer's list holds each of that interviewer's issues as
      often as the whole list does, and nothing else. */
  lemma {:induction false} IssuesByMultiset(xs: seq<Issue>, name: string, x: Issue)
    ensures multiset(IssuesBy(xs, name))[x] == if x.interviewer == name then multiset(xs)[x] else 0
  {
    if xs != [] {
      var m := |xs| - 1;
      IssuesByMultiset(xs[..m], name, x);
      assert xs == xs[..m] + [xs[m]];
    }
  }

  /** The order of `sort_values(["樣本編號", "日期"])`. */
  predicate IssueLe(a: Issue, b: Issue) {
    LexLess(a.sampleId, b.sampleId) || (a.sampleId == b.sampleId && LexLe(a.date, b.date))
  }

  lemma IssueLeTotal(a: Issue, b: Issue)
    ensures IssueLe(a, b) || IssueLe(b, a)
  {
    LexLessTrichotomy(a.sampleId, b.sampleId);
    LexLeTotal(a.date, b.date);
  }

  lemma IssueLeTransitive(a: Issue, b: Issue, c: Issue)
    requires IssueLe(a, b) && IssueLe(b, c)
    ensures IssueLe(a, c)
  {
    if LexLess(a.sampleId, b.sampleId) && LexLess(b.sampleId, c.sampleId) {
      LexLessTransitive(a.sampleId, b.sampleId, c.sampleId);
    }
    LexLessIrreflexive(b.sampleId);
    if a.sampleId == b.sampleId == c.sampleId {
      LexLeTransitive(a.date, b.date, c.date);
    }
  }

  predicate IssuesSorted(xs: seq<Issue>) {
    forall i, j | 0 <= i < j < |xs| :: IssueLe(xs[i], xs[j])
  }

  lemma PrependIssue(x: Issue, r: seq<Issue>)
    requires IssuesSorted(r)
    requires forall y | y in r :: IssueLe(x, y)
    ensures IssuesSorted([x] + r)
  {
    forall i, j | 0 <= i < j < |r| + 1
      ensures IssueLe(([x] + r)[i], ([x] + r)[j])
    {
      if i == 0 {
        assert r[j - 1] in r;
      }
    }
  }

  function InsertIssue(x: Issue, s: seq<Issue>): (r: seq<Issue>)
    requires IssuesSorted(s)
    ensures IssuesSorted(r)
    ensures multiset(r) == multiset(s) + multiset{x}
  {
    if s == [] then [x]
    else if IssueLe(x, s[0]) then
      forall y | y in s
        ensures IssueLe(x, y)
      {
        var j :| 0 <= j < |s| && s[j] == y;
        if j > 0 {
          IssueLeTransitive(x, s[0], s[j]);
        }
      }
      PrependIssue(x, s);
      [x] + s
    else
      var r := InsertIssue(x, s[1..]);
      InsertIssueBehind(x, s, r);
      [s[0]] + r
  }

  lemma InsertIssueBehind(x: Issue, s: seq<Issue>, r: seq<Issue>)
    requires IssuesSorted(s) && s != [] && !IssueLe(x, s[0])
    requires IssuesSorted(r) && multiset(r) == multiset(s[1..]) + multiset{x}
    ensures IssuesSorted([s[0]] + r)
    ensures multiset([s[0]] + r) == multiset(s) + multiset{x}
  {
    assert s == [s[0]] + s[1..];
    IssueLeTotal(x, s[0]);
    forall y | y in r
      ensures IssueLe(s[0], y)
    {
      assert y in multiset(r);
      if y != x {
        assert y in multiset(s[1..]);
        var j :| 0 <= j < |s[1..]| && s[1..][j] == y;
        assert s[j + 1] == y;
      }
    }
    PrependIssue(s[0], r);
  }

  /** One way to carry out `sort_values(["樣本編號", "日期"])`. */
  function SortIssues(xs: seq<Issue>): (r: seq<Issue>)
    ensures IssuesSorted(r)
    ensures multiset(r) == multiset(xs)
  {
    if xs == [] then []
    else
      assert xs == [xs[0]] + xs[1..];
      InsertIssue(xs[0], SortIssues(xs[1..]))
  }

  // ---------------------------------------------------------------- interviewer names

  predicate Increasing(ns: seq<string>) {
    forall i, j | 0 <= i < j < |ns| :: LexLess(ns[i], ns[j])
  }

  function InsertName(n: string, ns: seq<string>): (r: seq<string>)
    requires Increasing(ns)
    ensures Increasing(r)
    ensures forall m :: m in r <==> m == n || m in ns
  {
    if ns == [] then [n]
    else if n == ns[0] then ns
    else if LexLess(n, ns[0]) then
      forall j | 0 < j < |ns|
        ensures LexLess(n, ns[j])
      {
        LexLessTransitive(n, ns[0], ns[j]);
      }
      [n] + ns
    else
      var r := InsertName(n, ns[1..]);
      LexLessTrichotomy(n, ns[0]);
      forall m | m in r
        ensures LexLess(ns[0], m)
      {
        if m != n {
          var j :| 0 <= j < |ns[1..]| && ns[1..][j] == m;
          assert ns[j + 1] == m;
        }
      }
      IncreasingPrepend(ns[0], r);
      [ns[0]] + r
  }

  lemma IncreasingPrepend(n: string, r: seq<string>)
    requires Increasing(r)
    requires forall m | m in r :: LexLess(n, m)
    ensures Increasing([n] + r)
  {
    forall i, j | 0 <= i < j < |r| + 1
      ensures LexLess(([n] + r)[i], ([n] + r)[j])
    {
      if i == 0 {
        assert r[j - 1] in r;
      }
    }
  }

  /** The keys of `issues_df.groupby("訪員姓名")`: every interviewer name
      once, in ascending order. */
  function SortedNames(xs: seq<Issue>): (ns: seq<string>)
    ensures Increasing(ns)
    ensures forall n :: n in ns <==> exists x | x in xs :: x.interviewer == n
  {
    if xs == [] then []
    else
      var m := |xs| - 1;
      assert forall x :: x in xs <==> x in xs[..m] || x == xs[m];
      InsertName(xs[m].interviewer, SortedNames(xs[..m]))
  }

  // ---------------------------------------------------------------- file names

  /** The characters `[\\/:*?"<>|]` that cannot go into a file name. */
  const Unsafe: set<char> := {'\\', '/', ':', '*', '?', '"', '<', '>', '|'}

  /** `re.sub(r'[\\/:*?"<>|]', '_', name)`. */
  function SanitizeName(name: string): (r: string)
    ensures |r| == |name|
    ensures forall i | 0 <= i < |name| :: r[i] == if name[i] in Unsafe then '_' else name[i]
  {
    seq(|name|, i requires 0 <= i < |name| => if name[i] in Unsafe then '_' else name[i])
  }

  /** The sanitised name is as long as the name, holds none of the unsafe
      characters, changes no other character, and sanitising it again
      changes nothing. */
  lemma SanitizeFacts(name: string)
    ensures |SanitizeName(name)| == |name|
    ensures forall c | c in SanitizeName(name) :: c !in Unsafe
    ensures forall i | 0 <= i < |name| && name[i] !in Unsafe :: SanitizeName(name)[i] == name[i]
    ensures SanitizeName(SanitizeName(name)) == SanitizeName(name)
    ensures (forall c | c in name :: c !in Unsafe) ==> SanitizeName(name) == name
  {
    assert '_' !in Unsafe;
  }

  function FileName(interviewer: string): string {
    "interviewer_" + SanitizeName(interviewer) + ".csv"
  }

  /** Different names can share a file name: "a/b" and "a:b" both write
      `interviewer_a_b.csv`, so the later file replaces the earlier. */
  lemma FileNamesCollide()
    ensures "a/b" != "a:b" && FileName("a/b") == FileName("a:b")
  {
    assert SanitizeName("a/b") == "a_b";
    assert SanitizeName("a:b") == "a_b";
  }

  // ---------------------------------------------------------------- summary

  datatype InterviewerFile = InterviewerFile(interviewer: string, fileName: string, rows: seq<Issue>)

  /** A row of `check_summary_by_interviewer.csv`: `訪員姓名`, `違規總數`. */
  datatype SummaryRow = SummaryRow(interviewer: string, count: nat)

  /** `issues_df.groupby("訪員姓名").size()`: one row per name, by name. */
  function CountTable(xs: seq<Issue>): (rows: seq<SummaryRow>)
    ensures |rows| == |SortedNames(xs)|
    ensures forall k | 0 <= k < |rows| ::
              rows[k] == SummaryRow(SortedNames(xs)[k], |IssuesBy(xs, SortedNames(xs)[k])|)
  {
    var ns := SortedNames(xs);
    seq(|ns|, k requires 0 <= k < |ns| => SummaryRow(ns[k], |IssuesBy(xs, ns[k])|))
  }

  predicate CountsDescending(rows: seq<SummaryRow>) {
    forall i, j | 0 <= i < j < |rows| :: rows[i].count >= rows[j].count
  }

  function InsertByCount(x: SummaryRow, s: seq<SummaryRow>): (r: seq<SummaryRow>)
    requires CountsDescending(s)
    ensures CountsDescending(r)
    ensures multiset(r) == multiset(s) + multiset{x}
  {
    if s == [] then [x]
    else if x.count >= s[0].count then
      HeadIsLargest(s);
      DescendingCons(x, s);
      [x] + s
    else
      var r := InsertByCount(x, s[1..]);
      InsertedBelowHead(x, s, r);
      DescendingCons(s[0], r);
      assert s == [s[0]] + s[1..];
      [s[0]] + r
  }

  /** The head of a descending list is counted at least as often as any
      of its rows. */
  lemma HeadIsLargest(s: seq<SummaryRow>)
    requires s != [] && CountsDescending(s)
    ensures forall y | y in s :: s[0].count >= y.count
  {
    forall y | y in s
      ensures s[0].count >= y.count
    {
      var k :| 0 <= k < |s| && s[k] == y;
      if k > 0 {
        assert s[0].count >= s[k].count;
      }
    }
  }

  /** What comes of inserting a row counted less often than the head into
      the tail stays below the head. */
  lemma InsertedBelowHead(x: SummaryRow, s: seq<SummaryRow>, r: seq<SummaryRow>)
    requires s != [] && CountsDescending(s) && x.count < s[0].count
    requires multiset(r) == multiset(s[1..]) + multiset{x}
    ensures forall y | y in r :: s[0].count >= y.count
  {
    HeadIsLargest(s);
    forall y | y in r
      ensures s[0].count >= y.count
    {
      assert y in multiset(r);
      if y != x {
        assert y in multiset(s[1..]);
        assert y in s;
      }
    }
  }

  /** A row counted at least as often as every row of a descending list
      can go in front of it. */
  lemma DescendingCons(h: SummaryRow, t: seq<SummaryRow>)
    requires CountsDescending(t)
    requires forall y | y in t :: h.count >= y.count
    ensures CountsDescending([h] + t)
  {
    var r := [h] + t;
    forall i, j | 0 <= i < j < |r|
      ensures r[i].count >= r[j].count
    {
      if i == 0 {
        assert r[j] == t[j - 1];
      } else {
        assert r[i] == t[i - 1] && r[j] == t[j - 1];
      }
    }
  }

  /** One way to carry out `sort_values("違規總數", ascending=False)`. */
  function SortByCount(rows: seq<SummaryRow>): (r: seq<SummaryRow>)
    ensures CountsDescending(r)
    ensures multiset(r) == multiset(rows)
  {
    if rows == [] then []
    else
      assert rows == [rows[0]] + rows[1..];
      InsertByCount(rows[0], SortByCount(rows[1..]))
  }

  function Total(rows: seq<SummaryRow>): nat {
    if rows == [] then 0 else rows[0].count + Total(rows[1..])
  }

  lemma {:induction false} TotalAppend(a: seq<SummaryRow>, b: seq<SummaryRow>)
    ensures Total(a + b) == Total(a) + Total(b)
  {
    if a == [] {
      assert a + b == b;
    } else {
      assert (a + b)[0] == a[0] && (a + b)[1..] == a[1..] + b;
      TotalAppend(a[1..], b);
    }
  }

  /** Reordering the summary does not change its total. */
  lemma {:induction false} TotalPermutation(a: seq<SummaryRow>, b: seq<SummaryRow>)
    requires multiset(a) == multiset(b)
    ensures Total(a) == Total(b)
    decreases |a|
  {
    if a == [] {
      assert |b| == |multiset(b)| == 0;
    } else {
      assert a[0] in multiset(b);
      var j :| 0 <= j < |b| && b[j] == a[0];
      PermutationRest(a, b, j);
      TotalPermutation(a[1..], b[..j] + b[j + 1..]);
      TotalRemove(b, j);
    }
  }

  /** Taking out the row at `j` takes its count out of the total. */
  lemma {:induction false} TotalRemove(b: seq<SummaryRow>, j: nat)
    requires j < |b|
    ensures Total(b) == Total(b[..j] + b[j + 1..]) + b[j].count
    decreases j
  {
    var rest := b[..j] + b[j + 1..];
    if j == 0 {
      assert rest == b[1..];
    } else {
      TotalRemove(b[1..], j - 1);
      assert rest[0] == b[0] && rest[1..] == b[1..][..j - 1] + b[1..][j..];
    }
  }

  /** The counts of `names` in `xs`, summed. */
  function CountOver(xs: seq<Issue>, names: seq<string>): nat {
    if names == [] then 0 else |IssuesBy(xs, names[0])| + CountOver(xs, names[1..])
  }

  lemma {:induction false} CountOverStep(xs: seq<Issue>, x: Issue, names: seq<string>)
    requires Increasing(names)
    ensures CountOver(xs + [x], names) == CountOver(xs, names) + (if x.interviewer in names then 1 else 0)
  {
    if names != [] {
      assert (xs + [x])[..|xs + [x]| - 1] == xs;
      CountOverStep(xs, x, names[1..]);
      if x.interviewer == names[0] {
        assert x.interviewer !in names[1..] by {
          forall j | 0 <= j < |names[1..]|
            ensures names[1..][j] != names[0]
          {
            assert LexLess(names[0], names[j + 1]);
            LexLessIrreflexive(names[0]);
          }
        }
      }
    }
  }

  /** Counting every listed name: when the names are distinct and cover
      every issue, the counts add up to the number of issues. */
  lemma {:induction false} CountOverAll(xs: seq<Issue>, names: seq<string>)
    requires Increasing(names)
    requires forall x | x in xs :: x.interviewer in names
    ensures CountOver(xs, names) == |xs|
    decreases |xs|
  {
    if xs == [] {
      CountOverEmpty(names);
    } else {
      var m := |xs| - 1;
      assert xs == xs[..m] + [xs[m]];
      assert xs[m] in xs;
      CountOverAll(xs[..m], names);
      CountOverStep(xs[..m], xs[m], names);
    }
  }

  lemma {:induction false} CountOverEmpty(names: seq<string>)
    ensures CountOver([], names) == 0
  {
    if names != [] {
      CountOverEmpty(names[1..]);
    }
  }

  lemma {:induction false} CountTableTotal(xs: seq<Issue>, k: nat)
    requires k <= |SortedNames(xs)|
    ensures Total(CountTable(xs)[k..]) == CountOver(xs, SortedNames(xs)[k..])
    decreases |SortedNames(xs)| - k
  {
    var ns := SortedNames(xs);
    if k < |ns| {
      CountTableTotal(xs, k + 1);
      assert CountTable(xs)[k..][1..] == CountTable(xs)[k + 1..];
      assert ns[k..][1..] == ns[k + 1..];
    }
  }

  /** No interviewer name occurs in two rows. */
  predicate DistinctNames(rows: seq<SummaryRow>) {
    forall i, j | 0 <= i < j < |rows| :: rows[i].interviewer != rows[j].interviewer
  }

  /** The rows name exactly the interviewers of the issues. */
  predicate NamesOfIssues(rows: seq<SummaryRow>, xs: seq<Issue>) {
    RowNames(rows) == IssueNames(xs)
  }

  function RowNames(rows: seq<SummaryRow>): set<string> {
    set r | r in rows :: r.interviewer
  }

  function IssueNames(xs: seq<Issue>): set<string> {
    set x | x in xs :: x.interviewer
  }

  /** The summary before its sort: one row per distinct interviewer name,
      each count the length of that interviewer's list and at least one,
      the counts adding up to the number of issues. */
  lemma CountTableFacts(xs: seq<Issue>)
    ensures DistinctNames(CountTable(xs))
    ensures NamesOfIssues(CountTable(xs), xs)
    ensures forall r | r in CountTable(xs) :: r.count >= 1
    ensures Total(CountTable(xs)) == |xs|
  {
    var ns := SortedNames(xs);
    var rows := CountTable(xs);
    forall i, j | 0 <= i < j < |rows|
      ensures rows[i].interviewer != rows[j].interviewer
    {
      LexLessIrreflexive(ns[i]);
    }
    forall r | r in rows
      ensures r.count >= 1
    {
      var k :| 0 <= k < |rows| && rows[k] == r;
      assert ns[k] in ns;
      var x :| x in xs && x.interviewer == ns[k];
      IssuesByMultiset(xs, ns[k], x);
      assert x in multiset(xs);
      assert x in multiset(IssuesBy(xs, ns[k]));
    }
    forall n
      ensures n in RowNames(rows) <==> n in IssueNames(xs)
    {
      if n in RowNames(rows) {
        var r :| r in rows && r.interviewer == n;
        var k :| 0 <= k < |rows| && rows[k] == r;
        assert ns[k] in ns;
      }
      if n in IssueNames(xs) {
        var x :| x in xs && x.interviewer == n;
        assert n in ns;
        var k :| 0 <= k < |ns| && ns[k] == n;
        assert rows[k] in rows;
      }
    }
    CountOverAll(xs, ns);
    CountTableTotal(xs, 0);
    assert rows[0..] == rows && ns[0..] == ns;
  }

  /** A row of a list with distinct names occurs in it once. */
  lemma OnceInDistinct(rows: seq<SummaryRow>, a: nat)
    requires DistinctNames(rows) && a < |rows|
    ensures multiset(rows)[rows[a]] == 1
  {
    var x := rows[a];
    assert rows == rows[..a] + [x] + rows[a + 1..];
    assert x !in rows[..a] && x !in rows[a + 1..] by {
      forall i | 0 <= i < a
        ensures rows[..a][i] != x
      {
        assert rows[i].interviewer != rows[a].interviewer;
      }
      var tail := rows[a + 1..];
      forall y | y in tail
        ensures y != x
      {
        var i :| 0 <= i < |tail| && tail[i] == y;
        assert rows[a + 1 + i] == y;
      }
    }
    assert multiset(rows) == multiset(rows[..a]) + multiset{x} + multiset(rows[a + 1..]);
  }

  /** A row that occurs at two places occurs at least twice. */
  lemma SameRowTwice(summary: seq<SummaryRow>, i: nat, j: nat)
    requires i < j < |summary| && summary[i] == summary[j]
    ensures multiset(summary)[summary[i]] >= 2
  {
    var x := summary[i];
    assert summary == summary[..j] + [x] + summary[j + 1..];
    assert summary[i] in summary[..j];
    assert multiset(summary) == multiset(summary[..j]) + multiset{x} + multiset(summary[j + 1..]);
  }

  /** Sorting the summary keeps its names distinct and its rows. */
  lemma {:induction false} ReorderedRows(rows: seq<SummaryRow>, summary: seq<SummaryRow>)
    requires multiset(summary) == multiset(rows) && DistinctNames(rows)
    ensures DistinctNames(summary)
    ensures forall r :: r in summary <==> r in rows
  {
    forall r
      ensures r in summary <==> r in rows
    {
      assert r in summary <==> r in multiset(summary);
      assert r in rows <==> r in multiset(rows);
    }
    forall i, j | 0 <= i < j < |summary|
      ensures summary[i].interviewer != summary[j].interviewer
    {
      assert summary[i] in rows && summary[j] in rows;
      var a :| 0 <= a < |rows| && rows[a] == summary[i];
      var b :| 0 <= b < |rows| && rows[b] == summary[j];
      if a == b {
        SameRowTwice(summary, i, j);
        OnceInDistinct(rows, a);
      }
    }
  }

  // ---------------------------------------------------------------- outputs

  /** What the output loop writes for `xs`: one file per interviewer name,
      in name order, holding exactly that interviewer's issues sorted by
      (sample, date); and the summary, by non-increasing count, holding
      the rows of `CountTable`. */
  ghost predicate ReportOf(xs: seq<Issue>, files: seq<InterviewerFile>, summary: seq<SummaryRow>) {
    && |files| == |SortedNames(xs)|
    && (forall k | 0 <= k < |files| ::
          && files[k].interviewer == SortedNames(xs)[k]
          && files[k].fileName == FileName(SortedNames(xs)[k])
          && IssuesSorted(files[k].rows)
          && multiset(files[k].rows) == multiset(IssuesBy(xs, SortedNames(xs)[k])))
    && multiset(summary) == multiset(CountTable(xs))
    && CountsDescending(summary)
  }

  /** The per-interviewer loop and the summary of `run_all_checks`. One
      file is written per interviewer name; two names that sanitise alike
      write the same file name (`FileNamesCollide`), and on disk the later
      write replaces the earlier one. */
  method WriteReports(xs: seq<Issue>) returns (files: seq<InterviewerFile>, summary: seq<SummaryRow>)
    ensures ReportOf(xs, files, summary)
  {
    var names := SortedNames(xs);
    files := [];
    for k := 0 to |names|
      invariant |files| == k
      invariant forall i | 0 <= i < k ::
        && files[i].interviewer == names[i]
        && files[i].fileName == FileName(names[i])
        && IssuesSorted(files[i].rows)
        && multiset(files[i].rows) == multiset(IssuesBy(xs, names[i]))
    {
      var interviewer := names[k];
      var grp := IssuesBy(xs, interviewer);
      var safeName := SanitizeName(interviewer);
      var filename := "interviewer_" + safeName + ".csv";
      var grpSorted := SortIssues(grp);
      files := files + [InterviewerFile(interviewer, filename, grpSorted)];
    }
    summary := SortByCount(CountTable(xs));
  }

  /** The whole summary: distinct names, exactly the interviewers with an
      issue, counts adding up to the number of issues, by non-increasing
      count. */
  lemma SummaryFacts(xs: seq<Issue>, files: seq<InterviewerFile>, summary: seq<SummaryRow>)
    requires ReportOf(xs, files, summary)
    ensures DistinctNames(summary)
    ensures NamesOfIssues(summary, xs)
    ensures Total(summary) == |xs|
    ensures forall i, j | 0 <= i < j < |summary| :: summary[i].count >= summary[j].count
  {
    var rows := CountTable(xs);
    assert multiset(summary) == multiset(rows) && CountsDescending(summary);
    CountTableFacts(xs);
    TotalPermutation(summary, rows);
    ReorderedRows(rows, summary);
    NamesTransfer(rows, summary, xs);
  }

  lemma NamesTransfer(rows: seq<SummaryRow>, summary: seq<SummaryRow>, xs: seq<Issue>)
    requires multiset(summary) == multiset(rows)
    requires NamesOfIssues(rows, xs)
    ensures NamesOfIssues(summary, xs)
  {
    forall n
      ensures n in RowNames(summary) <==> n in RowNames(rows)
    {
      if n in RowNames(summary) {
        var r :| r in summary && r.interviewer == n;
        assert r in multiset(rows);
      }
      if n in RowNames(rows) {
        var r :| r in rows && r.interviewer == n;
        assert r in multiset(summary);
      }
    }
  }


  // ---------------------------------------------------------------- run_all_checks

  /** Everything the four rule families push, in the order they run. */
  function AllIssues(df: seq<Row>): seq<Issue> {
    Collect(Groups(SortRows(df)), ThreeVisits.VisitIssues)
    + Questionnaire.QuestionnaireIssues(df)
    + Collect(df, Content.ContentIssues)
    + Collect(Groups(SortRows(df)), LatestCodes.LatestIssues)
  }

  /** What `run_all_checks` returns and writes. */
  datatype Outcome = Outcome(ok: bool, total: nat, files: seq<InterviewerFile>, summary: seq<SummaryRow>)

  /** The summary written when nothing was found. */
  const NoIssuesSummary: seq<SummaryRow> := [SummaryRow("全部", 0)]

  /** `run_all_checks`: `input` is the crawl CSV as read, or `None` when
      reading it failed; `holidays` is the holiday set as loaded. */
  method RunAllChecks(input: Option<seq<Record>>, holidays: set<int>, parsers: DateParsers)
    returns (out: Outcome)
    ensures input.None? ==> out == Outcome(false, 0, [], [])
    ensures input.Some? ==> out.ok && out.total == |AllIssues(Derive(input.value, holidays, parsers))|
    ensures input.Some? && out.total == 0 ==> out.files == [] && out.summary == NoIssuesSummary
    ensures input.Some? && out.total > 0 ==>
              ReportOf(AllIssues(Derive(input.value, holidays, parsers)), out.files, out.summary)
  {
    if input.None? {
      return Outcome(false, 0, [], []);
    }
    var df := Derive(input.value, holidays, parsers);
    var recsI := ThreeVisits.CheckThreeVisits(df);
    var recsII := Questionnaire.CheckQuestionnaire(df);
    var recsIII := Content.CheckContent(df);
    var recsIV := LatestCodes.CheckLatestCodes(df);
    var allIssues := recsI + recsII + recsIII + recsIV;
    if |allIssues| == 0 {
      return Outcome(true, 0, [], NoIssuesSummary);
    }
    var files, summary := WriteReports(allIssues);
    return Outcome(true, |allIssues|, files, summary);
  }

  /** When the crawl was read, the summary's counts add up to the total
      `run_all_checks` returns, and with no issues that total is 0 and the
      summary is the single row ("全部", 0). */
  lemma OutcomeTotals(out: Outcome, xs: seq<Issue>)
    requires out.ok && out.total == |xs|
    requires out.total == 0 ==> out.summary == NoIssuesSummary
    requires out.total > 0 ==> ReportOf(xs, out.files, out.summary)
    ensures Total(out.summary) == out.total
    ensures out.total == 0 <==> xs == []
  {
    if out.total > 0 {
      SummaryFacts(xs, out.files, out.summary);
    }
  }
}
