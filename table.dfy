/** The table the rules run on: the crawl's rows read as text, the columns
    `run_all_checks` derives from them, the stable sort by
    (SampleID, DateTime, _row) that three of the rule families start with,
    and `groupby("SampleID", sort=False)` on the sorted table. */
module Table {
  import opened Text
  import opened Normalize

  /** One row of the crawl CSV, every cell read as text (`dtype=str`,
      `na_filter=False`, so a missing cell is ""). Only the columns the
      rules read are kept. */
  datatype Record = Record(
    sampleId: string,
    date: string,
    session: string,
    resultCode: string,
    interviewerName: string,
    contactMethod: string,
    t16Answer: string,
    sampling: string,
    samplingQ: string,
    interviewRecord: string)

  /** A record with the columns `run_all_checks` derives from it. */
  datatype Row = Row(
    rec: Record,
    row: nat,                     // `_row`: position in the CSV
    code3: string,                // `ResultCode3`
    dateTime: DateTime,           // `DateTime`
    bucket: Bucket,               // `SessionBucket`
    weekendOrHoliday: bool,       // `IsWeekendOrHoliday`
    t16Filled: bool,              // `T16Filled`
    samplingFilled: bool,         // `SamplingFilled`
    samplingQFilled: bool,        // `SamplingQFilled`
    interviewRecordFilled: bool)  // `InterviewRecordFilled`
  {
    function Sid(): string {
      rec.sampleId
    }
  }

  function DeriveRow(rec: Record, row: nat, holidays: set<int>, parsers: DateParsers): Row {
    var dt := ParseDatetime(rec.date, parsers);
    Row(rec, row,
        NormalizeResultCode(rec.resultCode),
        dt,
        SessionBucket(rec.session),
        IsWeekendOrHoliday(dt, holidays),
        IsFilled(rec.t16Answer),
        IsFilled(rec.sampling),
        IsFilled(rec.samplingQ),
        IsFilled(rec.interviewRecord))
  }

  /** Every row carries its own position as `_row`. */
  predicate Indexed(t: seq<Row>) {
    forall i :: 0 <= i < |t| ==> t[i].row == i
  }

  /** The derived columns, each computed row by row with `apply` from the
      row's own cells; the original columns are kept and `_row` numbers
      the rows from 0. */
  function Derive(table: seq<Record>, holidays: set<int>, parsers: DateParsers): (t: seq<Row>)
    ensures |t| == |table| && Indexed(t)
    ensures forall i :: 0 <= i < |t| ==> t[i].rec == table[i]
    ensures forall i :: 0 <= i < |t| ==>
              && t[i].code3 == NormalizeResultCode(table[i].resultCode)
              && t[i].dateTime == ParseDatetime(table[i].date, parsers)
              && t[i].bucket == SessionBucket(table[i].session)
              && t[i].weekendOrHoliday == IsWeekendOrHoliday(t[i].dateTime, holidays)
              && t[i].t16Filled == IsFilled(table[i].t16Answer)
              && t[i].samplingFilled == IsFilled(table[i].sampling)
              && t[i].samplingQFilled == IsFilled(table[i].samplingQ)
              && t[i].interviewRecordFilled == IsFilled(table[i].interviewRecord)
  {
    seq(|table|, i requires 0 <= i < |table| => DeriveRow(table[i], i, holidays, parsers))
  }

  // ---------------------------------------------------------------- sort order

  /** `NaT` sorts after every timestamp (`na_position="last"`). */
  predicate DateBefore(a: DateTime, b: DateTime) {
    a.Some? && (b.None? || a.value < b.value)
  }

  /** The strict order of `sort_values(["SampleID", "DateTime", "_row"])`. */
  predicate KeyLess(x: Row, y: Row) {
    || LexLess(x.Sid(), y.Sid())
    || (x.Sid() == y.Sid() && DateBefore(x.dateTime, y.dateTime))
    || (x.Sid() == y.Sid() && x.dateTime == y.dateTime && x.row < y.row)
  }

  predicate KeyLe(x: Row, y: Row) {
    !KeyLess(y, x)
  }

  lemma KeyLessTrichotomy(x: Row, y: Row)
    ensures KeyLess(x, y) || KeyLess(y, x) ||
            (x.Sid() == y.Sid() && x.dateTime == y.dateTime && x.row == y.row)
  {
    LexLessTrichotomy(x.Sid(), y.Sid());
  }

  lemma KeyLessTransitive(x: Row, y: Row, z: Row)
    requires KeyLess(x, y) && KeyLess(y, z)
    ensures KeyLess(x, z)
  {
    if LexLess(x.Sid(), y.Sid()) && LexLess(y.Sid(), z.Sid()) {
      LexLessTransitive(x.Sid(), y.Sid(), z.Sid());
    }
  }

  lemma KeyLeReflexive(x: Row)
    ensures KeyLe(x, x)
  {
    LexLessIrreflexive(x.Sid());
  }

  lemma KeyLeTransitive(x: Row, y: Row, z: Row)
    requires KeyLe(x, y) && KeyLe(y, z)
    ensures KeyLe(x, z)
  {
    KeyLessTrichotomy(x, y);
    KeyLessTrichotomy(y, z);
    KeyLessTrichotomy(x, z);
    if KeyLess(z, x) {
      if KeyLess(x, y) {
        KeyLessTransitive(z, x, y);
      } else {
        LexLessIrreflexive(x.Sid());
      }
    }
  }

  lemma KeyLeTotal(x: Row, y: Row)
    ensures KeyLe(x, y) || KeyLe(y, x)
  {
    KeyLessTrichotomy(x, y);
    if KeyLess(x, y) && KeyLess(y, x) {
      KeyLessTransitive(x, y, x);
      LexLessIrreflexive(x.Sid());
    }
  }

  /** Sorting by the key puts the sample ids in order. */
  lemma KeyLeSampleOrder(x: Row, y: Row)
    requires KeyLe(x, y)
    ensures LexLe(x.Sid(), y.Sid())
  {
    LexLessTrichotomy(x.Sid(), y.Sid());
  }

  predicate Sorted(t: seq<Row>) {
    forall i, j :: 0 <= i < j < |t| ==> KeyLe(t[i], t[j])
  }

  /** A row no greater than the head of a sorted table can go in front. */
  lemma PrependSorted(x: Row, s: seq<Row>)
    requires Sorted(s) && s != [] && KeyLe(x, s[0])
    ensures Sorted([x] + s)
  {
    forall i, j | 0 <= i < j < |s| + 1
      ensures KeyLe(([x] + s)[i], ([x] + s)[j])
    {
      if i == 0 && j > 1 {
        KeyLeTransitive(x, s[0], s[j - 1]);
      }
    }
  }

  /** A row no greater than every row of a sorted table can go in front. */
  lemma PrependBelowAll(x: Row, r: seq<Row>)
    requires Sorted(r)
    requires forall y | y in r :: KeyLe(x, y)
    ensures Sorted([x] + r)
  {
    forall i, j | 0 <= i < j < |r| + 1
      ensures KeyLe(([x] + r)[i], ([x] + r)[j])
    {
      if i == 0 {
        assert r[j - 1] in r;
      }
    }
  }

  function Insert(x: Row, s: seq<Row>): (r: seq<Row>)
    requires Sorted(s)
    ensures Sorted(r)
    ensures multiset(r) == multiset(s) + multiset{x}
  {
    if s == [] then [x]
    else if KeyLe(x, s[0]) then
      PrependSorted(x, s);
      [x] + s
    else
      var r := Insert(x, s[1..]);
      InsertBehindHead(x, s, r);
      [s[0]] + r
  }

  lemma InsertBehindHead(x: Row, s: seq<Row>, r: seq<Row>)
    requires Sorted(s) && s != [] && !KeyLe(x, s[0])
    requires Sorted(r) && multiset(r) == multiset(s[1..]) + multiset{x}
    ensures Sorted([s[0]] + r)
    ensures multiset([s[0]] + r) == multiset(s) + multiset{x}
  {
    assert s == [s[0]] + s[1..];
    KeyLeTotal(x, s[0]);
    forall y | y in r
      ensures KeyLe(s[0], y)
    {
      assert y in multiset(r);
      if y != x {
        assert y in multiset(s[1..]);
        var j :| 0 <= j < |s[1..]| && s[1..][j] == y;
        assert s[j + 1] == y;
      }
    }
    PrependBelowAll(s[0], r);
  }

  /** `df.sort_values(["SampleID", "DateTime", "_row"], kind="mergesort")`:
      a permutation of the table in key order. */
  function SortRows(t: seq<Row>): (r: seq<Row>)
    ensures Sorted(r)
    ensures multiset(r) == multiset(t)
  {
    if t == [] then []
    else
      assert t == [t[0]] + t[1..];
      Insert(t[0], SortRows(t[1..]))
  }

  // ---------------------------------------------------------------- grouping

  /** All rows of `g` belong to one sample. */
  predicate OneSample(g: seq<Row>) {
    g != [] && forall i :: 0 <= i < |g| ==> g[i].Sid() == g[0].Sid()
  }

  /** Length of the run of rows at the front of `t` that share the first
      row's SampleID. */
  function RunLength(t: seq<Row>): (n: nat)
    requires t != []
    ensures 1 <= n <= |t|
    ensures forall i :: 0 <= i < n ==> t[i].Sid() == t[0].Sid()
    ensures n == |t| || t[n].Sid() != t[0].Sid()
  {
    if |t| == 1 || t[1].Sid() != t[0].Sid() then 1
    else 1 + RunLength(t[1..])
  }

  function Concat(gs: seq<seq<Row>>): seq<Row> {
    if gs == [] then [] else gs[0] + Concat(gs[1..])
  }

  /** `groupby("SampleID", sort=False)` on the sorted table: the maximal
      runs of rows with equal SampleID, in table order; together they are
      the table again. */
  function Groups(t: seq<Row>): (gs: seq<seq<Row>>)
    ensures Concat(gs) == t
    ensures forall k :: 0 <= k < |gs| ==> OneSample(gs[k])
    decreases |t|
  {
    if t == [] then []
    else
      var n := RunLength(t);
      assert t == t[..n] + t[n..];
      [t[..n]] + Groups(t[n..])
  }

  function Last(g: seq<Row>): Row
    requires g != []
  {
    g[|g| - 1]
  }

  lemma SortedTail(t: seq<Row>, n: nat)
    requires Sorted(t) && n <= |t|
    ensures Sorted(t[n..]) && Sorted(t[..n])
  {
  }

  /** In a sorted table no row after the first run shares its SampleID. */
  lemma {:induction false} FirstRunIsWholeSample(t: seq<Row>)
    requires Sorted(t) && t != []
    ensures forall r | r in t[RunLength(t)..] :: r.Sid() != t[0].Sid()
  {
    var n := RunLength(t);
    forall r | r in t[n..]
      ensures r.Sid() != t[0].Sid()
    {
      var j :| n <= j < |t| && t[j] == r;
      if j > n {
        KeyLeSampleOrder(t[0], t[n]);
        KeyLeSampleOrder(t[n], t[j]);
        LexLessAsymmetric(t[0].Sid(), t[n].Sid());
      }
    }
  }

  lemma {:induction false} ConcatMember(gs: seq<seq<Row>>, l: nat, r: Row)
    requires l < |gs| && r in gs[l]
    ensures r in Concat(gs)
  {
    if l > 0 {
      ConcatMember(gs[1..], l - 1, r);
    }
  }

  /** On a sorted table each group is sorted. */
  lemma {:induction false} GroupsSorted(t: seq<Row>)
    requires Sorted(t)
    ensures forall k | 0 <= k < |Groups(t)| :: Sorted(Groups(t)[k])
    decreases |t|
  {
    if t != [] {
      var n := RunLength(t);
      SortedTail(t, n);
      GroupsSorted(t[n..]);
      assert Groups(t) == [t[..n]] + Groups(t[n..]);
    }
  }

  /** On a sorted table no two groups share a SampleID. */
  lemma {:induction false} GroupsDistinct(t: seq<Row>)
    requires Sorted(t)
    ensures forall k, l | 0 <= k < l < |Groups(t)| :: Groups(t)[k][0].Sid() != Groups(t)[l][0].Sid()
    decreases |t|
  {
    if t != [] {
      var n := RunLength(t);
      SortedTail(t, n);
      GroupsDistinct(t[n..]);
      FirstRunIsWholeSample(t);
      forall k, l | 0 <= k < l < |Groups(t)|
        ensures Groups(t)[k][0].Sid() != Groups(t)[l][0].Sid()
      {
        GroupsShift(t, l);
        if k == 0 {
          FirstGroupApart(t, l);
        } else {
          GroupsShift(t, k);
        }
      }
    }
  }

  /** The groups after the first are the groups of the rest of the table. */
  lemma GroupsShift(t: seq<Row>, k: nat)
    requires t != [] && 0 < k < |Groups(t)|
    ensures Groups(t)[k] == Groups(t[RunLength(t)..])[k - 1]
  {
    assert Groups(t) == [t[..RunLength(t)]] + Groups(t[RunLength(t)..]);
  }

  /** A later group does not share the first group's sample. */
  lemma FirstGroupApart(t: seq<Row>, l: nat)
    requires t != [] && 0 < l < |Groups(t)|
    requires forall r | r in t[RunLength(t)..] :: r.Sid() != t[0].Sid()
    ensures Groups(t)[0][0].Sid() != Groups(t)[l][0].Sid()
  {
    var rest := Groups(t[RunLength(t)..]);
    GroupsShift(t, l);
    ConcatMember(rest, l - 1, rest[l - 1][0]);
    assert Groups(t)[0] == t[..RunLength(t)];
  }

  /** On a sorted table each group holds every row of its sample. */
  lemma {:induction false} GroupsComplete(t: seq<Row>)
    requires Sorted(t)
    ensures forall k: int, r: Row | 0 <= k < |Groups(t)| && r in t && r.Sid() == Groups(t)[k][0].Sid() ::
              r in Groups(t)[k]
    decreases |t|
  {
    if t != [] {
      var n := RunLength(t);
      SortedTail(t, n);
      GroupsComplete(t[n..]);
      FirstRunIsWholeSample(t);
      forall k: int, r: Row | 0 <= k < |Groups(t)| && r in t && r.Sid() == Groups(t)[k][0].Sid()
        ensures r in Groups(t)[k]
      {
        if k == 0 {
          FirstGroupComplete(t, r);
        } else {
          GroupsShift(t, k);
          FirstGroupApart(t, k);
          LaterRowInRest(t, r);
        }
      }
    }
  }

  /** A row of the first group's sample is in the first group. */
  lemma FirstGroupComplete(t: seq<Row>, r: Row)
    requires t != [] && r in t && r.Sid() == t[0].Sid()
    requires forall r | r in t[RunLength(t)..] :: r.Sid() != t[0].Sid()
    ensures r in Groups(t)[0]
  {
    var n := RunLength(t);
    assert Groups(t)[0] == t[..n];
    assert t == t[..n] + t[n..];
    assert r !in t[n..];
  }

  /** A row of another sample than the first lies after the first run. */
  lemma LaterRowInRest(t: seq<Row>, r: Row)
    requires t != [] && r in t && r.Sid() != t[0].Sid()
    ensures r in t[RunLength(t)..]
  {
    var n := RunLength(t);
    var j :| 0 <= j < |t| && t[j] == r;
    assert n <= j;
    assert t[n..][j - n] == r;
  }

  /** The last row of a sorted sample is its latest visit: no row of the
      sample has a later key. */
  lemma LastIsLatest(g: seq<Row>, r: Row)
    requires Sorted(g) && g != [] && r in g
    ensures KeyLe(r, Last(g))
  {
    var i :| 0 <= i < |g| && g[i] == r;
    if i < |g| - 1 {
      assert KeyLe(g[i], g[|g| - 1]);
    } else {
      KeyLeReflexive(r);
    }
  }

  // ---------------------------------------------------------------- samples

  /** The rows of sample `sid`, in table order. */
  function SampleRows(t: seq<Row>, sid: string): seq<Row> {
    if t == [] then []
    else (if t[0].Sid() == sid then [t[0]] else []) + SampleRows(t[1..], sid)
  }

  /** No two different rows carry the same `_row`; true of every table
      `Derive` builds, and of every part of one. */
  predicate UniqueRows(t: seq<Row>) {
    forall x, y | x in t && y in t && x.row == y.row :: x == y
  }

  lemma IndexedUnique(t: seq<Row>)
    requires Indexed(t)
    ensures UniqueRows(t)
  {
  }

  lemma {:induction false} SampleRowsAppend(a: seq<Row>, b: seq<Row>, sid: string)
    ensures SampleRows(a + b, sid) == SampleRows(a, sid) + SampleRows(b, sid)
  {
    if a == [] {
      assert a + b == b;
    } else {
      var h := if a[0].Sid() == sid then [a[0]] else [];
      assert (a + b)[0] == a[0];
      assert (a + b)[1..] == a[1..] + b;
      SampleRowsAppend(a[1..], b, sid);
      calc {
        SampleRows(a + b, sid);
        h + SampleRows(a[1..] + b, sid);
        h + (SampleRows(a[1..], sid) + SampleRows(b, sid));
        (h + SampleRows(a[1..], sid)) + SampleRows(b, sid);
        SampleRows(a, sid) + SampleRows(b, sid);
      }
    }
  }

  /** A sample keeps each of its rows as often as the table has it and
      nothing else. */
  lemma {:induction false} SampleRowsMultiset(t: seq<Row>, sid: string, x: Row)
    ensures multiset(SampleRows(t, sid))[x] == if x.Sid() == sid then multiset(t)[x] else 0
  {
    if t != [] {
      SampleRowsMultiset(t[1..], sid, x);
      assert t == [t[0]] + t[1..];
    }
  }

  /** Reordering a table does not change the rows of any sample. */
  lemma SampleRowsPermutation(a: seq<Row>, b: seq<Row>, sid: string)
    requires multiset(a) == multiset(b)
    ensures multiset(SampleRows(a, sid)) == multiset(SampleRows(b, sid))
  {
    forall x: Row
      ensures multiset(SampleRows(a, sid))[x] == multiset(SampleRows(b, sid))[x]
    {
      SampleRowsMultiset(a, sid, x);
      SampleRowsMultiset(b, sid, x);
    }
  }

  lemma SampleRowsMember(t: seq<Row>, sid: string, x: Row)
    requires x in SampleRows(t, sid)
    ensures x in t && x.Sid() == sid
  {
    SampleRowsMultiset(t, sid, x);
    assert x in multiset(SampleRows(t, sid));
  }

  lemma {:induction false} SampleRowsOfOneSample(t: seq<Row>, sid: string)
    requires forall i | 0 <= i < |t| :: t[i].Sid() == sid
    ensures SampleRows(t, sid) == t
  {
    if t != [] {
      SampleRowsOfOneSample(t[1..], sid);
      assert t == [t[0]] + t[1..];
    }
  }

  lemma {:induction false} SampleRowsOfOthers(t: seq<Row>, sid: string)
    requires forall r | r in t :: r.Sid() != sid
    ensures SampleRows(t, sid) == []
  {
    if t != [] {
      assert t[0] in t;
      SampleRowsOfOthers(t[1..], sid);
    }
  }

  /** Each group of `t` is the whole of its sample's rows. */
  predicate GroupsAreSamples(t: seq<Row>) {
    forall k | 0 <= k < |Groups(t)| :: Groups(t)[k] == SampleRows(t, Groups(t)[k][0].Sid())
  }

  lemma {:induction false} GroupsAreSampleRows(t: seq<Row>)
    requires Sorted(t)
    ensures GroupsAreSamples(t)
    decreases |t|
  {
    if t != [] {
      var n := RunLength(t);
      SortedTail(t, n);
      GroupsAreSampleRows(t[n..]);
      forall k | 0 <= k < |Groups(t)|
        ensures Groups(t)[k] == SampleRows(t, Groups(t)[k][0].Sid())
      {
        if k == 0 {
          FirstGroupIsSampleRows(t);
        } else {
          FirstRunIsWholeSample(t);
          LaterGroupIsSampleRows(t, k);
        }
      }
    }
  }

  /** The first run of a sorted table is its first sample's rows. */
  lemma FirstGroupIsSampleRows(t: seq<Row>)
    requires Sorted(t) && t != []
    ensures Groups(t)[0] == SampleRows(t, Groups(t)[0][0].Sid())
  {
    var n := RunLength(t);
    var sid := t[0].Sid();
    assert Groups(t)[0] == t[..n];
    FirstRunIsWholeSample(t);
    assert t == t[..n] + t[n..];
    SampleRowsAppend(t[..n], t[n..], sid);
    SampleRowsOfOneSample(t[..n], sid);
    SampleRowsOfOthers(t[n..], sid);
  }

  /** A later run of a sorted table is its sample's rows when it is so in
      the rest of the table. */
  lemma LaterGroupIsSampleRows(t: seq<Row>, k: nat)
    requires t != [] && GroupsAreSamples(t[RunLength(t)..])
    requires forall r | r in t[RunLength(t)..] :: r.Sid() != t[0].Sid()
    requires 0 < k < |Groups(t)|
    ensures Groups(t)[k] == SampleRows(t, Groups(t)[k][0].Sid())
  {
    var n := RunLength(t);
    var rest: seq<seq<Row>> := Groups(t[n..]);
    assert Groups(t)[k] == rest[k - 1] by {
      assert Groups(t) == [t[..n]] + rest;
    }
    var sid := rest[k - 1][0].Sid();
    ConcatMember(rest, k - 1, rest[k - 1][0]);
    FirstRunOthers(t, sid);
    SampleRowsSplit(t, n, sid);
  }

  /** A sample other than the first has no rows in the first run. */
  lemma FirstRunOthers(t: seq<Row>, sid: string)
    requires t != [] && sid != t[0].Sid()
    ensures SampleRows(t[..RunLength(t)], sid) == []
  {
    var n := RunLength(t);
    forall r | r in t[..n]
      ensures r.Sid() != sid
    {
      var i :| 0 <= i < n && t[..n][i] == r;
    }
    SampleRowsOfOthers(t[..n], sid);
  }

  /** A sample's rows split where the table splits. */
  lemma SampleRowsSplit(t: seq<Row>, n: nat, sid: string)
    requires n <= |t|
    ensures SampleRows(t, sid) == SampleRows(t[..n], sid) + SampleRows(t[n..], sid)
  {
    assert t == t[..n] + t[n..];
    SampleRowsAppend(t[..n], t[n..], sid);
  }

  /** Every row of a table lies in one of its groups. */
  lemma {:induction false} RowInGroup(t: seq<Row>, r: Row) returns (k: nat)
    requires r in t
    ensures k < |Groups(t)| && r in Groups(t)[k]
    decreases |t|
  {
    var n := RunLength(t);
    assert t == t[..n] + t[n..];
    if r in t[..n] {
      k := 0;
    } else {
      var k' := RowInGroup(t[n..], r);
      k := k' + 1;
    }
  }

  /** The smallest row comes first in every sorted arrangement. */
  lemma SortedHeads(a: seq<Row>, b: seq<Row>)
    requires Sorted(a) && Sorted(b) && UniqueRows(a)
    requires multiset(a) == multiset(b) && a != []
    ensures b != [] && a[0] == b[0]
  {
    assert a[0] in multiset(b);
    assert b[0] in multiset(a);
    var i :| 0 <= i < |b| && b[i] == a[0];
    var j :| 0 <= j < |a| && a[j] == b[0];
    if i > 0 { assert KeyLe(b[0], b[i]); } else { KeyLeReflexive(b[0]); }
    if j > 0 { assert KeyLe(a[0], a[j]); } else { KeyLeReflexive(a[0]); }
    KeyLessTrichotomy(a[0], b[0]);
  }

  /** A sorted table with unique rows is the only sorted arrangement of
      its rows. */
  lemma {:induction false} SortedUnique(a: seq<Row>, b: seq<Row>)
    requires Sorted(a) && Sorted(b) && UniqueRows(a)
    requires multiset(a) == multiset(b)
    ensures a == b
    decreases |a|
  {
    if a == [] {
      assert |b| == |multiset(b)| == 0;
    } else {
      SortedHeads(a, b);
      MultisetTails(a, b);
      SortedTail(a, 1);
      SortedTail(b, 1);
      UniqueRowsSub(a[1..], a);
      SortedUnique(a[1..], b[1..]);
      assert a == [a[0]] + a[1..] && b == [b[0]] + b[1..];
    }
  }

  /** Removing equal heads from equal multisets leaves equal multisets. */
  lemma MultisetTails(a: seq<Row>, b: seq<Row>)
    requires a != [] && b != [] && a[0] == b[0] && multiset(a) == multiset(b)
    ensures multiset(a[1..]) == multiset(b[1..]) && multiset(a[1..]) <= multiset(a)
  {
    assert a == [a[0]] + a[1..] && b == [b[0]] + b[1..];
    assert multiset(a) == multiset{a[0]} + multiset(a[1..]);
    assert multiset(b) == multiset{b[0]} + multiset(b[1..]);
    assert multiset(a[1..]) <= multiset(a);
  }

  /** Matching the head of `a` with an equal element `b[j]` of a
      reordering `b` leaves the rest of `a` a reordering of the rest of `b`. */
  lemma PermutationRest<T>(a: seq<T>, b: seq<T>, j: nat)
    requires a != [] && j < |b| && b[j] == a[0] && multiset(a) == multiset(b)
    ensures multiset(a[1..]) == multiset(b[..j] + b[j + 1..])
  {
    var rest := b[..j] + b[j + 1..];
    assert a == [a[0]] + a[1..];
    assert b == b[..j] + [b[j]] + b[j + 1..];
    forall x
      ensures multiset(a[1..])[x] == multiset(rest)[x]
    {
      assert multiset(a)[x] == multiset(a[1..])[x] + multiset([a[0]])[x];
      assert multiset(b)[x] == multiset(b[..j])[x] + multiset([b[j]])[x] + multiset(b[j + 1..])[x];
    }
  }

  /** An element in the middle of a sequence counts once in its multiset. */
  lemma MultisetMiddle<T>(l: seq<T>, x: T, r: seq<T>)
    ensures multiset(l + [x] + r) == multiset(l + r) + multiset{x}
  {
    forall y
      ensures multiset(l + [x] + r)[y] == multiset(l + r)[y] + multiset{x}[y]
    {
      assert multiset(l + [x] + r)[y] == multiset(l)[y] + multiset([x])[y] + multiset(r)[y];
    }
  }

  lemma UniqueRowsSub(a: seq<Row>, b: seq<Row>)
    requires UniqueRows(b) && multiset(a) <= multiset(b)
    ensures UniqueRows(a)
  {
    forall x | x in a
      ensures x in b
    {
      assert x in multiset(a);
    }
  }

  /** The group of a sample in the sorted table is that sample's rows,
      sorted on their own: what a rule does with a group depends on that
      sample alone. */
  lemma GroupIsSortedSample(t: seq<Row>, k: nat)
    requires UniqueRows(t)
    requires k < |Groups(SortRows(t))|
    ensures Groups(SortRows(t))[k] == SortRows(SampleRows(t, Groups(SortRows(t))[k][0].Sid()))
  {
    var s := SortRows(t);
    var g := Groups(s)[k];
    var sid := g[0].Sid();
    var h := SortRows(SampleRows(t, sid));
    assert Sorted(g) by {
      GroupsSorted(s);
    }
    assert multiset(g) == multiset(h) by {
      GroupsAreSampleRows(s);
      SampleRowsPermutation(s, t, sid);
    }
    assert UniqueRows(g) by {
      forall x | x in g
        ensures x in t
      {
        assert x in multiset(h);
        SampleRowsMember(t, sid, x);
      }
    }
    SortedUnique(g, h);
  }

  /** A sample with no group in the sorted table has no rows. */
  lemma SampleWithoutGroup(t: seq<Row>, sid: string)
    requires forall k | 0 <= k < |Groups(SortRows(t))| :: Groups(SortRows(t))[k][0].Sid() != sid
    ensures SampleRows(t, sid) == []
  {
    forall r | r in t
      ensures r.Sid() != sid
    {
      assert r in multiset(SortRows(t));
      var k := RowInGroup(SortRows(t), r);
      var g := Groups(SortRows(t))[k];
      assert OneSample(g);
    }
    SampleRowsOfOthers(t, sid);
  }

  /** `iloc[-1]` of a sample's sorted rows is its latest visit: one of its
      rows, with no row of the sample after it in key order. */
  lemma LatestVisit(s: seq<Row>)
    requires s != []
    ensures SortRows(s) != []
    ensures Last(SortRows(s)) in s
    ensures forall r | r in s :: KeyLe(r, Last(SortRows(s)))
  {
    var g := SortRows(s);
    assert |g| == |multiset(g)| == |multiset(s)| == |s|;
    assert Last(g) in multiset(s);
    forall r | r in s
      ensures KeyLe(r, Last(g))
    {
      assert r in multiset(g);
      LastIsLatest(g, r);
    }
  }

  /** The rows `Derive` builds hold their canonical code trimmed, so
      `norm(row["ResultCode3"])` is that code itself. */
  lemma DerivedCodeTrimmed(table: seq<Record>, holidays: set<int>, parsers: DateParsers, i: nat)
    requires i < |table|
    ensures Trim(Derive(table, holidays, parsers)[i].code3) == Derive(table, holidays, parsers)[i].code3
  {
  }
}
