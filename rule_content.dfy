/** Rule III, questionnaire content (`check_III_content`): the contact
    method of a visit must agree with its visit form and its result code.
    Every row is checked on its own, in the order of the crawl. */
module Content {
  import opened Text
  import opened Normalize
  import opened Table
  import opened Issues

  /** What the four independent checks find on one visit. */
  function ContentFindings(r: Row): seq<Finding> {
    var code3 := Trim(r.code3);
    var contact := Trim(r.rec.contactMethod);
    var t16 := Trim(r.rec.t16Answer);
    var nums := ExtractT16Numbers(t16);
    (if ContactIsGuard(contact) && "3" !in nums && !Contains(t16, GuardKeyword)
     then [GuardMissing] else [])
    + (if Contains(contact, IntercomKeyword) && "2" !in nums && !Contains(t16, IntercomKeyword)
       then [IntercomMissing] else [])
    + (if code3 == "304" && !ContactIsGuard(contact) then [NotGuardFor304] else [])
    + (if code3 in {"311", "312"} && !ContactIsPublicServant(contact) then [NotPublicServant] else [])
  }

  function ContentIssues(r: Row): seq<Issue> {
    RowIssues(r, ContentFindings(r))
  }

  /** The body of the row loop of `check_III_content`. */
  method CheckContentRow(r: Row) returns (found: seq<Issue>)
    ensures found == ContentIssues(r)
  {
    var code3 := Trim(r.code3);
    var contact := Trim(r.rec.contactMethod);
    var t16 := Trim(r.rec.t16Answer);
    var t16Nums := ExtractT16Numbers(t16);
    ghost var guard := if ContactIsGuard(contact) && "3" !in t16Nums && !Contains(t16, GuardKeyword)
                       then [GuardMissing] else [];
    ghost var intercom := if Contains(contact, IntercomKeyword) && "2" !in t16Nums && !Contains(t16, IntercomKeyword)
                          then [IntercomMissing] else [];
    ghost var not304 := if code3 == "304" && !ContactIsGuard(contact) then [NotGuardFor304] else [];
    ghost var notServant := if code3 in {"311", "312"} && !ContactIsPublicServant(contact)
                            then [NotPublicServant] else [];
    assert ContentFindings(r) == guard + intercom + not304 + notServant;
    found := [];
    ghost var fs: seq<Finding> := [];
    if ContactIsGuard(contact) {
      if "3" !in t16Nums && !Contains(t16, GuardKeyword) {
        RowIssuesPush(r, fs, GuardMissing);
        found, fs := found + [RowIssue(r, GuardMissing)], fs + [GuardMissing];
      }
    }
    assert fs == guard;
    if Contains(contact, IntercomKeyword) {
      if "2" !in t16Nums && !Contains(t16, IntercomKeyword) {
        RowIssuesPush(r, fs, IntercomMissing);
        found, fs := found + [RowIssue(r, IntercomMissing)], fs + [IntercomMissing];
      }
    }
    assert fs == guard + intercom;
    if code3 == "304" {
      if !ContactIsGuard(contact) {
        RowIssuesPush(r, fs, NotGuardFor304);
        found, fs := found + [RowIssue(r, NotGuardFor304)], fs + [NotGuardFor304];
      }
    }
    assert fs == guard + intercom + not304;
    if code3 in {"311", "312"} {
      if !ContactIsPublicServant(contact) {
        RowIssuesPush(r, fs, NotPublicServant);
        found, fs := found + [RowIssue(r, NotPublicServant)], fs + [NotPublicServant];
      }
    }
    assert fs == guard + intercom + not304 + notServant;
  }

  /** `check_III_content`: the rows in the order of the crawl, unsorted. */
  method CheckContent(df: seq<Row>) returns (recs: seq<Issue>)
    ensures recs == Collect(df, ContentIssues)
  {
    recs := [];
    for i := 0 to |df|
      invariant recs == Collect(df[..i], ContentIssues)
    {
      CollectStep(df, i, ContentIssues);
      var found := CheckContentRow(df[i]);
      recs := recs + found;
    }
    assert df[..|df|] == df;
  }

  /** A key word with no white space at either end. */
  lemma KeywordsSolid()
    ensures Solid(GuardKeyword) && Solid(IntercomKeyword)
  {
    assert GuardKeyword[0] == '警' && GuardKeyword[|GuardKeyword| - 1] == '衛';
    assert IntercomKeyword[0] == '對' && IntercomKeyword[|IntercomKeyword| - 1] == '機';
  }

  /** The four checks on one visit, each stated on the raw cells: a guard
      contact needs option 3 or the word 警衛 in the visit form, an
      intercom contact needs option 2 or the word 對講機, code 304 needs a
      guard contact and codes 311 and 312 a public-servant contact. They
      are independent, so a visit yields up to four issues, in this
      order. */
  lemma ContentChecks(r: Row)
    ensures var fs := ContentFindings(r);
            var nums := ExtractT16Numbers(r.rec.t16Answer);
            && |fs| <= 4
            && (GuardMissing in fs <==>
                  Contains(r.rec.contactMethod, GuardKeyword) && "3" !in nums
                  && !Contains(r.rec.t16Answer, GuardKeyword))
            && (IntercomMissing in fs <==>
                  Contains(r.rec.contactMethod, IntercomKeyword) && "2" !in nums
                  && !Contains(r.rec.t16Answer, IntercomKeyword))
            && (NotGuardFor304 in fs <==>
                  Trim(r.code3) == "304" && !Contains(r.rec.contactMethod, GuardKeyword))
            && (NotPublicServant in fs <==>
                  Trim(r.code3) in {"311", "312"} && !ContactIsPublicServant(r.rec.contactMethod))
  {
    FindingsAtMostFour(r);
    GuardCheck(r);
    IntercomCheck(r);
    ContactChecks(r);
  }

  lemma FindingsAtMostFour(r: Row)
    ensures |ContentFindings(r)| <= 4
  {
  }

  lemma GuardCheck(r: Row)
    ensures GuardMissing in ContentFindings(r) <==>
              Contains(r.rec.contactMethod, GuardKeyword) && "3" !in ExtractT16Numbers(r.rec.t16Answer)
              && !Contains(r.rec.t16Answer, GuardKeyword)
  {
    KeywordsSolid();
    TrimIdempotent(r.rec.contactMethod);
    TrimIdempotent(r.rec.t16Answer);
    ContainsTrim(r.rec.contactMethod, GuardKeyword);
    ContainsTrim(r.rec.t16Answer, GuardKeyword);
  }

  lemma IntercomCheck(r: Row)
    ensures IntercomMissing in ContentFindings(r) <==>
              Contains(r.rec.contactMethod, IntercomKeyword) && "2" !in ExtractT16Numbers(r.rec.t16Answer)
              && !Contains(r.rec.t16Answer, IntercomKeyword)
  {
    KeywordsSolid();
    TrimIdempotent(r.rec.t16Answer);
    ContainsTrim(r.rec.contactMethod, IntercomKeyword);
    ContainsTrim(r.rec.t16Answer, IntercomKeyword);
  }

  lemma ContactChecks(r: Row)
    ensures NotGuardFor304 in ContentFindings(r) <==>
              Trim(r.code3) == "304" && !Contains(r.rec.contactMethod, GuardKeyword)
    ensures NotPublicServant in ContentFindings(r) <==>
              Trim(r.code3) in {"311", "312"} && !ContactIsPublicServant(r.rec.contactMethod)
  {
    KeywordsSolid();
    TrimIdempotent(r.rec.contactMethod);
    ContainsTrim(r.rec.contactMethod, GuardKeyword);
  }

  /** A guard contact never draws the public-servant issue. */
  lemma GuardNeverNotPublicServant(r: Row)
    requires ContactIsGuard(Trim(r.rec.contactMethod))
    ensures NotPublicServant !in ContentFindings(r)
  {
    GuardIsPublicServant(Trim(r.rec.contactMethod));
  }

  /** The issues of a row come out together, rows in crawl order: the
      issues of the first `i` rows are the first issues pushed. */
  lemma {:induction false} ContentInRowOrder(df: seq<Row>, i: nat)
    requires i <= |df|
    ensures Collect(df, ContentIssues) == Collect(df[..i], ContentIssues) + Collect(df[i..], ContentIssues)
    decreases |df| - i
  {
    if i < |df| {
      ContentInRowOrder(df, i + 1);
      CollectStep(df, i, ContentIssues);
      CollectFront(df[i..], ContentIssues);
      assert df[i..][1..] == df[i + 1..];
    } else {
      assert df[..i] == df;
    }
  }

  lemma {:induction false} CollectFront(xs: seq<Row>, f: Row -> seq<Issue>)
    requires xs != []
    ensures Collect(xs, f) == f(xs[0]) + Collect(xs[1..], f)
    decreases |xs|
  {
    if |xs| > 1 {
      var m := |xs| - 1;
      CollectFront(xs[..m], f);
      assert xs[..m][1..] == xs[1..][..|xs[1..]| - 1];
      assert xs[..m][0] == xs[0];
    } else {
      assert xs[1..] == [];
      assert xs[..0] == [];
    }
  }
}
