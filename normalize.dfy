/** The normalisation helpers of the rule engine: pure functions from one
    text cell to the canonical value the four rule families compare
    (sample_checker.py 624-711, the same code as v2_1.py 711-814). */
module Normalize {
  import opened Text

  datatype Option<+T> = None | Some(value: T)

  // ---------------------------------------------------------------- is_filled

  /** Cell values that mean "nothing was entered"; the match is exact and
      case-sensitive. */
  const UnfilledMarkers: set<string> := {"未填寫", "未填", "NA", "N/A", "None", "null"}

  /** `is_filled`: the stripped text is neither empty nor a marker. */
  predicate IsFilled(v: string) {
    var s := Trim(v);
    if s == "" then false
    else if s in UnfilledMarkers then false
    else true
  }

  /** White space around a cell never changes whether it counts as filled. */
  lemma IsFilledPadding(a: string, v: string, b: string)
    requires AllSpace(a) && AllSpace(b)
    ensures IsFilled(a + v + b) == IsFilled(v)
  {
    TrimPadding(a, v, b);
  }

  /** For a text without white space at either end, being filled only
      depends on the markers. */
  lemma IsFilledSolid(s: string)
    requires s != [] && !IsSpace(s[0]) && !IsSpace(s[|s| - 1])
    ensures IsFilled(s) <==> s !in UnfilledMarkers
  {
    TrimSolid(s);
  }

  /** Each marker reads as not filled, and so does blank text. With
      IsFilledPadding this holds with any white space around the text too. */
  lemma MarkersAreUnfilled()
    ensures !IsFilled("未填寫") && !IsFilled("未填") && !IsFilled("NA")
    ensures !IsFilled("N/A") && !IsFilled("None") && !IsFilled("null")
    ensures !IsFilled("")
  {
    assert !IsFilled("未填寫") by { IsFilledSolid("未填寫"); }
    assert !IsFilled("未填") by { IsFilledSolid("未填"); }
    assert !IsFilled("NA") by { IsFilledSolid("NA"); }
    assert !IsFilled("N/A") by { IsFilledSolid("N/A"); }
    assert !IsFilled("None") by { IsFilledSolid("None"); }
    assert !IsFilled("null") by { IsFilledSolid("null"); }
  }

  /** The markers are matched case-sensitively; "已填寫" (done) is filled. */
  lemma MarkersAreCaseSensitive()
    ensures IsFilled("已填寫") && IsFilled("na")
  {
    assert IsFilled("已填寫") by {
      IsFilledSolid("已填寫");
      assert "已填寫"[0] == '已';
    }
    assert IsFilled("na") by {
      IsFilledSolid("na");
      assert "na"[0] == 'n';
    }
  }

  // ---------------------------------------------------------------- normalize_result_code

  /** Length of the run of digits at the front of `s`. */
  function DigitPrefix(s: string): (n: nat)
    ensures n <= |s|
    ensures forall i :: 0 <= i < n ==> IsDigit(s[i])
    ensures n == |s| || !IsDigit(s[n])
  {
    if s != [] && IsDigit(s[0]) then 1 + DigitPrefix(s[1..]) else 0
  }

  predicate AllZeros(s: string) {
    forall i :: 0 <= i < |s| ==> s[i] == '0'
  }

  /** `re.match(r"(\d+)\.0+$", s)` on a stripped string: one or more digits,
      a dot, one or more zeros and nothing after them. */
  predicate IsWholeDecimal(s: string) {
    var n := DigitPrefix(s);
    0 < n && n + 1 < |s| && s[n] == '.' && AllZeros(s[n + 1..])
  }

  /** `normalize_result_code`: "100.0" becomes "100"; any other text comes
      back stripped. The result is always a prefix of the stripped text that
      carries no surrounding white space, and it is empty exactly when the
      text is blank. */
  function NormalizeResultCode(code: string): (r: string)
    ensures r <= Trim(code)
    ensures r == "" <==> Trim(code) == ""
    ensures Trim(r) == r
  {
    var s := Trim(code);
    if s == "" then ""
    else if IsWholeDecimal(s) then
      var n := DigitPrefix(s);
      assert !IsSpace(s[0]);
      TrimSolid(s[..n]);
      s[..n]
    else
      TrimIdempotent(code);
      s
  }

  lemma {:induction false} DigitPrefixOf(d: string, rest: string)
    requires AllDigits(d)
    requires rest == [] || !IsDigit(rest[0])
    ensures DigitPrefix(d + rest) == |d|
  {
    if d == [] {
      assert d + rest == rest;
    } else {
      assert (d + rest)[0] == d[0];
      assert (d + rest)[1..] == d[1..] + rest;
      DigitPrefixOf(d[1..], rest);
    }
  }

  lemma {:induction false} NormalizeSolidDecimal(d: string, z: string)
    requires d != [] && AllDigits(d)
    requires z != [] && AllZeros(z)
    ensures NormalizeResultCode(d + "." + z) == d
  {
    var s := d + ("." + z);
    assert s == d + "." + z;
    assert s[0] == d[0] && IsDigit(s[0]);
    assert s[|s| - 1] == z[|z| - 1] == '0';
    TrimSolid(s);
    DigitPrefixOf(d, "." + z);
    assert s[|d|] == '.';
    assert s[|d| + 1..] == z;
    assert IsWholeDecimal(s);
    assert s[..|d|] == d;
  }

  /** A float-like code such as " 100.00 " canonicalises to its digits. */
  lemma {:induction false} NormalizeWholeDecimal(a: string, d: string, z: string, b: string)
    requires AllSpace(a) && AllSpace(b)
    requires d != [] && AllDigits(d)
    requires z != [] && AllZeros(z)
    ensures NormalizeResultCode(a + d + "." + z + b) == d
  {
    var s := d + "." + z;
    assert a + d + "." + z + b == a + s + b;
    TrimPadding(a, s, b);
    NormalizeSolidDecimal(d, z);
  }

  /** Any other code comes back stripped and otherwise unchanged. */
  lemma NormalizeOtherUnchanged(code: string)
    requires !exists d: string, z: string | d != [] && AllDigits(d) && z != [] && AllZeros(z) ::
               Trim(code) == d + "." + z
    ensures NormalizeResultCode(code) == Trim(code)
  {
    WholeDecimalSplit(Trim(code));
  }

  lemma WholeDecimalSplit(s: string)
    ensures IsWholeDecimal(s) ==>
              exists d: string, z: string | d != [] && AllDigits(d) && z != [] && AllZeros(z) :: s == d + "." + z
  {
    if IsWholeDecimal(s) {
      var n := DigitPrefix(s);
      var d, z := s[..n], s[n + 1..];
      assert s == d + "." + z;
      assert AllDigits(d);
    }
  }

  /** White space only canonicalises to the empty code. */
  lemma NormalizeBlank(code: string)
    requires AllSpace(code)
    ensures NormalizeResultCode(code) == ""
  {
    TrimPadding(code, "", "");
    assert code + "" + "" == code;
  }

  /** Canonicalising twice is canonicalising once. */
  lemma {:induction false} NormalizeIdempotent(code: string)
    ensures NormalizeResultCode(NormalizeResultCode(code)) == NormalizeResultCode(code)
  {
    var s := Trim(code);
    var r := NormalizeResultCode(code);
    if s != "" && IsWholeDecimal(s) {
      var n := DigitPrefix(s);
      assert r == s[..n];
      DigitPrefixOf(r, []);
      assert r + [] == r;
      assert !IsWholeDecimal(r);
    } else {
      assert r == s;
      TrimIdempotent(code);
    }
  }

  // ---------------------------------------------------------------- parse_datetime

  /** The explicit `strftime` patterns `parse_datetime` tries. */
  datatype DateFormat =
    | SlashDateTime   // "%Y/%m/%d %H:%M:%S"
    | DashDateTime    // "%Y-%m-%d %H:%M:%S"
    | SlashDate       // "%Y/%m/%d"
    | DashDate        // "%Y-%m-%d"
    | UsDateTime      // "%m/%d/%Y %H:%M"
    | UsDate          // "%m/%d/%Y"

  /** The patterns in the order they are tried. */
  const DateFormats: seq<DateFormat> :=
    [SlashDateTime, DashDateTime, SlashDate, DashDate, UsDateTime, UsDate]

  /** A timestamp: nanoseconds since 1970-01-01 00:00 (pandas' own unit);
      `None` is `NaT`. */
  type DateTime = Option<int>

  /** What one `pd.to_datetime(s, format=f)` call does: raise, or return a
      timestamp (or `NaT`, for the null spellings pandas recognises). */
  datatype Attempt = Raised | Parsed(value: DateTime)

  /** The date parsing of the table library: a strict parse per pattern and
      the permissive `errors="coerce"` parse, which never raises. */
  datatype DateParsers = DateParsers(strict: (DateFormat, string) -> Attempt, coerce: string -> DateTime)

  function FirstParse(fmts: seq<DateFormat>, s: string, p: DateParsers): DateTime {
    if fmts == [] then p.coerce(s)
    else match p.strict(fmts[0], s)
      case Parsed(v) => v
      case Raised => FirstParse(fmts[1..], s, p)
  }

  /** `parse_datetime`: blank text is `NaT`; otherwise the first pattern
      whose strict parse does not raise decides, and the permissive parse
      is the fall-back. */
  function ParseDatetime(text: string, p: DateParsers): (r: DateTime)
    ensures Trim(text) == "" ==> r == None
  {
    var s := Trim(text);
    if s == "" then None else FirstParse(DateFormats, s, p)
  }

  lemma {:induction false} FirstParseAt(fmts: seq<DateFormat>, s: string, p: DateParsers, k: nat)
    requires k < |fmts| && p.strict(fmts[k], s).Parsed?
    requires forall j :: 0 <= j < k ==> p.strict(fmts[j], s) == Raised
    ensures FirstParse(fmts, s, p) == p.strict(fmts[k], s).value
  {
    if k > 0 {
      assert p.strict(fmts[0], s) == Raised;
      FirstParseAt(fmts[1..], s, p, k - 1);
    }
  }

  lemma {:induction false} FirstParseNone(fmts: seq<DateFormat>, s: string, p: DateParsers)
    requires forall j :: 0 <= j < |fmts| ==> p.strict(fmts[j], s) == Raised
    ensures FirstParse(fmts, s, p) == p.coerce(s)
  {
    if fmts != [] {
      assert p.strict(fmts[0], s) == Raised;
      FirstParseNone(fmts[1..], s, p);
    }
  }

  /** The first pattern (in the fixed order) that parses wins. */
  lemma FirstFormatWins(text: string, p: DateParsers, k: nat)
    requires Trim(text) != ""
    requires k < |DateFormats| && p.strict(DateFormats[k], Trim(text)).Parsed?
    requires forall j :: 0 <= j < k ==> p.strict(DateFormats[j], Trim(text)) == Raised
    ensures ParseDatetime(text, p) == p.strict(DateFormats[k], Trim(text)).value
  {
    FirstParseAt(DateFormats, Trim(text), p, k);
  }

  /** When no pattern parses, the permissive parse decides; nothing raises. */
  lemma NoFormatFallsBack(text: string, p: DateParsers)
    requires Trim(text) != ""
    requires forall j :: 0 <= j < |DateFormats| ==> p.strict(DateFormats[j], Trim(text)) == Raised
    ensures ParseDatetime(text, p) == p.coerce(Trim(text))
  {
    FirstParseNone(DateFormats, Trim(text), p);
  }

  // ---------------------------------------------------------------- session_bucket

  /** The time-of-day buckets; their labels in the data are 白天, 下午, 晚上
      and 未知. */
  datatype Bucket = Day | Afternoon | Evening | Unknown

  function BucketLabel(b: Bucket): string {
    match b
    case Day => "白天"
    case Afternoon => "下午"
    case Evening => "晚上"
    case Unknown => "未知"
  }

  const DayKeywords: seq<string> := ["白天", "上午", "早上", "日間", "白日"]
  const AfternoonKeyword: string := "下午"
  const EveningKeywords: seq<string> := ["晚上", "夜間", "夜晚"]

  /** `session_bucket`: the Chinese key words are looked for anywhere in the
      stripped text, day before afternoon before evening; only when none
      occurs is the whole upper-cased text compared with the English codes. */
  function SessionBucket(session: string): Bucket {
    var s := Trim(session);
    if ContainsAny(s, DayKeywords) then Day
    else if Contains(s, AfternoonKeyword) then Afternoon
    else if ContainsAny(s, EveningKeywords) then Evening
    else
      var su := Upper(s);
      if su in {"D", "DAY"} then Day
      else if su in {"A", "AFTERNOON"} then Afternoon
      else if su in {"E", "EVENING", "NIGHT"} then Evening
      else Unknown
  }

  /** A day key word anywhere in the text decides the bucket, whatever else
      the text holds (an afternoon or evening word, an English code). */
  lemma {:induction false} DayKeywordWins(a: string, k: string, b: string)
    requires k in DayKeywords
    ensures SessionBucket(a + k + b) == Day
  {
    ContainsMiddle(a, k, b);
    ContainsKeepsSolid(a + k + b, k);
  }

  /** Without a day key word, the afternoon key word decides. */
  lemma {:induction false} AfternoonKeywordWins(a: string, b: string)
    requires !ContainsAny(Trim(a + AfternoonKeyword + b), DayKeywords)
    ensures SessionBucket(a + AfternoonKeyword + b) == Afternoon
  {
    ContainsMiddle(a, AfternoonKeyword, b);
    ContainsKeepsSolid(a + AfternoonKeyword + b, AfternoonKeyword);
  }

  /** Without a day key word or the afternoon key word, an evening key
      word decides. */
  lemma {:induction false} EveningKeywordWins(a: string, k: string, b: string)
    requires k in EveningKeywords
    requires !ContainsAny(Trim(a + k + b), DayKeywords)
    requires !Contains(Trim(a + k + b), AfternoonKeyword)
    ensures SessionBucket(a + k + b) == Evening
  {
    ContainsMiddle(a, k, b);
    ContainsKeepsSolid(a + k + b, k);
  }

  predicate IsAscii(s: string) {
    forall i :: 0 <= i < |s| ==> s[i] < '\U{80}'
  }

  lemma AsciiLacksWord(s: string, k: string)
    requires IsAscii(s) && k != [] && k[0] >= '\U{80}'
    ensures !Contains(s, k)
  {
    forall p | 0 <= p <= |s| - |k|
      ensures !OccursAt(s, k, p)
    {
      assert s[p..p + |k|][0] == s[p];
    }
  }

  /** On ASCII text no Chinese key word can occur, so only the English codes
      can place it in a bucket, and only when they are the whole text. */
  lemma {:induction false} SessionBucketAscii(session: string)
    requires IsAscii(Trim(session))
    ensures SessionBucket(session) ==
              var su := Upper(Trim(session));
              if su in {"D", "DAY"} then Day
              else if su in {"A", "AFTERNOON"} then Afternoon
              else if su in {"E", "EVENING", "NIGHT"} then Evening
              else Unknown
  {
    var s := Trim(session);
    forall k | k in DayKeywords + [AfternoonKeyword] + EveningKeywords
      ensures !Contains(s, k)
    {
      AsciiLacksWord(s, k);
    }
  }

  /** The English codes must be the whole stripped text, in any letter case. */
  lemma SessionCodesWholeText()
    ensures SessionBucket("Day") == Day && SessionBucket("Night") == Evening
    ensures SessionBucket("DAYTIME") == Unknown
  {
    SessionDay();
    SessionNight();
    SessionDaytime();
  }

  lemma SessionDay()
    ensures SessionBucket("Day") == Day
  {
    TrimSolid("Day");
    SessionBucketAscii("Day");
    assert Upper("Day") == "DAY";
  }

  lemma SessionNight()
    ensures SessionBucket("Night") == Evening
  {
    TrimSolid("Night");
    SessionBucketAscii("Night");
    assert Upper("Night") == "NIGHT";
  }

  lemma SessionDaytime()
    ensures SessionBucket("DAYTIME") == Unknown
  {
    TrimSolid("DAYTIME");
    SessionBucketAscii("DAYTIME");
    assert Upper("DAYTIME") == "DAYTIME";
  }

  // ---------------------------------------------------------------- is_weekend_or_holiday

  const NanosPerDay: int := 86_400_000_000_000

  /** `Timestamp.normalize()` as a day number: days since 1970-01-01. */
  function DayOf(t: int): int {
    t / NanosPerDay
  }

  /** `Timestamp.weekday()`: Monday is 0 and Sunday 6; 1970-01-01 was a
      Thursday. */
  function Weekday(t: int): (w: int)
    ensures 0 <= w < 7
  {
    (DayOf(t) + 3) % 7
  }

  /** `is_weekend_or_holiday`, with the holiday file already read into a set
      of day numbers. */
  predicate IsWeekendOrHoliday(ts: DateTime, holidays: set<int>) {
    match ts
    case None => false
    case Some(t) => if Weekday(t) >= 5 then true else DayOf(t) in holidays
  }

  /** Only the calendar day of a timestamp matters, not its time. */
  lemma WeekendOrHolidaySameDay(t: int, u: int, holidays: set<int>)
    requires DayOf(t) == DayOf(u)
    ensures IsWeekendOrHoliday(Some(t), holidays) == IsWeekendOrHoliday(Some(u), holidays)
  {
  }

  /** Without holidays, exactly two of any seven consecutive days are
      weekend days: the answer repeats every week. */
  lemma {:induction false} WeekendRepeatsWeekly(t: int, holidays: set<int>)
    requires holidays == {}
    ensures IsWeekendOrHoliday(Some(t + 7 * NanosPerDay), holidays) == IsWeekendOrHoliday(Some(t), holidays)
  {
    assert DayOf(t + 7 * NanosPerDay) == DayOf(t) + 7;
    assert (DayOf(t) + 7 + 3) % 7 == (DayOf(t) + 3) % 7;
  }

  /** 1970-01-03 was a Saturday and 1970-01-05 a Monday. */
  lemma WeekdayAnchors(holidays: set<int>)
    ensures IsWeekendOrHoliday(Some(2 * NanosPerDay + 1), holidays)
    ensures IsWeekendOrHoliday(Some(4 * NanosPerDay), holidays) <==> 4 in holidays
    ensures !IsWeekendOrHoliday(None, holidays)
  {
    assert DayOf(2 * NanosPerDay + 1) == 2;
    assert DayOf(4 * NanosPerDay) == 4;
  }

  /** More holidays never turn a weekend-or-holiday visit into an ordinary one. */
  lemma WeekendOrHolidayMonotone(ts: DateTime, h1: set<int>, h2: set<int>)
    requires h1 <= h2 && IsWeekendOrHoliday(ts, h1)
    ensures IsWeekendOrHoliday(ts, h2)
  {
  }

  // ---------------------------------------------------------------- extract_t16_numbers

  /** Index just past the run of digits that starts at `i`. */
  function RunEnd(s: string, i: nat): (j: nat)
    requires i <= |s|
    ensures i <= j <= |s|
    ensures forall q :: i <= q < j ==> IsDigit(s[q])
    ensures j == |s| || !IsDigit(s[j])
    decreases |s| - i
  {
    if i < |s| && IsDigit(s[i]) then RunEnd(s, i + 1) else i
  }

  /** Index just past the run of white space that starts at `i`. */
  function SkipSpace(s: string, i: nat): (j: nat)
    requires i <= |s|
    ensures i <= j <= |s|
    ensures forall q :: i <= q < j ==> IsSpace(s[q])
    ensures j == |s| || !IsSpace(s[j])
    decreases |s| - i
  {
    if i < |s| && IsSpace(s[i]) then SkipSpace(s, i + 1) else i
  }

  /** `\s*:` matches at `j`. */
  predicate ColonAfter(s: string, j: nat)
    requires j <= |s|
  {
    var k := SkipSpace(s, j);
    k < |s| && s[k] == ':'
  }

  /** The scan of `re.findall(r"(\d+)\s*:", s)` from position `i`: on a match
      the group is collected and the scan resumes after the colon, otherwise
      it moves on by one character. */
  function FindAllFrom(s: string, i: nat): set<string>
    requires i <= |s|
    decreases |s| - i
  {
    if i == |s| then {}
    else if IsDigit(s[i]) && ColonAfter(s, RunEnd(s, i)) then
      var k := SkipSpace(s, RunEnd(s, i));
      {s[i..RunEnd(s, i)]} + FindAllFrom(s, k + 1)
    else FindAllFrom(s, i + 1)
  }

  /** `extract_t16_numbers`. */
  function ExtractT16Numbers(t16: string): set<string> {
    FindAllFrom(Trim(t16), 0)
  }

  /** A maximal run of digits begins at `p`. */
  predicate RunStart(s: string, p: nat) {
    p < |s| && IsDigit(s[p]) && (p == 0 || !IsDigit(s[p - 1]))
  }

  /** A maximal run of digits begins at `p` and is followed, after optional
      white space, by a colon. */
  predicate TaggedRun(s: string, p: nat) {
    RunStart(s, p) && ColonAfter(s, RunEnd(s, p))
  }

  /** The option numbers written in `s`: every maximal digit run that is
      followed by optional white space and a colon, at or after `i`. */
  ghost function TaggedRuns(s: string, i: nat): set<string> {
    set p | i <= p < |s| && TaggedRun(s, p) :: s[p..RunEnd(s, p)]
  }

  /** Where the scan may resume: the start, a position not inside a run of
      digits, or inside a run that is not followed by a colon. */
  predicate ScanPoint(s: string, i: nat)
    requires i <= |s|
  {
    i == 0 || i == |s| || !IsDigit(s[i - 1]) || !ColonAfter(s, RunEnd(s, i))
  }

  lemma {:induction false} RunEndInside(s: string, i: nat, q: nat)
    requires i <= |s| && i <= q <= RunEnd(s, i)
    ensures RunEnd(s, q) == RunEnd(s, i)
    decreases q - i
  {
    if q > i {
      RunEndInside(s, i + 1, q);
    }
  }

  /** Where the scan does not match, no option number begins there. */
  lemma TaggedRunsSkip(s: string, i: nat, x: string)
    requires i < |s| && ScanPoint(s, i)
    requires !(IsDigit(s[i]) && ColonAfter(s, RunEnd(s, i)))
    ensures ScanPoint(s, i + 1)
    ensures x in TaggedRuns(s, i) <==> x in TaggedRuns(s, i + 1)
  {
    if IsDigit(s[i]) {
      RunEndInside(s, i, i + 1);
    }
    assert !TaggedRun(s, i);
    if x in TaggedRuns(s, i) {
      var p :| i <= p < |s| && TaggedRun(s, p) && x == s[p..RunEnd(s, p)];
      assert p != i;
    }
  }

  /** Between a matched run and the position after its colon no other
      option number begins. */
  lemma NoRunBeforeColon(s: string, i: nat)
    requires i < |s| && IsDigit(s[i]) && ColonAfter(s, RunEnd(s, i))
    ensures forall p | i < p <= SkipSpace(s, RunEnd(s, i)) :: !TaggedRun(s, p)
  {
    var e := RunEnd(s, i);
    var k := SkipSpace(s, e);
    forall p | i < p <= k
      ensures !TaggedRun(s, p)
    {
      if p < e {
        assert IsDigit(s[p - 1]);
      } else if p < k {
        assert IsSpace(s[p]);
      }
    }
  }

  /** After a match the scan resumes just past the colon, where no run of
      digits goes on. */
  lemma ScanAfterMatch(s: string, i: nat)
    requires i < |s| && IsDigit(s[i]) && ColonAfter(s, RunEnd(s, i))
    ensures ScanPoint(s, SkipSpace(s, RunEnd(s, i)) + 1)
  {
    assert s[SkipSpace(s, RunEnd(s, i))] == ':';
  }

  /** Where the scan matches, the match is the only option number that
      begins before the position after the colon. */
  lemma TaggedRunsMatch(s: string, i: nat, x: string)
    requires i < |s| && ScanPoint(s, i)
    requires IsDigit(s[i]) && ColonAfter(s, RunEnd(s, i))
    ensures x in TaggedRuns(s, i) <==>
              x == s[i..RunEnd(s, i)] || x in TaggedRuns(s, SkipSpace(s, RunEnd(s, i)) + 1)
  {
    var k := SkipSpace(s, RunEnd(s, i));
    assert TaggedRun(s, i);
    if x in TaggedRuns(s, i) {
      var p :| i <= p < |s| && TaggedRun(s, p) && x == s[p..RunEnd(s, p)];
      RunAtOrAfterColon(s, i, p);
      if p != i {
        InTaggedRuns(s, k + 1, p);
      }
    }
    if x == s[i..RunEnd(s, i)] || x in TaggedRuns(s, k + 1) {
      TaggedRunsMatchSup(s, i, x);
    }
  }

  /** An option number at or after a matched run begins at the match or
      past its colon. */
  lemma RunAtOrAfterColon(s: string, i: nat, p: nat)
    requires i < |s| && IsDigit(s[i]) && ColonAfter(s, RunEnd(s, i))
    requires i <= p < |s| && TaggedRun(s, p)
    ensures p == i || p > SkipSpace(s, RunEnd(s, i))
  {
    NoRunBeforeColon(s, i);
  }

  lemma InTaggedRuns(s: string, i: nat, p: nat)
    requires i <= p < |s| && TaggedRun(s, p)
    ensures s[p..RunEnd(s, p)] in TaggedRuns(s, i)
  {
  }

  lemma TaggedRunsMatchSup(s: string, i: nat, x: string)
    requires i < |s| && TaggedRun(s, i)
    requires x == s[i..RunEnd(s, i)] || x in TaggedRuns(s, SkipSpace(s, RunEnd(s, i)) + 1)
    ensures x in TaggedRuns(s, i)
  {
    var k := SkipSpace(s, RunEnd(s, i));
    if x != s[i..RunEnd(s, i)] {
      var p :| k + 1 <= p < |s| && TaggedRun(s, p) && x == s[p..RunEnd(s, p)];
      InTaggedRuns(s, i, p);
    } else {
      InTaggedRuns(s, i, i);
    }
  }

  lemma FindAllFromMatch(s: string, i: nat, x: string)
    requires i < |s| && IsDigit(s[i]) && ColonAfter(s, RunEnd(s, i))
    ensures x in FindAllFrom(s, i) <==>
              x == s[i..RunEnd(s, i)] || x in FindAllFrom(s, SkipSpace(s, RunEnd(s, i)) + 1)
  {
  }

  lemma FindAllFromMiss(s: string, i: nat, x: string)
    requires i < |s| && !(IsDigit(s[i]) && ColonAfter(s, RunEnd(s, i)))
    ensures x in FindAllFrom(s, i) <==> x in FindAllFrom(s, i + 1)
  {
  }

  /** From any point where it may resume, the scan collects exactly the
      option numbers that begin there or later. */
  lemma {:induction false} FindAllFromSpec(s: string, i: nat, x: string)
    requires i <= |s| && ScanPoint(s, i)
    ensures x in FindAllFrom(s, i) <==> x in TaggedRuns(s, i)
    decreases |s| - i
  {
    if i == |s| {
      NoRunsAtEnd(s, x);
    } else if IsDigit(s[i]) && ColonAfter(s, RunEnd(s, i)) {
      var k := SkipSpace(s, RunEnd(s, i));
      ScanAfterMatch(s, i);
      FindAllFromSpec(s, k + 1, x);
      FindAllFromSpecMatch(s, i, x);
    } else {
      TaggedRunsSkip(s, i, x);
      FindAllFromSpec(s, i + 1, x);
      FindAllFromSpecMiss(s, i, x);
    }
  }

  lemma FindAllFromSpecMatch(s: string, i: nat, x: string)
    requires i < |s| && ScanPoint(s, i) && IsDigit(s[i]) && ColonAfter(s, RunEnd(s, i))
    requires var k := SkipSpace(s, RunEnd(s, i));
             x in FindAllFrom(s, k + 1) <==> x in TaggedRuns(s, k + 1)
    ensures x in FindAllFrom(s, i) <==> x in TaggedRuns(s, i)
  {
    TaggedRunsMatch(s, i, x);
    FindAllFromMatch(s, i, x);
  }

  lemma FindAllFromSpecMiss(s: string, i: nat, x: string)
    requires i < |s| && ScanPoint(s, i) && !(IsDigit(s[i]) && ColonAfter(s, RunEnd(s, i)))
    requires x in FindAllFrom(s, i + 1) <==> x in TaggedRuns(s, i + 1)
    ensures x in FindAllFrom(s, i) <==> x in TaggedRuns(s, i)
  {
    TaggedRunsSkip(s, i, x);
    FindAllFromMiss(s, i, x);
  }

  lemma NoRunsAtEnd(s: string, x: string)
    ensures x !in FindAllFrom(s, |s|) && x !in TaggedRuns(s, |s|)
  {
  }

  /** `extract_t16_numbers` returns exactly the maximal digit runs of the
      stripped answer that are followed by optional white space and ":". */
  lemma ExtractT16NumbersSpec(t16: string)
    ensures ExtractT16Numbers(t16) == TaggedRuns(Trim(t16), 0)
  {
    forall x
      ensures x in ExtractT16Numbers(t16) <==> x in TaggedRuns(Trim(t16), 0)
    {
      FindAllFromSpec(Trim(t16), 0, x);
    }
  }

  /** "13: x" gives the option number 13, never 3 on its own. */
  lemma T16ExampleThirteen()
    ensures ExtractT16Numbers("13: x") == {"13"}
  {
    var s := "13: x";
    TrimSolid(s);
    assert RunEnd(s, 0) == 2;
    assert SkipSpace(s, 2) == 2;
    assert s[0..2] == "13";
    assert FindAllFrom(s, 0) == {"13"} + FindAllFrom(s, 3);
    assert FindAllFrom(s, 3) == FindAllFrom(s, 4);
    assert FindAllFrom(s, 4) == FindAllFrom(s, 5);
  }

  /** "1: 本人" (the respondent in person) does not hold option 3. */
  lemma T16ExampleInPerson()
    ensures ExtractT16Numbers("1: 本人") == {"1"}
  {
    var s := "1: 本人";
    TrimSolid(s);
    assert RunEnd(s, 0) == 1;
    assert SkipSpace(s, 1) == 1;
    assert s[0..1] == "1";
    assert FindAllFrom(s, 0) == {"1"} + FindAllFrom(s, 2);
    assert FindAllFrom(s, 2) == FindAllFrom(s, 3);
    assert FindAllFrom(s, 3) == FindAllFrom(s, 4);
    assert FindAllFrom(s, 4) == FindAllFrom(s, 5);
  }

  // ---------------------------------------------------------------- contact predicates

  const GuardKeyword: string := "警衛"
  const IntercomKeyword: string := "對講機"
  const PublicServantKeywords: seq<string> := ["鄰里長", "員警", "警察", "郵差", "公職人員", "警衛"]

  /** `contact_is_guard`. */
  predicate ContactIsGuard(contact: string) {
    Contains(Trim(contact), GuardKeyword)
  }

  /** `contact_is_public_servant`. */
  predicate ContactIsPublicServant(contact: string) {
    var s := Trim(contact);
    ContainsAny(s, PublicServantKeywords) || Contains(s, "里長")
  }

  /** A guard always counts as a public servant. */
  lemma GuardIsPublicServant(contact: string)
    requires ContactIsGuard(contact)
    ensures ContactIsPublicServant(contact)
  {
    assert GuardKeyword in PublicServantKeywords;
  }

  /** "鄰里長" is subsumed by "里長": the test is one of six key words. */
  lemma PublicServantSixKeywords(contact: string)
    ensures ContactIsPublicServant(contact) <==>
              ContainsAny(Trim(contact), ["里長", "員警", "警察", "郵差", "公職人員", "警衛"])
  {
    var s := Trim(contact);
    if Contains(s, "鄰里長") {
      assert "鄰里長" == "鄰" + "里長" + "";
      ContainsPart(s, "鄰", "里長", "");
    }
  }
}
