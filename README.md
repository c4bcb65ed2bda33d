# Batch quality-control rules for survey visit records

This project models the quality-control rules of the survey crawler. The rules run over
the crawl CSV after it has been downloaded. Each CSV row is one visit to a sample
(`SampleID`). A visit carries:

- a result code;
- a session;
- a contact method;
- the visit form (`T16Answer`);
- three later questionnaires: sampling, the sampling questionnaire and the interview record.

`run_all_checks` derives columns from each visit:

- a canonical result code;
- a timestamp;
- a session bucket;
- a weekend-or-holiday flag;
- four "is filled" flags.

It then runs four rule families and writes the results:

- **Rule I** is the three-visit rule. A sample whose latest visit still has a 2xx code needs all of these:
  - three visits;
  - two of the three sessions;
  - one visit on a weekend or holiday.
- **Rule II** covers which questionnaires must or must not be filled for a result code.
- **Rule III** requires the contact method to agree with the visit form and the code.
- **Rule IV** covers latest codes that need an explanation.

Output: one list of issues per interviewer, sorted by sample and date, under a sanitised
file name, and a summary with one row per interviewer and the number of issues.

The same logic appears twice, in `sample_checker.py` and in `v2_1.py`; only message
wording differs. The table below cites `sample_checker.py`, and `v2_1.py` lines
711-1061 and 688-691 hold the same code.

Modules:

- `Text` (text.dfy): white space, `strip`, substring tests, ASCII upper-casing, code-point order of strings.
- `Normalize` (normalize.dfy): `norm`, `is_filled`, `normalize_result_code`, `parse_datetime`, `session_bucket`, `is_weekend_or_holiday`, `extract_t16_numbers` and the contact predicates.
- `Table` (table.dfy): the row record, the derived columns, the stable sort by (SampleID, DateTime, `_row`) and `groupby("SampleID", sort=False)`. The grouping is proved to give each sample's visits in key order.
- `Issues` (issues.dfy): the issue record and the generic theorem that relates a group-by-group rule to each sample.
- `ThreeVisits`, `Questionnaire`, `Content`, `LatestCodes` (rule_*.dfy): the four rule families, each a method with its loop, proved against a specification function. The rules that work group by group (Rule I, the success check of Rule II and Rule IV) have a per-sample lemma that says what they report for every sample. The row-by-row checks (Rule II's row loop and Rule III) have per-row lemmas that state each finding's condition.
- `Report` (report.dfy): `run_all_checks`, the per-interviewer files and the summary.
- `CsvOutput` (csv_output.dfy): `write_csv`, which pads each row dictionary in place before writing it.

## Model

| member | source | states |
|---|---|---|
| Text.TrimIsSlice | sample_checker.py:624-625 | `norm` removes exactly the leading and trailing white space: the result is a slice of the input, only white space lies outside it, and it neither starts nor ends with white space |
| Text.TrimPadding | sample_checker.py:624-625 | white space added around a value does not change its normal form |
| Text.TrimIdempotent | sample_checker.py:624-625 | normalising twice is normalising once |
| Text.ContainsTrim | sample_checker.py:706-711 | a key word without white space at its ends occurs in the stripped text exactly when it occurs in the raw text |
| Text.UpperFacts | sample_checker.py:664 | upper-casing leaves no lower-case letter, is idempotent, and leaves a text unchanged exactly when it has no lower-case letter |
| Text.LexLessTrichotomy | sample_checker.py:715 | the string order the sorts use is total: for any two strings one is below the other or they are equal |
| Text.LexLessTransitive | sample_checker.py:715 | the string order is transitive |
| Text.LexLeAntisymmetric | sample_checker.py:715 | two strings each at most the other are equal |
| Normalize.IsFilledPadding | sample_checker.py:627-633 | whether a cell counts as filled does not depend on white space around it |
| Normalize.IsFilledSolid | sample_checker.py:627-633 | a non-empty stripped cell counts as filled exactly when it is not one of the six "unfilled" markers |
| Normalize.MarkersAreUnfilled | sample_checker.py:629-632 | "", 未填寫, 未填, NA, N/A, None and null are not filled |
| Normalize.MarkersAreCaseSensitive | sample_checker.py:631 | the marker test is exact: "na" and "已填寫" count as filled |
| Normalize.NormalizeResultCode | sample_checker.py:635-642 | the canonical code is a prefix of the stripped code, empty exactly when the stripped code is, and has no white space at its ends |
| Normalize.NormalizeWholeDecimal | sample_checker.py:639-641 | a code written as digits, a point and only zeros, with any white space around it, becomes its digits ("301.0" gives "301") |
| Normalize.NormalizeOtherUnchanged | sample_checker.py:635-642 | a code that is not digits, a point and zeros once stripped comes back as its stripped text, unchanged |
| Normalize.NormalizeBlank | sample_checker.py:636-638 | a blank code becomes "" |
| Normalize.NormalizeIdempotent | sample_checker.py:635-642 | normalising a canonical code changes nothing |
| Normalize.ParseDatetime | sample_checker.py:644-647 | a blank date is `NaT` |
| Normalize.FirstFormatWins | sample_checker.py:648-653 | the first of the six patterns that accepts the stripped text gives the timestamp |
| Normalize.NoFormatFallsBack | sample_checker.py:654 | when no pattern accepts it, the lenient parse of the stripped text is used |
| Normalize.DayKeywordWins | sample_checker.py:658-659 | a session naming any daytime word is 白天, whatever else it says |
| Normalize.AfternoonKeywordWins | sample_checker.py:660-661 | a session with 下午 and no daytime word is 下午 |
| Normalize.EveningKeywordWins | sample_checker.py:662-663 | without a daytime word and without 下午, an evening word gives 晚上 |
| Normalize.SessionBucketAscii | sample_checker.py:664-671 | for an ASCII session the bucket depends only on its upper-cased stripped text: D/DAY, A/AFTERNOON, E/EVENING/NIGHT, otherwise unknown |
| Normalize.SessionCodesWholeText | sample_checker.py:665-670 | the ASCII codes must be the whole text: "Day" is 白天, "Night" is 晚上, "DAYTIME" is unknown |
| Normalize.Weekday | sample_checker.py:697 | the weekday of a timestamp lies in 0..6 |
| Normalize.WeekendOrHolidaySameDay | sample_checker.py:694-699 | two timestamps on the same calendar day are both weekend-or-holiday or neither |
| Normalize.WeekendRepeatsWeekly | sample_checker.py:697 | without holidays, a timestamp and the one a week later agree |
| Normalize.WeekdayAnchors | sample_checker.py:694-699 | 1970-01-03 (a Saturday) counts, 1970-01-05 (a Monday) counts exactly when it is a holiday, and `NaT` never counts |
| Normalize.WeekendOrHolidayMonotone | sample_checker.py:699 | adding holidays never turns a weekend-or-holiday visit into an ordinary one |
| Normalize.RunEnd | sample_checker.py:703 | `\d+` takes the longest run of digits |
| Normalize.SkipSpace | sample_checker.py:703 | `\s*` takes the longest run of white space |
| Normalize.TaggedRunsSkip | sample_checker.py:703 | where the pattern does not match, no tagged digit run starts, and the scan may go on from the next character |
| Normalize.TaggedRunsMatch | sample_checker.py:703 | where the pattern matches, the matched run is the only tagged digit run that starts before the position after its colon |
| Normalize.FindAllFromSpec | sample_checker.py:703 | the left-to-right scan of `re.findall(r"(\d+)\s*:")` collects a string exactly when it is a maximal digit run, followed by optional white space and a colon, that starts at or after the scan's position |
| Normalize.ExtractT16NumbersSpec | sample_checker.py:701-704 | the option numbers of a visit form are the tagged digit runs of its stripped text |
| Normalize.T16ExampleThirteen | sample_checker.py:703 | "13: x" gives exactly {"13"}: a number is read whole, never its last digit alone |
| Normalize.T16ExampleInPerson | sample_checker.py:703 | "1: 本人" gives exactly {"1"} |
| Normalize.GuardIsPublicServant | sample_checker.py:706-711 | a guard contact is always a public-servant contact |
| Normalize.PublicServantSixKeywords | sample_checker.py:709-711 | the public-servant test is one of six key words, because 鄰里長 contains 里長 |
| Table.Derive | sample_checker.py:889-901 | one derived row per CSV row, with `_row` its position, the record kept unchanged, and each derived column the helper applied to that row's own cell: canonical code, timestamp, session bucket, weekend-or-holiday flag of the timestamp, and the four "is filled" flags |
| Table.IndexedUnique | sample_checker.py:890 | `_row` makes every derived row distinct |
| Table.KeyLessTrichotomy | sample_checker.py:715 | any two rows are ordered by (SampleID, DateTime with `NaT` last, `_row`) or have equal keys |
| Table.KeyLeTotal | sample_checker.py:715 | the sort key orders every pair of rows |
| Table.KeyLeTransitive | sample_checker.py:715 | the sort key order is transitive |
| Table.KeyLeSampleOrder | sample_checker.py:715 | a row sorted before another has a sample ID no larger |
| Table.SortRows | sample_checker.py:715 | the sorted table is sorted by the key and a permutation of the table |
| Table.SortedUnique | sample_checker.py:715 | on rows with distinct `_row` there is only one sorted permutation, so the sort's result is fully determined |
| Table.RunLength | sample_checker.py:717 | the first group is the longest prefix with the first row's sample ID |
| Table.Groups | sample_checker.py:717 | the groups concatenate back to the table and each holds one sample ID |
| Table.FirstRunIsWholeSample | sample_checker.py:717 | on a sorted table no row after the first group has its sample ID |
| Table.GroupsDistinct | sample_checker.py:717 | on a sorted table no two groups share a sample ID |
| Table.GroupsComplete | sample_checker.py:717 | on a sorted table every row of a group's sample is in that group |
| Table.GroupsAreSampleRows | sample_checker.py:717 | on a sorted table each group is exactly its sample's rows in table order |
| Table.RowInGroup | sample_checker.py:717 | every row of the table lies in some group |
| Table.GroupIsSortedSample | sample_checker.py:715-717 | each group of the sorted table is its sample's visits sorted by the key |
| Table.LastIsLatest | sample_checker.py:718 | the last row of a sorted group is at or after every row of the group |
| Table.LatestVisit | sample_checker.py:718 | the last row of a sample's sorted visits is one of its visits and at or after all of them |
| Table.SampleRowsPermutation | sample_checker.py:715-717 | reordering the table reorders each sample's visits the same way |
| Issues.Category | sample_checker.py:741 | the category column names the rule family: I.三訪規則 exactly for Rule I issues, IV.訪次檢查 exactly for Rule IV issues |
| Issues.RowIssues | sample_checker.py:754-762 | an issue pushed for a row carries that row's sample, interviewer, date and raw code, one per finding, in order |
| Issues.CollectStep | sample_checker.py:717 | the issues of the first k+1 groups are those of the first k and then those of group k |
| Issues.IssuesOfAppend | sample_checker.py:904-908 | the issues of one sample in a concatenation are its issues in each part, in order |
| Issues.CollectGroup | sample_checker.py:717 | walking distinct groups, the issues for a group's sample are exactly those its group yields |
| Issues.PerSample | sample_checker.py:715-717 | for a rule that reports each group under that group's sample, the issues for a sample are what the rule yields on that sample's visits in key order |
| Issues.AtMostOncePerSample | sample_checker.py:717 | a rule yielding at most one issue per group reports each sample at most once |
| ThreeVisits.Best | sample_checker.py:733 | the chosen name is a candidate, and no candidate is more frequent or as frequent and smaller |
| ThreeVisits.Mode | sample_checker.py:733 | `mode().iat[0]` is a most frequent name and the smallest of those |
| ThreeVisits.ModeUnique | sample_checker.py:733 | there is only one such name |
| ThreeVisits.ModePermutation | sample_checker.py:733 | the chosen interviewer does not depend on the order of the visits |
| ThreeVisits.NamesPermutation | sample_checker.py:733 | reordering visits reorders their interviewer names the same way |
| ThreeVisits.HolidayVisitsZero | sample_checker.py:729-730 | the holiday count is zero exactly when no visit is on a weekend or holiday |
| ThreeVisits.SessionsPermutation | sample_checker.py:726-729 | the sessions covered and the holiday test do not depend on the order of the visits |
| ThreeVisits.CheckGroup | sample_checker.py:717-742 | the loop body yields exactly the Rule I issue of its group |
| ThreeVisits.CheckThreeVisits | sample_checker.py:713-744 | the rule yields the Rule I issues of the groups of the sorted table, group after group |
| ThreeVisits.VisitIssuesPerGroup | sample_checker.py:717-742 | Rule I yields at most one issue per group, under the group's sample |
| ThreeVisits.OrderFree | sample_checker.py:723-733 | the number of visits, the sessions covered, the holiday test and the chosen interviewer do not depend on the order of the visits |
| ThreeVisits.VisitIssuesPermutation | sample_checker.py:717-742 | Rule I on a sample's visits in key order is decided by the latest code and the visits in any order, and its issue carries the count of missing visits, the missing holiday visit and the sessions covered |
| ThreeVisits.SampleVisitIssues | sample_checker.py:717-742 | what Rule I yields for one sample's sorted visits, stated on the visits in table order |
| ThreeVisits.ThreeVisitsPerSample | sample_checker.py:713-744 | a sample is reported at most once, exactly when its latest code starts with 2 and it has fewer than three visits, fewer than two sessions or no weekend or holiday visit; the issue is of category I.三訪規則, has no date, the latest code, the sample's most frequent interviewer, max(0, 3 - visits) missing visits, a missing holiday visit exactly when none was on a weekend or holiday, and the sessions covered |
| Questionnaire.MustHaveSamplingIsAllowedNewer | sample_checker.py:749-750 | the codes that need sampling are the codes that allow newer visits, without 100 |
| Questionnaire.FutureAllowedFlags | sample_checker.py:769-781 | the reverse scan flags a row exactly when a later row of the same run of sample IDs has a code allowing newer visits |
| Questionnaire.Contiguous | sample_checker.py:764 | in the sorted table a sample's rows are contiguous |
| Questionnaire.LaterAllowedMeaning | sample_checker.py:769-781 | on the sorted table the flag means that some later visit of the same sample has a code allowing newer visits |
| Questionnaire.SampleHas100Meaning | sample_checker.py:766 | a sample "has 100" exactly when one of its visits has canonical code 100 |
| Questionnaire.Has100BySample | sample_checker.py:766 | the map has one entry per sample ID, saying whether the sample has a 100 |
| Questionnaire.SampleHas100Column | sample_checker.py:767 | the mapped column gives each row its sample's entry |
| Questionnaire.NoCodeRow | sample_checker.py:787-790 | a row without a result code gets at most one issue, the "no code but forms" one, exactly when one of its four forms is filled |
| Questionnaire.CodedRow | sample_checker.py:792-802 | a coded row is reported for a missing visit form; for forbidden-code forms only without a later allowing visit and without a 100 in the sample; and for a must-have code without both sampling forms; each at most once and in that order |
| Questionnaire.CodedRowOrder | sample_checker.py:792-802 | the findings of a coded row come in the order of the checks: visit form, forbidden forms, required forms |
| Questionnaire.ForbiddenSuppression | sample_checker.py:795-798 | on the sorted table a forbidden-code row with forms is reported exactly when no later visit of its sample allows newer visits and the sample has no 100 |
| Questionnaire.Code311AlwaysReported | sample_checker.py:748-802 | 311 is both forbidden and must-have, so a coded 311 visit with no later allowing visit and no 100 in its sample is always reported |
| Questionnaire.CheckRow | sample_checker.py:783-802 | the row loop body pushes the row's findings, in order |
| Questionnaire.WithColumns | sample_checker.py:766-781 | each sorted row gets its two added columns: whether a later visit of its sample allows newer visits, and whether its sample has a 100 |
| Questionnaire.CheckRows | sample_checker.py:783-802 | the row loop over the sorted table with its two added columns pushes each row's findings, row after row |
| Questionnaire.SuccessIssuesPerGroup | sample_checker.py:804-815 | the success check yields at most one issue per group, under the group's sample |
| Questionnaire.SuccessPerSample | sample_checker.py:804-815 | a sample is reported at most once by the success check, exactly when its latest code is 100 and one of the four forms of that visit is unfilled; the issue carries that visit's fields |
| Questionnaire.CheckSuccessGroup | sample_checker.py:805-815 | the group loop body yields exactly the success issue of its group |
| Questionnaire.CheckSuccess | sample_checker.py:804-815 | the group loop yields the success issues of the groups, in order |
| Questionnaire.CheckQuestionnaire | sample_checker.py:747-817 | Rule II yields the row issues of the sorted table followed by the success issues of its groups |
| Content.ContentChecks | sample_checker.py:839-853 | on the raw cells: a guard contact needs option 3 or the word 警衛, an intercom contact needs option 2 or the word 對講機, code 304 needs a guard contact, and 311/312 need a public-servant contact; each check is an exact condition and a visit yields at most four issues |
| Content.GuardCheck | sample_checker.py:834-841 | the guard issue is raised exactly when the raw contact names 警衛 and the visit form has neither option 3 nor the word 警衛 |
| Content.IntercomCheck | sample_checker.py:834-845 | the intercom issue is raised exactly when the raw contact names 對講機 and the visit form has neither option 2 nor the word 對講機 |
| Content.ContactChecks | sample_checker.py:847-853 | the 304 issue is raised exactly when the code is 304 and the contact is not a guard; the public-servant issue exactly when the code is 311 or 312 and the contact is not a public servant |
| Content.GuardNeverNotPublicServant | sample_checker.py:847-853 | a guard contact never draws the public-servant issue |
| Content.CheckContentRow | sample_checker.py:833-853 | the loop body yields the row's Rule III issues, in order |
| Content.CheckContent | sample_checker.py:820-855 | Rule III yields each row's issues in crawl order, without sorting |
| Content.ContentInRowOrder | sample_checker.py:833 | the issues of the first i rows come first, and those of the rest follow |
| LatestCodes.CheckLatestGroup | sample_checker.py:864-874 | the group loop body yields exactly the Rule IV issue of its group |
| LatestCodes.CheckLatestCodes | sample_checker.py:858-876 | Rule IV yields the issues of the groups of the sorted table, group after group |
| LatestCodes.LatestIssuesPerGroup | sample_checker.py:863-874 | Rule IV yields at most one issue per group, under the group's sample |
| LatestCodes.LatestPerSample | sample_checker.py:858-876 | a sample is reported at most once, exactly when the canonical code of its latest visit is one of the sixteen target codes, and then with that visit's fields |
| LatestCodes.TargetExamples | sample_checker.py:859 | 330 is a target code and 100 is not |
| Report.IssuesByMultiset | sample_checker.py:920 | an interviewer's list holds that interviewer's issues as often as all issues do, and no other issue |
| Report.IssueLeTotal | sample_checker.py:923 | the (sample, date) order relates any two issues |
| Report.IssueLeTransitive | sample_checker.py:923 | the (sample, date) order is transitive |
| Report.SortIssues | sample_checker.py:923 | an interviewer's list is written sorted by sample, then date, as a permutation of the list |
| Report.SortedNames | sample_checker.py:920 | the interviewer groups are the distinct interviewer names, strictly increasing |
| Report.SanitizeName | sample_checker.py:921 | each unsafe character becomes `_` and every other character stays |
| Report.SanitizeFacts | sample_checker.py:921 | a sanitised name has the same length, no unsafe character, every safe character in place, is its own sanitised form, and a safe name is unchanged |
| Report.CountTable | sample_checker.py:929 | one summary row per interviewer name, in name order, counting that interviewer's issues |
| Report.CountTableFacts | sample_checker.py:929 | summary names are distinct and exactly the interviewers with an issue, each count is at least 1, and the counts add up to the number of issues |
| Report.SortByCount | sample_checker.py:930 | the summary is sorted by non-increasing count, as a permutation of its rows |
| Report.TotalPermutation | sample_checker.py:930 | sorting the summary does not change its total |
| Report.ReorderedRows | sample_checker.py:930 | sorting the summary keeps its rows and its names distinct |
| Report.FileNamesCollide | sample_checker.py:921-922 | two different names can sanitise to the same file name ("a/b" and "a:b") |
| Report.WriteReports | sample_checker.py:919-930 | one file write per interviewer, in name order, named `interviewer_<sanitised name>.csv` and holding exactly that interviewer's issues sorted by (sample, date); the summary is the count table sorted by count |
| Report.SummaryFacts | sample_checker.py:919-936 | the written summary has distinct names, exactly the interviewers with an issue, counts adding up to the number of issues, and non-increasing counts |
| Report.RunAllChecks | sample_checker.py:879-936 | an unreadable CSV gives (False, 0) and nothing written; otherwise the total is the number of issues of Rules I-IV on the derived table, zero issues give the single summary row (全部, 0) and no files, and otherwise the files and summary are those of `WriteReports` |
| Report.OutcomeTotals | sample_checker.py:912-936 | after a successful run the summary's counts add up to the returned total, which is zero exactly when there are no issues |
| CsvOutput.PadWithFacts | sample_checker.py:604-607 | padding keeps every cell, adds exactly the missing listed columns and fills them with "" |
| CsvOutput.Padded | sample_checker.py:604-607 | a padded row has every fixed column, keeps its own cells, and has "" in each column it lacked |
| CsvOutput.PaddedIdempotent | sample_checker.py:604-607 | padding a padded row changes nothing |
| CsvOutput.PaddedComplete | sample_checker.py:604-607 | a row with every column is not changed |
| CsvOutput.CrawlRow.Pad | sample_checker.py:605-607 | padding one row dictionary in place leaves it equal to its padded form |
| CsvOutput.PadAll | sample_checker.py:604-607 | every listed row dictionary is padded in place, even one listed twice |
| CsvOutput.Line | sample_checker.py:611-613 | a written line has one cell per fixed column, the row's cell or "" |
| CsvOutput.LineOfPadded | sample_checker.py:604-613 | the line of a padded row has the row's own cells, with "" where the row lacked the column |
| CsvOutput.Lines | sample_checker.py:610-613 | the file is the header followed by one line per row, in order |
| CsvOutput.KnownAfterPadding | sample_checker.py:604-613 | padding adds no unknown column |
| CsvOutput.FirstUnknown | sample_checker.py:613 | the index of the first row with a column outside the fixed order, every row before it having none |
| CsvOutput.WriteRows | sample_checker.py:612-613 | the header is written, then the rows in order up to the first one with an unknown column; the write is complete exactly when no row has one |
| CsvOutput.ExtraColumnLeavesHeader | sample_checker.py:610-617 | a single row with an extra column "X" leaves a file holding only the header |
| CsvOutput.LinesAppend | sample_checker.py:613 | writing one more row adds its line at the end of the file |
| CsvOutput.WriteCsv | sample_checker.py:592-617 | no rows gives "" and leaves everything unchanged; otherwise every row is padded in place; a file that does not open gives "" and nothing written; one that opens holds the header and the padded rows before the first row with an unknown column, and the path is returned exactly when there is no such row, else "" |

## Left out

- Reading the crawl CSV, the holiday file, the GUI, progress callbacks, logging, threads and the crawler itself are not modelled. A failed read is the `None` input of `RunAllChecks`, and the holidays are a set of day numbers.
- `load_holidays` (sample_checker.py:673-692) parses a file and is not modelled. Its result is the parameter `holidays`.
- `pd.to_datetime` with each of the six formats and the lenient fallback are the parameter `DateParsers`. Only the order in which `parse_datetime` tries them is modelled.
- Timestamps are whole nanoseconds since 1970-01-01 without time zones. `normalize()` and the weekday are modelled by whole-day division.
- `\d` and `upper()` are modelled on ASCII. Python's `\d` also matches other Unicode digits, and `upper()` also maps non-ASCII letters. So the model differs on such input. For a visit form "３3: x" (a full-width 3 before an ASCII 3), Python reads the number "３3", while the model reads "3"; a guard contact is then reported by the source and not by the model. The session "nıght" (dotless ı) upper-cases to "NIGHT" (晚上) in Python and is unknown in the model.
- Issue messages (`問題描述`) are not rendered. Each issue carries a `Finding` naming its message and the numbers and sessions the message shows. The category is recovered with `Issues.Category`.
- Columns the rules do not read (WorkID, URLs, InterviewerNo, ContactAnsweredAt, HasFill) are dropped from the record. Header stripping (sample_checker.py:887) is not modelled, because the record is already keyed by column.
- The per-interviewer files keep only five columns (sample_checker.py:924). The model writes the whole issue, and the projection is not modelled.
- Report.SortIssues: states only that each file is sorted by (sample, date) and is a permutation of the interviewer's issues. The order of two issues with the same sample and date is not stated.
- Report.SortByCount: states only that the summary has non-increasing counts and is a permutation of the count table. The order among equal counts is not stated, because `sort_values` with its default algorithm is not stable.
- ThreeVisits.CheckGroup: the `else ""` fallback of the mode (sample_checker.py:733) cannot be taken, because a group is never empty, so it has no counterpart in the specification.
- The derived columns are computed by `Table.Derive` as a function of each record rather than by assigning columns to a data frame in place.
- CsvOutput.WriteCsv: opening the file is the parameter `canWrite`. A row with an unknown column is modelled as `writerows` raising at that row. Any other write error, such as a full disk, is not modelled.
- Report.WriteReports: the files are modelled as a list of writes. Two interviewer names that sanitise alike give the same file name, and on disk the later write replaces the earlier one; the model keeps both writes and does not model the file system.
