# Jira effort roll-ups and the Confluence issue grid, modelled in Dafny

The repository turns issue records into effort reports, and this project models that core and proves its properties.

Its Python side has three report builders:

- **Excel importer** (`ExcelDataAggregator`): finds the columns of an exported sheet through a synonym table, normalizes every row into an issue summary, and parses free-form durations such as `8h`, `1.5d`, `2w` or `7:30` into hours. By default it groups the issues by feature link and assignee, and it can also group them by feature alone or by assignee alone.
- **API aggregator** (`JiraDataAggregator`): normalises the issues the Jira REST API returns. It takes the estimate, remaining and spent seconds from a chain of fields that fall back to one another, and resolves each issue's feature link from the epic-link field or from its issue links. The same three tables are then built.
- **Weekly worklog report**: flattens every issue's worklogs into dated rows and moves each date back to the Monday that starts its week. It then sums the hours per feature, assignee and week, in ascending order.

On the JavaScript side, the Confluence macro `JiraMacro` keeps a list of issues and a filtered view of it. It sorts the view by a column, filters it by a search term, and pages through it 25 issues at a time.

Modules, one per component:

| file | module | what it holds |
|---|---|---|
| wrappers.dfy | Wrappers | `Option`, `Result`, the Python exception kinds, `MapAll` |
| text.dfy | Text | `strip`, `lower`, `in`, `replace`, `split`, `join`, string `<` |
| numbers.dfy | Numbers | decimal literals (`float()`), `str(n)`, rounding half to even |
| cells.dfy | Cells | spreadsheet cell values, `pd.isna`, `str()` |
| duration.dfy | Duration | `_parse_time_value` |
| column_mapper.dfy | ColumnMapper | `detect_column_mappings` |
| aggregation.dfy | Aggregation | the `groupby` tables, completion, console totals, top contributors |
| excel_aggregator.dfy | ExcelAggregator | row normalisation and the `ExcelDataAggregator` object |
| jira_aggregator.dfy | JiraAggregator | issue extraction, feature-link resolution, the API summary tables |
| calendar.dfy | Calendar | proleptic Gregorian day ordinals, weekdays, `%Y-%m-%d` |
| worklog.dfy | WeeklyWorklog | worklog extraction and `analyze_time_tracking` |
| grid.dfy | JiraGrid | `getFieldValue`, sorting, filtering, paging, the `JiraMacro` object |

Three behaviours of the code that the model keeps:

- Building a summary from no issues is an error. The Excel importer raises a ValueError. Grouping an empty API frame raises a KeyError, because the frame has no columns.
- Groups come out in ascending key order, as `groupby` sorts them, not in order of first appearance.
- Hours may be negative. Nothing in the parser or the aggregators rejects a negative amount.

## Model

| member | source | states |
|---|---|---|
| Wrappers.MapAllOk | python-api/gemini_jira_data_aggregator.py:69-73 | the date conversion and the week-start `apply` of `WeeklyWorklog.Analysis` succeed exactly when every cell converts, and then hold each cell's converted value in place |
| Wrappers.MapAllErr | python-api/gemini_jira_data_aggregator.py:69-73 | the date conversion and the week-start `apply` of `WeeklyWorklog.Analysis` fail with the error of the first cell that fails |
| Text.StripIdempotent | python-api/excel_data_aggregator.py:243 | stripping twice is stripping once |
| Text.StripEnds | python-api/excel_data_aggregator.py:243 | a stripped text neither starts nor ends with a blank |
| Text.ToLowerIdempotent | python-api/excel_data_aggregator.py:243 | lower-casing twice is lower-casing once |
| Text.JoinSplit | python-api/excel_data_aggregator.py:261 | joining the parts of a split with the separator gives back the text |
| Text.StrLessTransitive | python-api/gemini_jira_data_aggregator.py:79 | string order is transitive (with StrLessIrreflexive and StrLessTotal it is a strict total order) |
| Numbers.NatToStringValue | python-api/excel_data_aggregator.py:175 | the number `{idx+1}` written into the `ISSUE-<n>` placeholder key of `ExcelAggregator.PlaceholderKey` has the value of that number |
| Numbers.ParseFloatIntToString | python-api/excel_data_aggregator.py:267 | `float(str(n))` of an integer is that integer |
| Numbers.ParseFloatDecimal | python-api/excel_data_aggregator.py:267 | `float()` reads a decimal literal as the literal's value |
| Numbers.NotDecimal | python-api/excel_data_aggregator.py:252 | a text holding a character no decimal literal contains is refused by `float()` |
| Numbers.RoundHalfEven | python-api/excel_data_aggregator.py:302 | the chosen integer is within one half of the value, and on a tie it is the even one |
| Numbers.RoundToError | python-api/excel_data_aggregator.py:302 | rounding to p places moves a value by at most half a unit in the last place |
| Numbers.RoundToExact | python-api/excel_data_aggregator.py:302 | a value with p decimals is not moved by rounding to p places |
| Numbers.RoundToIdempotent | python-api/excel_data_aggregator.py:302 | rounding twice to the same places is rounding once |
| Cells.StrInt | python-api/excel_data_aggregator.py:243-267 | the text of an integer cell reads back as that integer |
| Duration.ParseTimeValue | python-api/excel_data_aggregator.py:232-271 | `_parse_time_value`: a missing, empty or numeric cell first, then the text branches, any parse failure giving 0; its promises are in NumberCells, PlainNumber and the branch lemmas below |
| Duration.ParseTimeText | python-api/excel_data_aggregator.py:243-267 | the text branches after strip and lower, the first unit letter deciding; its promises are in NullText, HoursFirst, TextBranch, UnitAmount, ClockText and PlainText |
| Duration.NumberCells | python-api/excel_data_aggregator.py:234-240 | a missing cell or the empty text is 0 hours; an int, float or bool cell is its own number of hours |
| Duration.NullText | python-api/excel_data_aggregator.py:243-247 | a text whose stripped, lower-cased form is `null`, `none`, `n/a`, `-` or empty is 0 hours |
| Duration.UnitAmount | python-api/excel_data_aggregator.py:250-258 | a number followed by `h`, `d` or `w` is that many hours, 8-hour days or 40-hour weeks; followed by a spelled-out unit (`8 hours`, `2days`) it is 0 hours, because the letter is removed first and the rest is no number |
| Duration.HoursFirst | python-api/excel_data_aggregator.py:250-252 | any text containing an `h` is read in hours, whatever other unit letters it holds |
| Duration.TextBranch | python-api/excel_data_aggregator.py:250-258 | the first of `h`, `d`, `w` present picks the unit |
| Duration.ClockReading | python-api/excel_data_aggregator.py:259-264 | `H:MM`, with any further `:` parts, is H hours plus MM minutes over 60 |
| Duration.ClockText | python-api/excel_data_aggregator.py:259-264 | a text without unit letters that holds a `:` is read as a clock time |
| Duration.PlainText | python-api/excel_data_aggregator.py:265-271 | a text without unit letters or `:` is its `float()` value, and 0 when that fails |
| Duration.PlainNumber | python-api/excel_data_aggregator.py:265-267 | a plain decimal text is that many hours |
| Duration.WordRemovalsDead | python-api/excel_data_aggregator.py:252-258 | the removals of the plural and singular unit words never change anything, since the letter is gone already |
| ColumnMapper.Normalized | python-api/excel_data_aggregator.py:86 | one lower-cased, stripped column per header, in header order |
| ColumnMapper.Matches | python-api/excel_data_aggregator.py:118 | the matches are exactly the columns that contain the pattern |
| ColumnMapper.ExactMatches | python-api/excel_data_aggregator.py:121 | the exact matches are exactly the matches equal to the pattern |
| ColumnMapper.IndexOf | python-api/excel_data_aggregator.py:123-125 | `list.index` gives the first position holding the value |
| ColumnMapper.Choose | python-api/excel_data_aggregator.py:118-125 | the header one pattern selects: an exact match first, else the first containing column; promised by ChooseExact, ChooseSubstring and MappingIsHeader |
| ColumnMapper.MappingFor | python-api/excel_data_aggregator.py:116-126 | the header the first selecting pattern of a field gives, the `break` ending the search; promised by FirstPatternDecides, DetectedHas and MappingAbsent |
| ColumnMapper.DetectColumnMappings | python-api/excel_data_aggregator.py:114-128 | a field is in the result exactly when one of its patterns selects a header, and it maps to what its first occurring pattern selects |
| ColumnMapper.FindHeader | python-api/excel_data_aggregator.py:117-126 | the pattern loop of one field gives what its first occurring pattern selects |
| ColumnMapper.DetectedHas | python-api/excel_data_aggregator.py:114-128 | a field is mapped exactly when one of its patterns selects a header |
| ColumnMapper.FirstPatternDecides | python-api/excel_data_aggregator.py:117-126 | the first pattern that occurs in any header decides the field, even when a later pattern matches a header exactly |
| ColumnMapper.ChooseExact | python-api/excel_data_aggregator.py:120-123 | a header that normalizes to the pattern itself is preferred, the first such header in header order |
| ColumnMapper.ChooseSubstring | python-api/excel_data_aggregator.py:124-125 | without an exact match, the first header containing the pattern is chosen |
| ColumnMapper.MappingIsHeader | python-api/excel_data_aggregator.py:123-125 | a mapped field names one of the original, unnormalized headers |
| ColumnMapper.MappingAbsent | python-api/excel_data_aggregator.py:116-126 | a field stays unmapped exactly when none of its patterns occurs in any header |
| ColumnMapper.NormalizedLower | python-api/excel_data_aggregator.py:118 | lower-casing a normalized header again, as the match test does, changes nothing |
| ExcelAggregator.NormalizeRow | python-api/excel_data_aggregator.py:174-220 | the body of the row loop for one row; promised by PlaceholderRule, EmptyAssignee, PlaceholderKey, UnmappedHours and CompletionGuard |
| ExcelAggregator.ProcessSheet | python-api/excel_data_aggregator.py:156-230 | the mapping, the required-column check and one issue per row; promised by RequiredFields and OneIssuePerRow, and the loop of ProcessExcelData is proved equal to it |
| ExcelAggregator.RequiredFields | python-api/excel_data_aggregator.py:159-166 | processing fails, with a ValueError, exactly when the key or the summary column is unmapped, whatever the rows |
| ExcelAggregator.OneIssuePerRow | python-api/excel_data_aggregator.py:170-229 | otherwise there is one issue per row, in row order, each the normalization of its row |
| ExcelAggregator.PlaceholderRule | python-api/excel_data_aggregator.py:179-190 | a defaulted field gets its placeholder exactly when the cell is NaN, blank or the placeholder itself; otherwise the value is kept stripped and non-empty |
| ExcelAggregator.EmptyAssignee | python-api/excel_data_aggregator.py:179-190 | a missing, NaN or blank assignee or feature-link cell gives `Unassigned` or `No Feature Link`; an assignee with text keeps that text, stripped |
| ExcelAggregator.PlaceholderKey | python-api/excel_data_aggregator.py:175 | a row without the key column is keyed `ISSUE-<n>` with its 1-based position (a branch the source never reaches, see "## Left out") |
| ExcelAggregator.UnmappedHours | python-api/excel_data_aggregator.py:193-200 | an unmapped hour column counts as 0 hours, leaving a completion of 0 |
| ExcelAggregator.CompletionGuard | python-api/excel_data_aggregator.py:197-200 | completion is 0 unless the estimate is positive, and then spent / estimate × 100 |
| ExcelAggregator.Efforts | python-api/excel_data_aggregator.py:280-292 | one aggregation record per processed issue, carrying its feature link and assignee |
| ExcelAggregator.ExcelDataAggregator.ProcessExcelData | python-api/excel_data_aggregator.py:149-230 | returns the processed sheet; on success the object keeps exactly those issues, and on failure it keeps its old ones |
| ExcelAggregator.ExcelDataAggregator.CreateAggregatedSummary | python-api/excel_data_aggregator.py:273-314 | fails with a ValueError exactly when no issue has been processed; otherwise gives the summary by feature link and assignee of the processed issues |
| ExcelAggregator.ExcelDataAggregator.ExportTables | python-api/excel_data_aggregator.py:368-421 | fails exactly when no issue has been processed; otherwise its tables are the summaries of the processed issues by feature and assignee, by feature and by assignee, the first being the aggregated summary |
| ExcelAggregator.ExportedTables | python-api/excel_data_aggregator.py:397-421 | each exported table has one row per distinct key of its grouping, strictly ascending, each with its group's figures, and the counts add up to the number of processed issues |
| ExcelAggregator.SummaryCountsIssues | python-api/excel_data_aggregator.py:297-304 | the issue counts of the summary add up to the number of processed issues |
| Aggregation.TotalIssues | python-api/excel_data_aggregator.py:301 | the `count` column sums to the number of issues |
| Aggregation.GroupKeys | python-api/excel_data_aggregator.py:297 | the group keys are strictly ascending and are exactly the keys some issue has |
| Aggregation.Select | python-api/excel_data_aggregator.py:297 | a group holds exactly the issues with its key |
| Aggregation.InsertKey | python-api/excel_data_aggregator.py:297 | adding a key keeps the key list ascending and adds just that key |
| Aggregation.CompletionOf | python-api/excel_data_aggregator.py:307-311 | `(spent / estimated * 100).fillna(0).round(1)`; promised by CompletionZeroEstimate and CompletionNonzero |
| Aggregation.RowFor | python-api/excel_data_aggregator.py:297-311 | one row of the grouped table: rounded sums, count and completion of its group; promised by RowRounding and SummarizeCounts |
| Aggregation.Summarize | python-api/excel_data_aggregator.py:297-313 | the grouped table in ascending key order; promised by SummarizeKeys, SummarizeCounts, SummarizeConserves and TablesSpec |
| Aggregation.SummarizeKeys | python-api/excel_data_aggregator.py:297-313 | one row per distinct key, strictly ascending, each with its own group's figures |
| Aggregation.TablesSpec | python-api/excel_data_aggregator.py:297-313 | each of the three tables has one row per distinct key of its grouping, strictly ascending, each with its group's figures, and the counts add up to the number of issues |
| Aggregation.SummarizeCounts | python-api/excel_data_aggregator.py:297-304 | every row counts at least one issue, and the counts add up to the number of issues |
| Aggregation.SummarizeConserves | python-api/excel_data_aggregator.py:297-302 | the exact group sums of each hour column add up to the column's total: grouping loses and duplicates nothing |
| Aggregation.Conservation | python-api/excel_data_aggregator.py:297-302 | over any distinct keys that cover every issue, the group sums add up to the total |
| Aggregation.CountsAreTotals | python-api/excel_data_aggregator.py:301-304 | the issue counts add up to the group sums of the count column |
| Aggregation.RowRounding | python-api/excel_data_aggregator.py:297-302 | every rounded hour cell is within 0.005 of the exact sum of its group |
| Aggregation.CompletionZeroEstimate | python-api/excel_data_aggregator.py:307-311 | with a zero estimate, only 0 spent becomes 0 %; positive or negative spent hours stay an infinity of their sign |
| Aggregation.CompletionNonzero | python-api/excel_data_aggregator.py:307-311 | with a nonzero estimate the completion is within 0.05 of spent / estimated × 100 |
| Aggregation.Features | python-api/excel_data_aggregator.py:323 | the sections are the distinct feature links of the summary, each once |
| Aggregation.FeaturesOrder | python-api/excel_data_aggregator.py:323 | the sections come in order of first appearance: every row of a later feature follows some row of each earlier one |
| Aggregation.WithoutOrder | python-api/excel_data_aggregator.py:323 | dropping the first row's feature from the later ones keeps their relative order |
| Aggregation.FeatureRows | python-api/excel_data_aggregator.py:324 | a section holds exactly the summary rows of its feature |
| Aggregation.SumRows | python-api/excel_data_aggregator.py:338 | each column of the totals is that column summed on its own over the rows |
| Aggregation.GrandCount | python-api/excel_data_aggregator.py:349-358 | the grand total of issues is the number of issues |
| Aggregation.GrandTotals | python-api/excel_data_aggregator.py:349-358 | the grand issue total is the number of issues, and each grand hours total is within 0.005 per summary row of the issues' exact total |
| Aggregation.ConsoleCompletion | python-api/excel_data_aggregator.py:339 | the console percentage, guarded by a positive estimate; promised by ConsoleGuard |
| Aggregation.ConsoleGuard | python-api/excel_data_aggregator.py:339 | a printed percentage is 0 unless the estimate is positive, and then spent / estimated × 100 |
| Aggregation.AssigneeTotals | python-api/excel_data_aggregator.py:364 | one total per distinct assignee of the summary and no other, each with the summed spent hours and issue counts of that assignee's rows |
| Aggregation.SortBySpent | python-api/excel_data_aggregator.py:364 | the totals sorted by spent hours are descending and a permutation of the unsorted ones |
| Aggregation.TopContributors | python-api/excel_data_aggregator.py:364-366 | the first five assignee totals by descending spent hours; promised by TopContributorsSpec |
| Aggregation.TopContributorsSpec | python-api/excel_data_aggregator.py:364-366 | the top contributors are min(5, n) assignee totals, descending, and no total left out has more spent hours than the last one shown |
| Aggregation.HeadFacts | python-api/excel_data_aggregator.py:365 | the first five of a descending list are its largest, in order |
| JiraAggregator.Grouped | python-api/jira_data_aggregator.py:256-279 | grouping fails exactly when there are no issues or a key is not text; no issues gives a KeyError on `Feature Link`; otherwise it is the summary of the issues' figures by that grouping |
| JiraAggregator.ExportTables | python-api/jira_data_aggregator.py:295-321 | the tables fail exactly when the aggregated summary fails; otherwise they are the three summaries of the issues' figures, the first being the aggregated summary |
| JiraAggregator.ExportedTables | python-api/jira_data_aggregator.py:295-321 | the three sheets are the groupings by feature and assignee, by feature and by assignee, and each has one row per distinct key, ascending, with its group's figures and counts adding up to the number of issues |
| JiraAggregator.Seconds | python-api/jira_data_aggregator.py:168-179 | the `or` chain of the primary field, the aggregate field and 0; promised by SecondsChain |
| JiraAggregator.Hours | python-api/jira_data_aggregator.py:182-184 | `seconds / 3600 if seconds else 0`; promised by SecondsNumeric and TextSeconds |
| JiraAggregator.TimeTracking | python-api/jira_data_aggregator.py:168-184 | the three hour figures, in the order computed; promised by TimeTrackingHours |
| JiraAggregator.LinkedFeature | python-api/jira_data_aggregator.py:216-227 | one end of a link, a candidate when its type names an epic or feature; promised by LinkedFeatureRule |
| JiraAggregator.LinkCandidate | python-api/jira_data_aggregator.py:214-227 | one link: skipped unless its type is allowed, then inward before outward; promised by LinkTypeIgnored, InwardFirst and OutwardSecond |
| JiraAggregator.ExtractFeatureLink | python-api/jira_data_aggregator.py:204-229 | `_extract_feature_link`; promised by EpicLinkWins, FirstLinkDecides, NoFeatureLink and SentinelOnlyWhenNothingFound |
| JiraAggregator.ExtractIssueSummary | python-api/jira_data_aggregator.py:156-202 | `extract_issue_summary`; promised by AssigneeRule, MissingFieldsEmpty and SummaryParts |
| JiraAggregator.CreateSummaryReport | python-api/jira_data_aggregator.py:231-254 | the detailed table, one summary per issue; promised by ReportRows and ReportError |
| JiraAggregator.CreateAggregatedSummary | python-api/jira_data_aggregator.py:256-279 | the grouping by feature link and assignee; promised by Grouped, SummaryCountsIssues and TablesKeys |
| JiraAggregator.TimeTrackingHours | python-api/jira_data_aggregator.py:168-184 | with numeric time fields, each figure is the primary field when it is nonzero, else the aggregate field, else 0, in hours; a primary 0 falls through |
| JiraAggregator.SecondsChain | python-api/jira_data_aggregator.py:168-179 | the seconds are the first truthy value of the primary field and the aggregate field, else 0 |
| JiraAggregator.SecondsNumeric | python-api/jira_data_aggregator.py:168-184 | numeric fields always give a figure, which is the reference reading divided by 3600 |
| JiraAggregator.TextSeconds | python-api/jira_data_aggregator.py:168-184 | a non-empty text in a time field makes the extraction fail with a TypeError on division |
| JiraAggregator.AssigneeRule | python-api/jira_data_aggregator.py:161-162 | a null assignee is `Unassigned`; an assignee object gives its `displayName`, or `Unassigned` without one |
| JiraAggregator.EpicLinkWins | python-api/jira_data_aggregator.py:207-209 | a truthy epic-link field is the feature link verbatim, whatever the links hold |
| JiraAggregator.LinkTypeIgnored | python-api/jira_data_aggregator.py:214 | a link whose lower-cased type name is not `epic-story`, `feature-story` or `relates` is skipped |
| JiraAggregator.InwardFirst | python-api/jira_data_aggregator.py:216-220 | an inward issue that is an epic or feature supplies the link before the outward one is looked at |
| JiraAggregator.OutwardSecond | python-api/jira_data_aggregator.py:222-227 | without an inward candidate, the outward issue decides |
| JiraAggregator.LinkedFeatureRule | python-api/jira_data_aggregator.py:217-220 | a linked issue is a candidate exactly when its lower-cased type contains `epic` or `feature`, and it supplies its key, or `''` without one |
| JiraAggregator.FirstLinkDecides | python-api/jira_data_aggregator.py:212-227 | without an epic link, the first link in order with a candidate supplies the feature link |
| JiraAggregator.NoFeatureLink | python-api/jira_data_aggregator.py:229 | with no epic link and no candidate link the result is exactly `No Feature Link` |
| JiraAggregator.SentinelOnlyWhenNothingFound | python-api/jira_data_aggregator.py:212-229 | the scan finds nothing exactly when no link has a candidate; when it finds one, that is the feature link |
| JiraAggregator.MissingFieldsEmpty | python-api/jira_data_aggregator.py:189-201 | a missing key, summary, created or updated, and a missing `name` in status, priority or issue type, become `''` |
| JiraAggregator.SummaryParts | python-api/jira_data_aggregator.py:156-201 | a summary carries the resolved assignee, the three time figures and the resolved feature link |
| JiraAggregator.ReportRows | python-api/jira_data_aggregator.py:231-254 | the report succeeds exactly when every issue extracts, and then has one row per issue, in order |
| JiraAggregator.ReportError | python-api/jira_data_aggregator.py:233 | a failing issue makes the report fail with the first failure |
| JiraAggregator.SummaryCountsIssues | python-api/jira_data_aggregator.py:258-264 | the issue counts of the summary add up to the number of issues |
| JiraAggregator.TablesKeys | python-api/jira_data_aggregator.py:295-321 | every table has one row per distinct key, strictly ascending, each with its own group's rounded sums, count and completion |
| Calendar.Ordinal | python-api/gemini_jira_data_aggregator.py:73 | `date.toordinal()`, on which the week arithmetic works; promised by FirstDay, NextDayOrdinal and YearLength |
| Calendar.Weekday | python-api/gemini_jira_data_aggregator.py:73 | `x.weekday()`, Monday 0 to Sunday 6; promised by WeekStartMonday |
| Calendar.WeekStart | python-api/gemini_jira_data_aggregator.py:73 | `x - timedelta(days=x.weekday())`; promised by WeekStartMonday, SameWeek and FirstWeekOutOfBounds |
| Calendar.DaysInMonth | python-api/gemini_jira_data_aggregator.py:44 | every month has 28 to 31 days |
| Calendar.NextDayOrdinal | python-api/gemini_jira_data_aggregator.py:69 | the day after a valid date is valid and has the next ordinal |
| Calendar.YearLength | python-api/gemini_jira_data_aggregator.py:69 | a year has 366 days when it is a leap year and 365 otherwise |
| Calendar.FirstDay | python-api/gemini_jira_data_aggregator.py:69 | 1 January of year 1 is day 1 |
| Calendar.WeekStartMonday | python-api/gemini_jira_data_aggregator.py:73 | the week start is a Monday 0 to 6 days before the date, and the latest Monday not after it |
| Calendar.SameWeek | python-api/gemini_jira_data_aggregator.py:73 | two days share a week start exactly when the second lies in the 7 days from the first's week start |
| Calendar.FirstWeekOutOfBounds | python-api/gemini_jira_data_aggregator.py:73 | the earliest representable timestamp is a Wednesday, so its week start is not representable |
| Calendar.ParseDate | python-api/gemini_jira_data_aggregator.py:44 | a parsed date is a valid calendar date |
| Calendar.Format | python-api/gemini_jira_data_aggregator.py:47 | a formatted date has 10 characters |
| Calendar.ParseFormat | python-api/gemini_jira_data_aggregator.py:44-47 | formatting a valid date and parsing it back gives the date |
| Calendar.ShortTokens | python-api/gemini_jira_data_aggregator.py:44 | any date with a single-digit month and day is read from its unpadded text |
| Calendar.TrailingRefused | python-api/gemini_jira_data_aggregator.py:44 | a written date followed by any further text is refused |
| Calendar.ImpossibleDayRefused | python-api/gemini_jira_data_aggregator.py:44 | well-formed month and day tokens naming a day the month does not have are refused |
| WeeklyWorklog.RowOf | python-api/gemini_jira_data_aggregator.py:32-51 | the row of one worklog, or nothing when its day does not parse; promised by RowContents and LoggedHoursClose |
| WeeklyWorklog.Extracted | python-api/gemini_jira_data_aggregator.py:28-51 | the rows of all issues, issue by issue; promised by ExtractedFails, IssueRowsAt, ExtractedAppend and ExtractedCount |
| WeeklyWorklog.FetchJiraWorklogs | python-api/gemini_jira_data_aggregator.py:26-57 | the loops collect every worklog's row, issue by issue, or give no rows when a worklog's day is unreadable |
| WeeklyWorklog.ExtractedFails | python-api/gemini_jira_data_aggregator.py:38-57 | extraction fails exactly when some worklog's start day does not parse |
| WeeklyWorklog.IssueRowsAt | python-api/gemini_jira_data_aggregator.py:38-51 | an issue gives one row per worklog, in worklog order |
| WeeklyWorklog.ExtractedAppend | python-api/gemini_jira_data_aggregator.py:28-51 | the rows of two runs of issues are the first run's rows followed by the second's |
| WeeklyWorklog.OneIssue | python-api/gemini_jira_data_aggregator.py:28-51 | one issue's extraction is its own rows |
| WeeklyWorklog.ExtractedCount | python-api/gemini_jira_data_aggregator.py:28-51 | a successful extraction has one row per worklog |
| WeeklyWorklog.RowContents | python-api/gemini_jira_data_aggregator.py:32-51 | a row carries the issue key as feature link, the assignee or `Unassigned`, the rounded hours, and a date that reads back as the worklog's day |
| WeeklyWorklog.LoggedHoursClose | python-api/gemini_jira_data_aggregator.py:41 | the logged hours are the seconds in hours to within 0.005 |
| WeeklyWorklog.ExtractedDatesParse | python-api/gemini_jira_data_aggregator.py:44-47 | every extracted date reads back as a date |
| WeeklyWorklog.FrameOf | python-api/gemini_jira_data_aggregator.py:53 | one frame row per extracted row |
| WeeklyWorklog.Analysis | python-api/gemini_jira_data_aggregator.py:59-81 | what `analyze_time_tracking` returns; promised by EmptyFrame and AnalysisSpec |
| WeeklyWorklog.Weekly | python-api/gemini_jira_data_aggregator.py:76-79 | the weekly groupby and its sort; promised by Keys and WeeklySpec |
| WeeklyWorklog.WorklogFrame.AnalyzeTimeTracking | python-api/gemini_jira_data_aggregator.py:59-81 | returns the analysis of the frame; an empty frame or a failed date conversion leaves it unchanged; otherwise the date column is converted in place and the week-start column is added when it can be computed |
| WeeklyWorklog.WeekKeyLessTransitive | python-api/gemini_jira_data_aggregator.py:79 | the (feature, assignee, week) order is transitive (with WeekKeyLessIrreflexive and WeekKeyLessTotal a strict total order) |
| WeeklyWorklog.Keys | python-api/gemini_jira_data_aggregator.py:76 | the keys are strictly ascending and exactly those some entry has |
| WeeklyWorklog.WeeklySpec | python-api/gemini_jira_data_aggregator.py:76-79 | one row per distinct key, strictly ascending, each with the summed hours of its key, and the rows' hours add up to all the hours |
| WeeklyWorklog.Conservation | python-api/gemini_jira_data_aggregator.py:76 | over any distinct keys that cover every entry, the group sums add up to the total |
| WeeklyWorklog.EntriesTotal | python-api/gemini_jira_data_aggregator.py:76 | keying the frame rows keeps their hours |
| WeeklyWorklog.EmptyFrame | python-api/gemini_jira_data_aggregator.py:64-66 | an empty frame gives an empty result |
| WeeklyWorklog.AnalysisSpec | python-api/gemini_jira_data_aggregator.py:69-79 | a successful analysis has one row per (feature, assignee, week start) present in the frame, strictly ascending, every week start a Monday, and the hours add up to the frame's hours |
| JiraGrid.GetFieldValue | jira-macro.js:203-230 | `getFieldValue`; promised by NoIssue, MissingFields, ReferenceNames, LabelList, NamedList and OtherField |
| JiraGrid.NoIssue | jira-macro.js:203-204 | reading a field of an undefined or null issue is a TypeError |
| JiraGrid.MissingFields | jira-macro.js:203-230 | a missing assignee is `Unassigned`, a missing reporter `Unknown`, and a missing reference or list field `''` |
| JiraGrid.ReferenceNames | jira-macro.js:209-220 | an assignee or reporter gives its `displayName`; a status, priority, type or project gives its `name` |
| JiraGrid.LabelList | jira-macro.js:223-224 | a list of labels is shown joined with `, ` |
| JiraGrid.NamedList | jira-macro.js:221-226 | fix versions and components show as their elements' names joined with `, `; reading the name of an undefined or null element fails |
| JiraGrid.OtherField | jira-macro.js:227-228 | any other field is `fields[field] \|\| ''` |
| JiraGrid.StableSort | jira-macro.js:253-262 | the stable sort with the comparator of `sortIssues`; promised by SortPermutes, SortOrdered and SortStable |
| JiraGrid.SortToggles | jira-macro.js:251 | sorting a new column is ascending; sorting the same column again flips the direction, and back |
| JiraGrid.SortPermutes | jira-macro.js:253-262 | sorting is a permutation |
| JiraGrid.SortOrdered | jira-macro.js:253-262 | sorted issues are ordered by their column value in the chosen direction |
| JiraGrid.SortStable | jira-macro.js:253-262 | issues with equal column values keep their relative order |
| JiraGrid.BeforeTransitive | jira-macro.js:256-261 | the comparator's strict order is transitive, so the sorted order is well defined |
| JiraGrid.BeforeIrreflexive | jira-macro.js:256-261 | issues with equal column values are never strictly ordered |
| JiraGrid.AnyOfMeaning | jira-macro.js:286-289 | `some` is true exactly when some field matches with no throw before it, and false exactly when every field does not match |
| JiraGrid.Filtered | jira-macro.js:280-291 | the list `filterIssues` assigns; promised by FilterSucceeds and FilterSpec |
| JiraGrid.FilterSucceeds | jira-macro.js:285-290 | filtering succeeds exactly when every test succeeds |
| JiraGrid.FilterSpec | jira-macro.js:280-290 | with a non-blank term the filtered list keeps, in order, exactly the issues some displayed field of which contains the lower-cased term |
| JiraGrid.Page | jira-macro.js:298-302 | a page holds at most 25 issues |
| JiraGrid.TotalPages | jira-macro.js:305 | the page count is n / 25 rounded up |
| JiraGrid.PageContents | jira-macro.js:298-302 | page p holds the items from (p-1)·25 to p·25, clipped to the list |
| JiraGrid.PageIndex | jira-macro.js:298-302 | item i is item i mod 25 of page i / 25 + 1 |
| JiraGrid.PageInRange | jira-macro.js:298-305 | a page in range is non-empty, and every page but the last is full |
| JiraGrid.ShownRange | jira-macro.js:309-310 | "Showing a-b" names exactly the issues of the page |
| JiraGrid.Window | jira-macro.js:328-335 | the first and last page button; promised by WindowFacts |
| JiraGrid.WindowFacts | jira-macro.js:326-334 | on a page in range the window is min(5, total) consecutive pages of [1, total], the current one among them |
| JiraGrid.TruncateText | jira-macro.js:379-383 | falsy text gives `''`; longer text gives its first characters and `...`; other text is kept |
| JiraGrid.TruncateBound | jira-macro.js:379-383 | the result is at most 3 characters longer than the limit; it is the text itself or its first `maxLength` characters and `...`, exactly `maxLength + 3` long when the text was longer |
| JiraGrid.JiraMacro.constructor | jira-macro.js:6-21 | the shown fields are the option's or the defaults; no issues; unsorted ascending; page 1 |
| JiraGrid.JiraMacro.LoadIssues | jira-macro.js:72-73 | the loaded issues, or none, become both lists; sort and page are kept |
| JiraGrid.JiraMacro.SortIssues | jira-macro.js:250-268 | records the column and the toggled direction, stably sorts the filtered issues in that direction, returns to page 1 and leaves the issue list alone |
| JiraGrid.JiraMacro.FilterIssues | jira-macro.js:280-296 | on success the filtered list is the filter of all issues and the page is 1; a TypeError leaves the state as it was |
| JiraGrid.JiraMacro.GoToPage | jira-macro.js:348-351 | sets the page without a bounds check; the page is valid exactly when it is in range |
| JiraGrid.JiraMacro.GetPaginatedIssues | jira-macro.js:298-302 | at most 25 issues, the slice of the current page |
| JiraGrid.JiraMacro.RenderPageNumbers | jira-macro.js:326-346 | one button per page of the window, in order, the current one active |
| JiraGrid.JiraMacro.RenderPagination | jira-macro.js:304-324 | no bar for at most one page; otherwise the shown range, previous and next buttons disabled at the ends, and the window's page numbers with exactly the current page marked active |

## Left out

- Network and login: `fetch_issues`, `test_connection`, the Jira client in `fetch_jira_worklogs`, and the macro's `fetchJiraData` and the fetch part of `loadIssues`. Issues are parameters; `JiraGrid.JiraMacro.LoadIssues` models only the assignment of the loaded list.
- File and console I/O: loading and writing workbooks, configuration files, every `print_*` routine, and logging. Only their arithmetic is kept: section totals, grand totals and top contributors. `python-api/field_inspector.py`, `python-api/example_usage.py` and `python-api/integration_demo.py` are not part of this model.
- DOM rendering: `render`, `renderTable`, the row and cell renderers, loading and error views, the event wiring and locale-dependent `formatDate`. `JiraGrid.JiraMacro.RenderPagination` gives the bar's data, not its HTML.
- Floating point: hours are exact reals. `round(x, n)` is modelled as rounding half to even on the exact value.
- `float()`: only decimal literals with an optional sign and surrounding blanks. `inf`, `nan`, exponents and underscores are refused.
- Case folding and blanks: case folding is ASCII only. Python blanks are the ASCII ones. JavaScript `trim` keeps its own Unicode set.
- Strings are code-point sequences: JavaScript's UTF-16 length and ordering are not modelled.
- Excel date cells appear as the text they print as. Duplicate header names are not modelled.
- The per-row `except` of `process_excel_data` (excel_data_aggregator.py:222-226) is not modelled. In the source it is reached only by integer cells too large for Python's conversions, which the model does not treat as failing (next three lines). No other modelled cell makes a row raise, so the model skips no row.
- Duration.ParseTimeValue: an int cell with |n| ≥ 2^1024 makes `float(value)` raise an OverflowError, which `_parse_time_value` does not catch. The model reads it as n hours, because its integers are unbounded.
- Duration.NumberCells: the same oversized int cell is its own number of hours here, where the source raises.
- ExcelAggregator.OneIssuePerRow: in the source, a row is skipped by the per-row `except` when an int cell overflows `float()`, or when `str()` refuses an int of more than 4300 digits (Python 3.11 and later, lines 175-205). The model keeps every row, so it promises one issue per row where the source may give fewer.
- ExcelAggregator.ExcelDataAggregator.ProcessExcelData: completion is derived from the stored hours rather than stored beside them, which is the same value.
- JiraAggregator.Grouped: a feature link or assignee that is not text is an error here. pandas would drop a null key, or group mixed values in its own order.
- JiraAggregator.SummaryCountsIssues: counts every issue. pandas' `count` skips a null issue key, which the model does not represent.
- ExcelAggregator.PlaceholderKey: the `ISSUE-<n>` default is dead code in the source. `process_excel_data` raises unless the key column is mapped (excel_data_aggregator.py:159-166), and a pandas row holds every column, so `row.get` always finds the key. The lemma's requirement is met only by a model row that lacks a header, and the row is kept to record what the default would give.
- JiraAggregator.ExtractFeatureLink: a string or an object in place of the link list is iterated as Python would, but only far enough to tell empty from non-empty. An empty one yields no links. A non-empty one fails with an AttributeError on `get`, which is what its first item, a string, raises.
- WeeklyWorklog: `pd.to_datetime` is modelled for `%Y-%m-%d` texts and timestamps only. Dates outside pandas' nanosecond range (1677-09-22 to 2262-04-11 as whole days) are a ValueError. Years before 1000 are rendered zero-padded.
- WeeklyWorklog: the assignee is a name or nothing. An error raised while reading `issue.fields.worklog` itself is not modelled.
- JavaScript values carry no numbers: every field value is undefined, null, a boolean, a string, an object or an array.
- JiraGrid.JiraMacro.SortIssues: requires every sort value to be a string. With other values JavaScript compares after conversions, which the model leaves out.
- JiraGrid.JiraMacro.FilterIssues: the filtered list is a value, so the model does not capture aliasing. In the source it is always a fresh array.
- JiraGrid.JiraMacro.constructor: `...options` copies every key present in `options` over its default, whatever the value. So a `fields` given as null, false, `''` or undefined replaces the default columns. The model takes `fields` as absent or as a list of names, so those values are not modelled. The other options (`jql`, `maxResults`, `title`, `sortBy`) serve only the fetch and the rendering, which are left out.
- Aggregation.SortBySpent: the order among contributors with equal spent hours is the model's choice, the order its insertion sort leaves them in, because pandas' default sort does not promise one.
