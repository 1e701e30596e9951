# EDI case-study data pipeline, modelled in Dafny

The pipeline turns a spreadsheet of EDI case studies into the JSON files
that three charts read:

- `convertExcelToJson.js` normalises each spreadsheet row into a case record:
  - the issue is defaulted to "Undefined";
  - the publication date is rewritten as `YYYY-MM-DD`, whether it was a
    spreadsheet serial number, `YYYY-MM-DD` text, `DD/MM/YYYY` text or any
    other text `new Date` accepts;
  - the `;`-separated disciplines are split and trimmed;
  - rows whose date is missing or does not parse are dropped; a date cell
    holding the empty string is kept as "" (see Findings).

  The result is `data.json`.
- Four scripts then work on those records:
  - `aggregatedata.js` counts the records per publication year
    (`aggregatedData.json`).
  - `processBarChartData.js` counts every (year, discipline, issue)
    combination. It flattens the nested counts and sorts them by year
    (`barChartData.json`).
  - `processSankeyData.js` builds a Sankey graph. Node 0 is "All Cases",
    followed by one node per issue in first-seen order. Each issue has one
    link per year, years ascending, and each link's value is the running
    total of the issue's cases up to that year (`sankeyData.json`).
  - `bar-chart-script.js`, on the page, filters the bar-chart entries by the
    selected issues and disciplines. It offers each distinct issue and
    discipline once as an option.

The model follows each script's own form:
- The scripts' `forEach` loops are Dafny methods with `for`/`while` loops.
  Each method is proved equal to a specification function of its input.
- The pure pieces are functions:
  - the date parser;
  - the row mapping and the filter;
  - the `Object.keys(...).map` of the year counts;
  - the page's `filterData` and option lists.
- The properties the outputs promise are lemmas about those functions:
  - counts, coverage and uniqueness;
  - totals and order;
  - canonical dates;
  - running totals.

The JavaScript semantics the scripts depend on are modelled explicitly:

| Module | JavaScript behaviour |
|---|---|
| `JsText` | `trim`, `split` |
| `JsNumbers` | `Number(text)` and `parseInt(text, 10)`; number-to-text conversion of integers |
| `JsObjects` | Plain objects used as dictionaries, with the key order of `Object.keys` (array-index keys ascending, then the other keys in insertion order) |
| `JsDates` | `new Date(y, m, d)`, `new Date(ms)`, `new Date("YYYY-MM-DD")`, `toISOString()`, and `getFullYear()` of a canonical date string |
| `Calendar` | The proleptic Gregorian calendar behind `JsDates` |

`Seqs` holds the list helpers:
- filtering;
- first-seen de-duplication, which is how `new Set` iterates;
- the stable sort of `Array.prototype.sort`;
- sums.

A record's year is `Option<int>`. None stands for the NaN that `getFullYear()`
returns for an invalid date. NaN is used as the object key "NaN", and
`parseInt` reads that key back as NaN.

Three behaviours of the code differ from what a reader of the scripts might
expect; the model follows the code:
- **Year order of the year counts.** One might expect the year counts in order of
  first occurrence. But `Object.keys(countsByYear)` lists array-index keys in
  ascending numeric order, so the year counts come out in ascending year order
  for non-negative years (`AggregateData.AggregatedOrder`).
- **Spreadsheet serial 44927.** One might take it for 2023-01-15. It is
  2023-01-01 (`ConvertExcelToJson.Serial44927`).
- **The Sankey default issue.** One might expect a record with an empty issue to
  be counted under "Undefined", as in the conversion. The Sankey script counts it
  under "No EDI Primary Case".

## Model

| member | source | states |
|---|---|---|
| ConvertExcelToJson.IsExcelDate | convertExcelToJson.js:5-7 | a cell is a serial date exactly when its text converts to a finite number strictly between 0 and 2958466 |
| ConvertExcelToJson.ExcelDateToJsDate | convertExcelToJson.js:9-15 | serial `s` becomes midnight of day `floor(s) - 25569` after 1970-01-01: the time of day is dropped and rebuilding the date from its parts changes nothing |
| ConvertExcelToJson.ExcelDaysYear | convertExcelToJson.js:10-14 | every serial day lies in 1899 or later, so the two-digit-year rule of `new Date(y, m, d)` never applies to the rebuilt date |
| ConvertExcelToJson.ParseDate | convertExcelToJson.js:17-35 | any date `parseDate` returns lies within the time-value range of a `Date` |
| ConvertExcelToJson.ShapesAreNotSerials | convertExcelToJson.js:5-27 | `YYYY-MM-DD` and `DD/MM/YYYY` text is NaN as a number, so the serial branch never takes it and the order of the tests does not matter for these shapes |
| ConvertExcelToJson.DigitCellIsSerial | convertExcelToJson.js:18-19 | a cell of digits with value in (0, 2958466) takes the serial branch: day `value - 25569` |
| ConvertExcelToJson.SerialDateText | convertExcelToJson.js:18-49 | a serial cell is rewritten as the ISO date of day `floor(value) - 25569` |
| ConvertExcelToJson.Serial44927 | convertExcelToJson.js:9-49 | the cell "44927" is rewritten as "2023-01-01" |
| ConvertExcelToJson.IsoTextBranch | convertExcelToJson.js:21-24 | `YYYY-MM-DD` text is parsed by `new Date(date)` |
| ConvertExcelToJson.IsoTextUnchanged | convertExcelToJson.js:21-49 | `YYYY-MM-DD` text of a real calendar date is kept exactly as it is |
| ConvertExcelToJson.DmyTextBranch | convertExcelToJson.js:25-28 | `DD/MM/YYYY` text is built as `new Date(year, month - 1, day)` from its three groups |
| ConvertExcelToJson.DmyTextRewritten | convertExcelToJson.js:25-49 | `DD/MM/YYYY` text of a real date is rewritten as that date's `YYYY-MM-DD` (years 00-99 of the group read as 1900-1999), and its year reads back |
| ConvertExcelToJson.DmyDateOfValid | convertExcelToJson.js:27 | `new Date(year, month - 1, day)` of a real calendar date is midnight of that date |
| ConvertExcelToJson.DateTextOfDay | convertExcelToJson.js:48-49 | a parsed date is written as the `YYYY-MM-DD` of its calendar date |
| ConvertExcelToJson.DateTextCanonical | convertExcelToJson.js:47-53 | every rewritten date is the canonical text of a real calendar date and its year can be read back |
| ConvertExcelToJson.RowDateCanonical | convertExcelToJson.js:47-53 | every date the intended mapping leaves (a non-empty cell that parses) is canonical `YYYY-MM-DD` text of a real date with a readable year |
| ConvertExcelToJson.RowDateNotEmpty | convertExcelToJson.js:47-53 | no date the intended mapping leaves is the empty string |
| ConvertExcelToJson.NormalizeDate | convertExcelToJson.js:45-54 | the date step of the row mapping as written: a non-empty cell parsed and rewritten, `undefined` when nothing valid is parsed, an empty or missing cell left as it is |
| ConvertExcelToJson.IssueOf | convertExcelToJson.js:60 | the issue is the cell's text when it is non-empty and "Undefined" otherwise; never empty |
| ConvertExcelToJson.DisciplinesPieces | convertExcelToJson.js:57 | a non-empty disciplines cell gives one piece per `;` plus one, each the trimmed text between separators, free of `;` and of leading white space |
| ConvertExcelToJson.NoDisciplines | convertExcelToJson.js:57 | an empty or missing disciplines cell gives no disciplines |
| ConvertExcelToJson.MapRowsAt | convertExcelToJson.js:44-64 | the mapped array has one record per row, record `k` made from row `k` |
| ConvertExcelToJson.MapRowsAsWrittenAt | convertExcelToJson.js:44-64 | as written, the mapped array has one record per row, record `k` made from row `k` |
| ConvertExcelToJson.MapPass | convertExcelToJson.js:44-64 | the `map` over the rows gives the records mapped as written, in row order |
| ConvertExcelToJson.FilterPass | convertExcelToJson.js:66 | the `filter` keeps exactly the records with a date, in order |
| ConvertExcelToJson.KeptRecordsHaveYears | convertExcelToJson.js:44-66 | with the intended treatment of an empty date cell, every record that survives the filter has a date whose year can be read |
| ConvertExcelToJson.AsWrittenKeptYears | convertExcelToJson.js:44-66 | as written, a record that survives the filter has a readable year exactly when its date is not "" |
| ConvertExcelToJson.AsWrittenRowLessEmptyDate | convertExcelToJson.js:44-66 | for one row, the records kept as written less those dated "" are the records kept by the intended mapping |
| ConvertExcelToJson.AsWrittenLessEmptyDates | convertExcelToJson.js:44-66 | the output as written, less the records dated "", is exactly the output of the intended mapping |
| ConvertExcelToJson.AsWrittenAgrees | convertExcelToJson.js:44-64 | when no date cell is the empty string, the mapping as written and the intended one give the same records |
| ConvertExcelToJson.ConvertExcelToJson | convertExcelToJson.js:44-66 | `data.json` is the rows mapped as written with the `undefined`-dated ones removed: in row order, no more records than rows, a record is written exactly when it is mapped and has a date; a written record has a readable year exactly when its date is not ""; dropping those gives the intended output, and when no date cell is empty every written record has a readable year |
| ConvertExcelToJson.EmptyDateCellKept | convertExcelToJson.js:46-66 | as written, a row whose date cell is the empty string is kept with a date "" that has no year |
| ConvertExcelToJson.EmptyDateCellDropped | convertExcelToJson.js:46-66 | with the intended treatment of an empty date cell, that row is dropped |
| JsText.TrimFacts | convertExcelToJson.js:57 | `trim` removes exactly the leading and trailing white space: the result is a slice of the text, what it cuts is white space, and it neither starts nor ends with white space |
| JsText.TrimUnchanged | convertExcelToJson.js:57 | text that neither starts nor ends with white space is unchanged by `trim` |
| JsText.Split | convertExcelToJson.js:57 | `split(sep)` gives one piece more than there are separators, no piece contains the separator, and joining the pieces with it gives the text back |
| JsText.SplitFirstPiece | convertExcelToJson.js:49 | the first piece of `a + sep + b` is `a` when `a` has no separator (the date part of `toISOString()`) |
| JsNumbers.ToNumberOfDigits | convertExcelToJson.js:6 | a cell of decimal digits converts to its decimal value |
| JsNumbers.ToNumberOfIntToString | processSankeyData.js:43 | `a - b` converts a year key back to the year it was made from |
| JsNumbers.ParseIntOfIntToString | aggregatedata.js:30 | `parseInt(key, 10)` of the key an integer year becomes gives the year back |
| JsNumbers.ParseIntOfNaN | aggregatedata.js:30 | `parseInt("NaN", 10)` is NaN |
| JsNumbers.IntToStringInjective | aggregatedata.js:22 | distinct years become distinct object keys |
| JsObjects.OwnKeysNoDup | aggregatedata.js:29 | `Object.keys` lists each key once |
| JsObjects.OwnKeysOrder | aggregatedata.js:29 | `Object.keys` lists array-index keys first, in ascending numeric order |
| JsObjects.OwnKeysNamedOrder | aggregatedata.js:29 | `Object.keys` lists the keys that are not array indices in creation order |
| JsObjects.IntKeyClass | aggregatedata.js:22 | a year's key is an array index exactly for years 0 to 2^32 - 2, and then stands for the year |
| JsObjects.IncrementFacts | aggregatedata.js:22-25 | `if (!o[k]) o[k] = 0; o[k]++` adds one to the count under `k`, creates `k` when it was missing and changes no other count |
| JsObjects.ResetThenIncrement | aggregatedata.js:22-25 | resetting a falsy count to 0 before `++` is one increment |
| JsObjects.TallyFacts | aggregatedata.js:20-26 | counting keys one by one creates them in first-seen order and leaves each key's number of occurrences under it |
| JsObjects.TallyPairsFacts | processSankeyData.js:27-35 | counting (issue, year) pairs into nested objects creates the issues in first-seen order and leaves under each issue the counts of its years |
| JsDates.TimeClip | convertExcelToJson.js:12 | a time value gives a valid date exactly within the range of 10^8 days either side of 1970-01-01 |
| JsDates.MakeFullYear | convertExcelToJson.js:27 | `new Date(y, ...)` reads year 0 to 99 as 1900 to 1999 and any other year as is |
| JsDates.MakeDayOfValid | convertExcelToJson.js:27 | for a real calendar date, `new Date(y, m - 1, d)` is that date's day number |
| JsDates.RebuildFromParts | convertExcelToJson.js:14 | rebuilding a date from its own year, month and day, with the year outside 0 to 99, gives the same date |
| JsDates.DateFromIsoTextOfValid | convertExcelToJson.js:21-23 | `new Date("YYYY-MM-DD")` of a real calendar date is that date, and its ISO text is the input |
| JsDates.IsoDatePart | convertExcelToJson.js:49 | the part of `toISOString()` before `T` is the ISO text of the date |
| JsDates.ReadIsoDateString | aggregatedata.js:5-8 | `new Date(text).getFullYear()` on the ISO text of a date reads that date and its year back |
| JsDates.ClippedYears | convertExcelToJson.js:49 | every valid date has a year of at most six digits, the range `toISOString` writes |
| Calendar.FromDayNumberOfDayNumber | convertExcelToJson.js:12-14 | converting a calendar date to its day number and back gives the date |
| Calendar.DayNumberInjective | convertExcelToJson.js:12-14 | distinct calendar dates have distinct day numbers |
| Calendar.YearOfDayNumber | convertExcelToJson.js:14 | the year of a day number is the year whose days contain it |
| CaseRecords.ParseYearKey | processBarChartData.js:43 | `parseInt` of the key a year becomes gives the year back, NaN included |
| CaseRecords.YearKeyInjective | processBarChartData.js:24 | distinct years, NaN included, are counted under distinct keys |
| CaseRecords.YearKeysMembers | aggregatedata.js:21-32 | every year key stands for a year of some record, and every record's year has its key |
| CaseRecords.YearKeysOcc | aggregatedata.js:21-25 | a year's key occurs as often as the year |
| AggregateData.FlattenAt | aggregatedata.js:29-32 | the `map` gives, for each key, the year `parseInt` reads from it and the count under it |
| AggregateData.CountsStep | aggregatedata.js:20-26 | one more record adds one to the count under its year's key |
| AggregateData.CountKeysFacts | aggregatedata.js:20-29 | the counted keys are distinct, are exactly the records' year keys, and each holds its year's number of records |
| AggregateData.AggregatedAt | aggregatedata.js:29-32 | output object `i` has the year of the `i`-th key, a year some record has, and that year's number of records |
| AggregateData.AggregatedUnique | aggregatedata.js:29-32 | no year is listed twice |
| AggregateData.AggregatedCovers | aggregatedata.js:20-32 | the years listed are exactly the years of the records |
| AggregateData.AggregatedCounts | aggregatedata.js:20-32 | each count is the number of records from its year, so at least one |
| AggregateData.AggregatedTotal | aggregatedata.js:20-32 | the counts add up to the number of records |
| AggregateData.AggregatedOrder | aggregatedata.js:29 | years from 0 to 2^32 - 2 are listed in ascending order and before every other year |
| AggregateData.AggregatedProperties | aggregatedata.js:20-32 | the output lists each year once with its number of records, every year of a record, and counts adding up to the number of records |
| AggregateData.AggregateData | aggregatedata.js:17-32 | the counting loop and the `map` give the year counts of `data.json` with all of the properties above |
| ProcessBarChartData.EventsCount | processBarChartData.js:18-36 | one count is made per discipline of every record |
| ProcessBarChartData.EventsCover | processBarChartData.js:18-36 | the (year, discipline, issue) of every discipline of every record is counted |
| ProcessBarChartData.EventsFromRecords | processBarChartData.js:18-36 | every counted (year, discipline, issue) comes from a discipline of a record |
| ProcessBarChartData.TallyTriplesCounts | processBarChartData.js:24-34 | the nested object holds, under each year, discipline and issue, the number of times that combination was counted, and only counted combinations |
| ProcessBarChartData.PathsMembers | processBarChartData.js:39-41 | the three nested `Object.keys` walks visit exactly the combinations the nested object holds |
| ProcessBarChartData.PathsNoDup | processBarChartData.js:39-41 | the nested walks visit each combination once |
| ProcessBarChartData.FlattenedAt | processBarChartData.js:39-50 | the `i`-th object pushed holds the `i`-th visited combination and its count |
| ProcessBarChartData.FlattenedCounts | processBarChartData.js:39-50 | before the sort each object's count is the number of times its combination occurs, at least one |
| ProcessBarChartData.FlattenedTotal | processBarChartData.js:39-50 | before the sort the counts add up to the number of combinations counted |
| ProcessBarChartData.BarChartCounts | processBarChartData.js:18-53 | every written object's count is the number of disciplines of records with its year, discipline and issue, at least one |
| ProcessBarChartData.BarChartDistinct | processBarChartData.js:18-53 | no two written objects share year, discipline and issue |
| ProcessBarChartData.BarChartCovers | processBarChartData.js:18-53 | every discipline of every record has its object in the written array |
| ProcessBarChartData.BarChartIndexOf | processBarChartData.js:18-53 | gives the position, in the written array, of a counted combination's object |
| ProcessBarChartData.BarChartTotal | processBarChartData.js:18-53 | the written counts add up to the number of disciplines over all records, which can exceed the number of records |
| ProcessBarChartData.BarChartOrder | processBarChartData.js:53 | the written array is sorted by year, and objects of the same year keep the order in which they were pushed |
| ProcessBarChartData.CountOne | processBarChartData.js:24-34 | the three `if`s for one discipline add one to the count of its year, discipline and issue |
| ProcessBarChartData.CountPaths | processBarChartData.js:18-36 | the two nested `forEach` loops leave the nested counts of all the records' combinations |
| ProcessBarChartData.PushIssues | processBarChartData.js:41-48 | the innermost loop appends one object per issue of a year and discipline |
| ProcessBarChartData.PushDisciplines | processBarChartData.js:40-49 | the middle loop appends the objects of every discipline of a year |
| ProcessBarChartData.FlattenCounts | processBarChartData.js:39-50 | the outer loop pushes one object per visited combination, in visiting order |
| ProcessBarChartData.ProcessBarChartData | processBarChartData.js:13-53 | `barChartData.json` is the counts flattened and sorted: each object's count is the number of its combination, no combination twice, every combination present, counts totalling the number of disciplines, sorted by year |
| ProcessSankeyData.LabelYearsAt | processSankeyData.js:20-21 | each record is counted under its issue (`'No EDI Primary Case'` for an empty one) and its year's key |
| ProcessSankeyData.CasesExist | processSankeyData.js:19-36 | an issue and year have a positive number of cases exactly when some record has both |
| ProcessSankeyData.IssuesMapFacts | processSankeyData.js:24-26 | `issuesMap` holds exactly the issues seen, each mapped to one more than its first-seen position |
| ProcessSankeyData.IssueIndex | processSankeyData.js:24-26 | each seen issue maps to a node index past 0, and that node is the issue |
| ProcessSankeyData.NodesFacts | processSankeyData.js:14-28 | node 0 is "All Cases"; the other nodes name each issue of a record once, in first-seen order |
| ProcessSankeyData.YearKeysOfFacts | processSankeyData.js:20-35 | the year keys counted for an issue are one per record of that issue, each the key of the year `parseInt` reads from it |
| ProcessSankeyData.CountsFacts | processSankeyData.js:24-35 | `cumulativeCounts` has each issue once, exactly the issues of the records, and under an issue and year the number of records with both |
| ProcessSankeyData.KeyRankOfYearKey | processSankeyData.js:43 | the comparator `a - b` compares year keys by the years they stand for |
| ProcessSankeyData.SortedYearsFacts | processSankeyData.js:43 | an issue's sorted year keys are distinct, ascending by year, and exactly the keys of its records' years |
| ProcessSankeyData.RunLinksAt | processSankeyData.js:43-51 | the `k`-th link pushed for an issue runs from node 0 to the issue, with the year of the `k`-th key and the sum of the counts of the first `k + 1` keys |
| ProcessSankeyData.RunLinksValues | processSankeyData.js:41-48 | `totalCount` starts at the first year's count and each later link adds its year's count to the previous link's value; the last value is the sum |
| ProcessSankeyData.RunTotalOfTally | processSankeyData.js:44 | adding up the counts of keys is adding up their occurrences |
| ProcessSankeyData.IssueCounts | processSankeyData.js:43-44 | each sorted year of an issue holds the number of records of that issue and year, at least one |
| ProcessSankeyData.IssueTotal | processSankeyData.js:41-44 | the running total of an issue ends at the issue's number of records |
| ProcessSankeyData.IssueLinksEnds | processSankeyData.js:40-48 | every link of an issue runs from node 0 to the issue's node |
| ProcessSankeyData.IssueLinksCounted | processSankeyData.js:43-49 | every link of an issue has a year in which the issue has records |
| ProcessSankeyData.IssueLinksCover | processSankeyData.js:39-51 | every year in which an issue has records has a link of that issue |
| ProcessSankeyData.IssueLinksOrdered | processSankeyData.js:43 | an issue's links have distinct years in ascending order |
| ProcessSankeyData.IssueLinksValues | processSankeyData.js:41-48 | an issue's link values are running totals: the first is its first year's cases, each next one adds its year's cases, the last is the issue's number of records |
| ProcessSankeyData.IssueLinksIncreasing | processSankeyData.js:41-48 | an issue's link values strictly increase over its years, from at least one to the issue's number of records |
| ProcessSankeyData.IssueLinkPositive | processSankeyData.js:41-48 | every link value is at least one |
| ProcessSankeyData.AllLinksMembers | processSankeyData.js:39-52 | the links are exactly those of the issues walked |
| ProcessSankeyData.SankeyLinksBlocks | processSankeyData.js:39-52 | every link is among the links of some issue of a record, and every such issue's links are all present |
| ProcessSankeyData.AppendBlock | processSankeyData.js:41-51 | appending one issue's links, for distinct years and into a node no earlier link uses, keeps the (node, year) pairs distinct and each node's links together |
| ProcessSankeyData.IssueLinksTarget | processSankeyData.js:40-50 | every link of an issue goes into the node `issuesMap` gives the issue |
| ProcessSankeyData.OtherIssuesTargets | processSankeyData.js:39-52 | the links of other issues never go into an issue's node when those issues map to other nodes |
| ProcessSankeyData.AllLinksLayout | processSankeyData.js:39-52 | for distinct issues mapped to distinct nodes, each with links for distinct years, no two links share a node and year, and each node's links stand together |
| ProcessSankeyData.IssueNodesDistinct | processSankeyData.js:23-26 | distinct issues get distinct node indices |
| ProcessSankeyData.IssueYearsDistinctAt | processSankeyData.js:43-49 | an issue's links are for distinct years |
| ProcessSankeyData.IssueYearsDistinct | processSankeyData.js:43-49 | every issue's links are for distinct years |
| ProcessSankeyData.KeysLayout | processSankeyData.js:39-52 | walking duplicate-free keys that are exactly the issues gives links with distinct (node, year) pairs, grouped by node |
| ProcessSankeyData.SankeyLinksLayout | processSankeyData.js:39-52 | no two written links share both their target node and their year, and the links into each node stand together with no other link between them |
| ProcessSankeyData.SankeyShapeHolds | processSankeyData.js:14-52 | node 0 is "All Cases", the other nodes name each issue once, and every link runs from node 0 to the node of an issue that has records in the link's year, with a positive value |
| ProcessSankeyData.CountRecord | processSankeyData.js:20-35 | one record: a new issue gets the next node and index and an empty count object; then its year's count is set to 1 or incremented |
| ProcessSankeyData.RecordStep | processSankeyData.js:20-35 | one more record keeps the nodes, `issuesMap` and `cumulativeCounts` equal to what the records seen so far define |
| ProcessSankeyData.CountRecords | processSankeyData.js:14-36 | the first `forEach` leaves the node list, `issuesMap` and `cumulativeCounts` that the records define |
| ProcessSankeyData.PushYearLinks | processSankeyData.js:41-51 | the inner loop appends one running-total link per sorted year of an issue |
| ProcessSankeyData.PushIssueLinks | processSankeyData.js:39-52 | the outer loop appends each issue's links in turn, one block per issue |
| ProcessSankeyData.ProcessSankeyData | processSankeyData.js:12-52 | `sankeyData.json` is the node list and links that the records define, with the shape stated by `SankeyShapeHolds` and the layout stated by `SankeyLinksLayout` |
| BarChartScript.FilterDataSubsequence | bar-chart-script.js:64-70 | the filtered entries keep their order: they are the original data with some entries removed |
| BarChartScript.FilterDataNoSelection | bar-chart-script.js:64-70 | with nothing selected in either list all the data is shown |
| BarChartScript.FilterDataEntries | bar-chart-script.js:64-70 | an entry is shown exactly when it is in the data, its issue is selected or none is, and its discipline is selected or none is; a shown entry appears as often as in the data |
| BarChartScript.OptionsOf | bar-chart-script.js:98-99 | an option list holds each value once, exactly the values some entry has, in first-seen order |
| BarChartScript.IssueOptionsFacts | bar-chart-script.js:98 | the issue options: each issue of the data once, in first-seen order |
| BarChartScript.DisciplineOptionsFacts | bar-chart-script.js:99 | the discipline options: each discipline of the data once, in first-seen order |
| Seqs.SortByStable | processBarChartData.js:53 | the stable sort keeps the order of the entries that share a sort key |
| Seqs.SortBy | processBarChartData.js:53 | the sort's output is sorted by the key and is a permutation of its input |
| Seqs.InsertBySorted | processBarChartData.js:53 | inserting an entry in front of the first entry with a key that is not smaller keeps a sorted array sorted |
| Seqs.SortByMembers | processBarChartData.js:53 | sorting neither adds nor removes entries |
| Seqs.SumBySortBy | processBarChartData.js:53 | sorting does not change the total of the counts |
| Seqs.DistinctFirstSeen | bar-chart-script.js:98-99 | de-duplication keeps values in the order of their first occurrence |
| Seqs.SubsequenceOfFilter | convertExcelToJson.js:66 | a `filter` result is the input with some elements removed, order kept |

## Left out

- Reading the spreadsheet (`XLSX.readFile`, `sheet_to_json`) and reading and writing the JSON files, including
  `JSON.parse`/`JSON.stringify`, are left out. The model starts from the rows as cell texts and the records as values.
- `console.error` and `console.log` are left out: they have no effect on the data.
- ConvertExcelToJson.ParseDate: `new Date(text)` for text that is neither a serial number, `YYYY-MM-DD` nor `DD/MM/YYYY` is
  engine-dependent. It is the parameter `fallback`, which gives a day number or NaN for the text, so the
  properties of that branch are only as strong as what `fallback` returns.
- `new Date("YYYY-MM-DD")` is modelled as V8 parses it: a month 01-12 and a day 01-31 are accepted and a day
  past the end of the month rolls into the next month. Other engines may reject such text instead.
- The local time zone is taken to be UTC. All dates are at midnight, so the time of day of a `Date` is not
  modelled, and a time value is a whole number of days. Under another time zone the local parts of
  `new Date(y, m, d)` and the UTC date of `toISOString()` can differ by a day.
- Floating-point numbers are modelled as exact reals. A cell's numeric value is the exact decimal value of its text, without
  rounding to a double.
- ProcessSankeyData.SortedYears: the comparator `(a, b) => a - b` returns NaN when a year key is "NaN", which makes the sort's
  order implementation-defined. The model ranks NaN as year 0. ProcessBarChartData.YearRank does the same for `a.year - b.year`.
  A record that `convertExcelToJson.js` keeps has a NaN year only when its date cell was the empty string
  (`ConvertExcelToJson.AsWrittenKeptYears`, see Findings), so otherwise this only matters for hand-edited data.
- `!issuesMap[issue]` is also false for keys that a plain object inherits, such as "constructor". The model treats plain
  objects as having no inherited keys.
- Sankey nodes are modelled as their names; the `{name: ...}` wrapper objects are left out.
- The rendering parts of `bar-chart-script.js`, `chart-script.js` and `sankey-script.js` (d3, jQuery, the DOM,
  `d3.json` loading, event handlers) are left out; only `filterData` and the option lists of `bar-chart-script.js` are modelled.
- JsDates.FullYearOf: `getFullYear()` of `new Date(text)` is modelled only for the canonical shapes `YYYY-MM-DD` and
  `±YYYYYY-MM-DD` that the conversion writes, with the month and day read as they stand. Other text gives NaN, and
  the shapes are not checked against the calendar. So `"2023"` has year NaN in the model but 2023 in V8, and
  `"2023-13-01"` has year 2023 in the model but NaN in V8. CaseRecords.YearOf and the aggregators inherit this. The
  conversion writes only canonical text of real dates (`ConvertExcelToJson.RowDateCanonical`), or "" (see Findings),
  so only hand-edited `data.json` is affected.
- Years are unbounded integers. JavaScript numbers are doubles, but every year that occurs is far below 2^53.

## Findings

| source | as written | input that shows it | evidently intended | confidence | as-written member | corrected member |
|---|---|---|---|---|---|---|
| convertExcelToJson.js:46,66 | a date cell holding the empty string is falsy, so it skips parsing and keeps the value ""; `"" !== undefined`, so the filter keeps the row, and later `getFullYear()` is NaN | a row with date cell "" (e.g. issue "Gender", no disciplines) | a row without a usable date is dropped, as stated for missing and unreadable dates | medium, not executed | ConvertExcelToJson.EmptyDateCellKept | ConvertExcelToJson.EmptyDateCellDropped |

`ConvertExcelToJson.ConvertExcelToJson` and its passes model the code as written
(`RowDateAsWritten`, `MapRowAsWritten`, `MapRowsAsWritten`). The corrected mapping is `RowDate`,
`MapRow` and `MapRows`. Its properties are `ConvertExcelToJson.KeptRecordsHaveYears` and
`ConvertExcelToJson.RowDateCanonical`. `ConvertExcelToJson.AsWrittenLessEmptyDates` ties the two
together: the output as written, less its records dated "", is the corrected output.
`ConvertExcelToJson.AsWrittenAgrees` shows the two mappings agree when no date cell is empty.
The aggregation scripts make no assumption about the records' years, so they accept either output.
