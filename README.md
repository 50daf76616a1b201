# NYTimes country coverage: the collection and text-processing core

This project models the part of softdes-nytimes-countries that does not talk to a
network service or draw a chart. The project counts New York Times articles about a
country month by month and keeps their headlines in a per-country table.
Its core consists of:

- **Calendar arithmetic on `YYYYMM` strings** (module `Calendar`):
  - `days_in_month`: the days-per-month table, with a February of 29 days in every
    year divisible by four;
  - `next_month`: the step to the following month;
  - the `MM-YYYY` labels under which months are stored.

  The month index `year * 12 + (month - 1)` is the measure the proofs use.
- **The month walk and pagination** of `monthly_hits` and `collect_headlines_and_hits`
  (module `Obtaining`, and `DataProcessing` for the second copy of the loop):
  - The article search is a function `respond` from a request to its response,
    giving the hit count and the headlines of a page.
  - The loops return the requests they send, in order.
- **The per-country table** (module `CountryTable`):
  - `write_data_to_file` overwrites the country's file with one row, or appends one row;
  - `reset_data_entries` replaces the file with one blank row.

  The directory of country files is the class `CountryData`, a map from country name
  to table. Its methods update it in place.
- **Turning a stored headline list back into text** (module `Headlines`):
  `headline_list_to_string` strips, replaces and joins the cell text, and
  `all_headlines_in_string` does this for every row of a file.
- **Python's string primitives** that this code relies on (module `PyText`):
  - clamped slicing, `int()`, `str()`, `strip`, `replace` and `join`;
  - `repr` of a string and of a list, which is how a list cell is written to a file;
  - the exceptions the code can raise, as a `Result`.

Both `obtaining.py` and `data_processing_helpers.py` contain `days_in_month` and
`next_month`, and the two copies are identical. Each is modelled once, in `Calendar`.

Both `data_processing.py` and `obtaining.py` contain `monthly_hits`: lines 24-57 of the
former repeat lines 144-177 of the latter. `Obtaining.MonthlyHits` models both.

`headline_list_to_string` exists twice:

- the copy in `processing.py` returns `""` for a month with zero hits;
- the copy in `data_processing_helpers.py` does not.

The flag `checkZeroHits` selects the copy.

## Model

| member | source | states |
|---|---|---|
| PyText.Slice | data_processing_helpers.py:39-40 | `s[i:j]` is clamped to the string: its length is the overlap of `i..j` with the string, and 0 when the bounds cross |
| PyText.Drop | data_processing_helpers.py:40 | `s[i:]` has length `len(s) - i`, or 0 past the end |
| PyText.NatToString | data_processing_helpers.py:60 | `str(n)` is a non-empty digit string whose value is `n`, with no leading zero from 10 up |
| PyText.ParseInt | data_processing_helpers.py:42 | `int()` of a text fails only with ValueError |
| PyText.ParseIntOfDigits | data_processing_helpers.py:42 | `int()` of a digit string is its decimal value |
| PyText.ParseIntOfNatToString | processing.py:42 | a hit count written as text reads back as the same number |
| PyText.StripBy | data_processing_helpers.py:173 | `strip(chars)` never lengthens the text, and a non-empty result begins and ends with characters outside the set |
| PyText.LeadingCountExact | data_processing_helpers.py:173 | the prefix `strip` removes is exactly the run of removable characters at the front |
| PyText.TrailingCountExact | data_processing_helpers.py:173 | the suffix `strip` removes is exactly the run of removable characters at the end |
| PyText.ReplaceSkips | data_processing_helpers.py:174-176 | `replace` copies a prefix that holds no first character of the pattern and goes on with the rest |
| PyText.ReplaceAbsent | data_processing_helpers.py:174-176 | a text without the pattern's first character is left unchanged by `replace` |
| PyText.ReplaceAtFront | data_processing_helpers.py:174-176 | an occurrence of the pattern at the front is replaced, and replacing goes on after it |
| PyText.ReplaceNoMatch | data_processing_helpers.py:174-176 | a text in which the pattern does not occur anywhere is left unchanged by `replace` |
| PyText.JoinAppend | data_processing_helpers.py:203 | joining two non-empty lists of parts is the join of the first, one separator, and the join of the second |
| PyText.PyStrReprVerbatim | data_processing_helpers.py:113 | `repr` of a text without quotes, backslashes or escaped characters is that text in single quotes |
| PyText.PyStrReprApostrophe | data_processing_helpers.py:113 | `repr` of a text holding a single quote and no double quote is that text in double quotes, its single quotes unescaped |
| Calendar.DaysInMonth | data_processing_helpers.py:28-44 | the result is one of "28".."31"; ValueError exactly when the year part is not an integer; KeyError exactly when the year parses and the month part is not a table key |
| Calendar.TableEntry | data_processing_helpers.py:13-26 | every month 01..12 is a table key whose value is that month's day count in a common year |
| Calendar.DaysInMonthValue | data_processing_helpers.py:39-44 | on a well-formed month the result is the day count of that month |
| Calendar.DaysInMonthLeap | data_processing_helpers.py:42-43 | "29" comes back exactly for February of a year divisible by four |
| Calendar.NoCenturyRule | data_processing_helpers.py:42 | February 1900 has 29 days: there is no century exception |
| Calendar.DecemberText | data_processing_helpers.py:59-60 | December becomes `str(year + 1) + "01"` |
| Calendar.NextMonthOfDecember | data_processing_helpers.py:59-60 | December of a year 0999..9998 goes to a well-formed January with the next month index |
| Calendar.NextMonthOfSeptember | data_processing_helpers.py:61-62 | September goes to a well-formed October with the next month index |
| Calendar.NextMonthOfOther | data_processing_helpers.py:63 | every other month goes to a well-formed month with the next month index |
| Calendar.NextMonthIndex | data_processing_helpers.py:56-63 | for a well-formed month that advances, `next_month` succeeds, is well-formed and adds exactly one to the month index |
| Calendar.ShortYearAfter | data_processing_helpers.py:60 | after a December before year 0999 the result is shorter than six characters |
| Calendar.LongYearAfter | data_processing_helpers.py:60 | after December 9999 the result has seven characters |
| Calendar.NextMonthLosesFormat | data_processing_helpers.py:59-60 | a month that does not advance gives a result that is not six characters long |
| Calendar.NextMonthWellFormedIff | data_processing_helpers.py:56-63 | on a well-formed month `next_month` never raises, and its result is well-formed exactly when the month advances |
| Calendar.NextMonthIsNextIndex | data_processing_helpers.py:56-63 | the successor of an advancing month is the month string of the next index |
| Calendar.NextMonthLeaves | obtaining.py:163 | `next_month` of a month never equals a month at or before it, so a walk cannot stop early |
| Calendar.DaysInMonthOfOtherLength | data_processing_helpers.py:39-44 | on a digit string that is not six characters long, `days_in_month` raises KeyError |
| Calendar.LostFormatRaises | obtaining.py:171-175 | after a month that does not advance, the walk's next month makes `days_in_month` raise KeyError |
| Calendar.NextMonthDropsLeadingZeros | data_processing_helpers.py:60 | `next_month("009912")` is `"10001"`: the year loses its leading zeros |
| Calendar.MonthOfIndexOfString | data_processing_helpers.py:56-57 | reading a month string into its index and writing the index back gives the same string |
| Calendar.IndexInjective | data_processing_helpers.py:56-57 | two well-formed month strings with the same index are equal |
| Calendar.LabelOfSixChars | data_processing_helpers.py:167-201 | the `MM-YYYY` label of a six-character month is label-shaped, and `item[3:] + item[0:2]` turns it back into that month |
| Calendar.LabelOfFromLabel | processing.py:38-75 | reading a label into a month and labelling it again gives the label back |
| Calendar.DaysInMonthTestCase | test_obtaining.py:4-7 | a concrete test month has the day count of its year and month |
| Calendar.DaysInMonthTestLeapFebruary | test_data_processing_helpers.py:5 | `days_in_month("200002") == "29"` |
| Calendar.DaysInMonthTestCommonFebruary | test_obtaining.py:5 | `days_in_month("200102") == "28"` |
| Calendar.DaysInMonthTestJanuary2000 | test_obtaining.py:6 | `days_in_month("200001") == "31"` |
| Calendar.DaysInMonthTestJanuary2001 | test_obtaining.py:7 | `days_in_month("200101") == "31"` |
| Calendar.NextMonthTestCase | test_obtaining.py:15-18 | a concrete month whose successor has the next index steps to that successor |
| Calendar.NextMonthTestDecember1999 | test_obtaining.py:15 | `next_month("199912") == "200001"` |
| Calendar.NextMonthTestDecember2000 | test_obtaining.py:16 | `next_month("200012") == "200101"` |
| Calendar.NextMonthTestJanuary | test_obtaining.py:17 | `next_month("200001") == "200002"` |
| Calendar.NextMonthTestSeptember | test_obtaining.py:18 | `next_month("200009") == "200010"` |
| CountryTable.InfoRowReadsBack | data_processing_helpers.py:113-116 | a file holding just the written row reads back as it: the country, label and headlines cells under their header names, and the hit count through `int()` |
| CountryTable.Column | data_processing_helpers.py:123 | reading a column raises KeyError exactly when the header lacks it, and otherwise gives one cell per row: row i's cell under the first column of that name, blank when the row is shorter |
| CountryTable.WriteRowStartsAfresh | data_processing_helpers.py:120-129 | an absent file, or one whose Country Name column is blank, becomes exactly the new row under the write header |
| CountryTable.WriteRowAppends | data_processing_helpers.py:123-126 | a file with some country name keeps its header and rows, and gets the new row last |
| CountryTable.WriteRowFails | data_processing_helpers.py:123 | a write fails exactly when an existing file has no Country Name column, and then it raises KeyError |
| CountryTable.BlankTableShape | data_processing_helpers.py:141-148 | the reset table has six columns and exactly one row, and every cell is blank |
| CountryTable.WriteAfterReset | data_processing_helpers.py:123-124 | after a reset the next write starts the file afresh with just its row |
| CountryTable.WrittenNameIsKept | data_processing_helpers.py:113-126 | after writing a row with a non-empty country name, the next write appends |
| CountryTable.CountryData.WriteDataToFile | data_processing_helpers.py:98-129 | the country's file becomes the table update of the old file, and no other file changes; on KeyError nothing changes |
| CountryTable.CountryData.ResetDataEntries | data_processing_helpers.py:131-148 | the country's file becomes the blank table, and no other file changes |
| Headlines.FirstIndexOf | processing.py:40 | gives the first row whose label equals the date, and none exactly when no row does |
| Headlines.AllHeadlinesInString | data_processing_helpers.py:193-205 | the loop over the label column gives what `AllHeadlines` specifies |
| Headlines.ErrorPersists | processing.py:71-75 | once a row raises, the loop raises that error |
| Headlines.TextsInOrderOnePerRow | data_processing_helpers.py:195-201 | the loop succeeds exactly when every row's text does; then it yields one text per row, in row order |
| Headlines.TextsInOrderFirstError | data_processing_helpers.py:197-201 | a failing loop raises the error of a row whose predecessors all succeed |
| Headlines.AllHeadlinesOnePerRow | processing.py:67-79 | the result is the month texts of all rows, in row order, joined by single spaces, and it succeeds exactly when every row's text does |
| Headlines.LabelFindsItsRow | processing.py:38-40 | with distinct labels, a label read back into a month finds its own row again |
| Headlines.ListReprOfPlain | data_processing_helpers.py:113 | a list of plain headlines is written as `['h1', 'h2', ...]` |
| Headlines.StripExact | data_processing_helpers.py:173 | `strip` removes exactly a removable prefix and suffix around a middle that starts and ends with kept characters |
| Headlines.StripOfPlainList | data_processing_helpers.py:173 | the strip removes exactly the brackets and the outer quotes of a written list |
| Headlines.ReplaceSeparators | data_processing_helpers.py:174 | each `', '` between headlines becomes one space |
| Headlines.CleanupOfEmptyList | data_processing_helpers.py:173 | the empty list `[]` cleans up to `""` |
| Headlines.CleanupOfListRepr | data_processing_helpers.py:173-176 | cleaning up a written list of plain headlines gives the headlines joined by single spaces |
| Headlines.WrittenMonthReadsBack | processing.py:36-52 | a month written with hits and plain headlines reads back, through either copy, as those headlines joined by spaces |
| Headlines.ZeroHitMonthReadsBack | processing.py:42-43 | a month written with zero hits reads back as `""` through the copy that checks the hits, and raises AttributeError through the copy that does not |
| Headlines.CleanupKeeps | processing.py:47-50 | a text that neither begins nor ends with `[`, `]` or `'` and contains none of `', '`, `’s` and `'s` is left unchanged, other quote characters included |
| Headlines.CleanupOfQuotedText | test_processing.py:10 | such a text between `['` and `']` cleans up to itself, so the apostrophes of `Here 'a' headline` are kept |
| Headlines.CleanupOfApostropheHeadline | data_processing_helpers.py:113-176 | a headline holding a single quote and no double quote is written in double quotes, and cleans up to itself inside those double quotes |
| Headlines.CleanupOfTwo | test_processing.py:8 | two plain headlines in a list come back separated by one space |
| Headlines.CleanupCanEndOnBracket | data_processing_helpers.py:173-176 | the cleaned text can still end on a list character: `[a]'s]` becomes `a]` |
| Headlines.PossessiveCanReappear | data_processing_helpers.py:176 | deleting every `'s` can leave one behind: `a''ss` becomes `a's` |
| Obtaining.RangeStep | obtaining.py:175 | inside a valid range, `next_month` steps each month to the month of the next index |
| Obtaining.WalkStep | obtaining.py:163-175 | a step before the last month stays inside the range and does not reach the stop month; the step from the last month reaches it |
| Obtaining.WindowOfMonth | obtaining.py:202-203 | a month's request covers `YYYYMM01` to its last day, both eight characters long, at page 1 |
| Obtaining.PagesIsCeiling | obtaining.py:214 | the page count is 0 for no hits, and otherwise the least number of pages of ten that holds every hit |
| Obtaining.PageHeadlinesOfCopies | obtaining.py:219-230 | the same request sent n times brings its headlines back n times, in order |
| Obtaining.RepeatLength | obtaining.py:230 | n copies of a page hold n times its headlines |
| Obtaining.CollectEntryFields | obtaining.py:206 | every entry carries its query, its month and the hits of its window |
| Obtaining.ZeroHitMonth | obtaining.py:208-212 | a month without hits is recorded with a blank headlines cell after exactly one request |
| Obtaining.PagedMonth | obtaining.py:214-233 | a month with h hits sends `ceil(h/10)` requests, all for its own window at page 1; its headlines are page 1 once per request |
| Obtaining.MonthlyHitsOnePerMonth | obtaining.py:160-177 | there is one entry per month of the range, in month order: entry i is month `begin + i` with the hits of its window, the first is `begin`, the last is `end`, and one request goes out per month |
| Obtaining.CollectedOnePerRangeMonth | obtaining.py:196-238 | there is one entry per month of the range, in month order, from `begin` to `end`, each the collected entry of its month |
| Obtaining.MonthlyHits | obtaining.py:144-177 | the loop terminates and returns exactly the entries and requests of the range |
| Obtaining.CollectMonth | obtaining.py:200-233 | one iteration of the month loop records the month's entry and sends exactly the month's requests |
| Obtaining.CollectHeadlinesAndHits | obtaining.py:179-238 | the loop terminates and returns exactly the collected entries and the requests of the range |
| Obtaining.RowsOfReadBack | obtaining.py:262-267 | there is one row per entry, in entry order; each row holds the entry's query, a `MM-YYYY` label that turns back into the entry's month, and a hit count that `int()` reads back as the entry's hits |
| Obtaining.WriteEntries | obtaining.py:262-267 | the write loop leaves the files and the outcome of writing the entries in order, stopping at the first failing write |
| Obtaining.WriteAllAppends | data_processing_helpers.py:123-126 | for a file that already names a country, every entry's row is appended after the old rows, in order, and no other file changes |
| Obtaining.WriteAllFresh | data_processing_helpers.py:123-129 | for an absent or blank file, the file becomes exactly the entries' rows, in order, under the write header |
| Obtaining.WriteAllWithoutNameColumn | data_processing_helpers.py:123 | with a file lacking a Country Name column, the first write raises KeyError and nothing is written |
| Obtaining.WriteAllEmptyTerm | data_processing_helpers.py:123-124 | with an empty search term the name column stays blank, so only the last row survives |
| Obtaining.WriteHitsAndHeadlinesToFile | obtaining.py:240-268 | obtaining.py's version collects the whole range, then raises NameError on the first write, which always exists |
| Obtaining.CollectAndWrite | obtaining.py:257-267 | the collected entries are written in order with the table update `write_data_to_file` performs |
| Obtaining.CollectAndWriteRows | obtaining.py:262-267 | for a non-empty term and an absent or blank file, the file ends with exactly one row per month of the range, in month order, each labelled `MM-YYYY`, and no other file changes |
| DataProcessing.WideIff | data_processing.py:94-103 | a month's page loop runs exactly when it has more than ten hits |
| DataProcessing.FirstWhere | data_processing.py:79-118 | gives the first month the condition holds at, and none exactly when it holds at none |
| DataProcessing.FirstWhereStays | data_processing.py:79-118 | once found, the first such month stays the first as the range grows |
| DataProcessing.CollectMonth | data_processing.py:80-118 | a month of at most ten hits gives obtaining.py's entry and requests; a month of more raises NameError after its one hits request |
| DataProcessing.CollectHeadlinesAndHits | data_processing.py:59-120 | with no month of more than ten hits, the result is what obtaining.py's loop collects; otherwise it raises NameError at the first such month, after that month's first request |
| DataProcessing.WriteHitsAndHeadlinesToFile | data_processing.py:122-150 | when the collect succeeds, its entries are written in order and the requests are those of the whole range; when it raises, no file changes and the requests stop after the first request of the first month of more than ten hits |
| DataProcessing.ElevenHits | data_processing.py:103-109 | a month of eleven hits raises NameError here, while obtaining.py's loop sends two requests for it and records page 1 twice |
| DataProcessing.NarrowMonthAgrees | data_processing.py:94-102 | a month of at most ten hits goes through both versions alike |

## Left out

- The network calls are left out: `request_articles`, `get_hits`, `request_sentiment` and
  `find_sentiment`, and the pyjq extraction of hits and headlines.
  - The search is the parameter `respond`, a deterministic function: the same request
    always brings the same response.
  - The API key is never passed, because `respond` stands for it.
- `time.sleep` is left out. It affects only timing.
- google_cloud.py, the API-key file read at import time in processing.py, and
  `sentiment_and_magnitude_to_csv` are left out. Sentiment scores are floating-point
  results of an external service.
- All charting and images are left out: scatter plots, word clouds and bubble charts.
- pandas CSV parsing and writing are modelled only as far as the code reads them back.
  - A file is its header and rows of text cells.
  - A missing cell and an empty cell both read back as blank, which is NaN in pandas.
    A blank headlines cell raises AttributeError on `strip`. A blank label raises
    TypeError on slicing.
  - CSV quoting, dtype inference and NaN in any other column are not modelled.
  - The hit count read back is compared to 0 through `int()` of its text.
- `int()` is modelled for ASCII input only.
  - Underscore separators and non-ASCII digits and spaces are not modelled.
  - Calendar strings are six ASCII digits.
- `repr` of a string is modelled up to U+00AD. Characters above that are taken to be
  printable, so the other non-printable code points Python escapes are not modelled.
- `math.ceil(num_hits / 10)` is modelled as the exact integer ceiling. The float
  division agrees with it for any realistic hit count.
- The unused counter `i` in `monthly_hits` is left out.
- Obtaining.MonthlyHits requires a range `begin <= end` of well-formed months. A range
  crossing a December before year 0999 must stay inside one year. The source also runs
  on the other ranges, and there it does not walk the range:
  - when `begin` is the month right after `end`, the loop stops at once with no entries;
  - otherwise the walk reaches a December whose next year is not four digits long
    (year 9999, or a year before 0999). `next_month` then gives a string that is not
    six characters long, such as "1000001" after "999912" or "201" after "000112".
    The loop body's `days_in_month` raises KeyError on it (`Calendar.LostFormatRaises`).

  These paths are not modelled as runs of the loop.
- Obtaining.CollectHeadlinesAndHits requires the same range as `MonthlyHits`, for the
  same reason.
- DataProcessing.CollectHeadlinesAndHits requires the same range as `MonthlyHits`, for
  the same reason.
- An existing but empty file makes pandas raise EmptyDataError on the read. The model
  reads it as a table without columns, so the write raises KeyError instead
  (`CountryTable.WriteRowFails`).
- DataProcessing.WriteHitsAndHeadlinesToFile: when the collect raises, the model returns
  the error and no outcome of a write. The source propagates the exception.
- The pytest case "Here 'a' headline" of test_processing.py:10 and the three-month join
  of test_processing.py:24 are not modelled. They read the fixture file
  `CountryData/test_data.csv`, which is not part of this model.
  - The first case is covered in general by `Headlines.CleanupOfQuotedText`, for a cell
    `['Here 'a' headline']`. `Headlines.CleanupKeeps` shows that the cleanup keeps any
    quote that is not part of `', '`, `’s` or `'s` and not at either end.
  - A cell written by `write_data_to_file` for that headline would instead be
    `["Here 'a' headline"]`, because `repr` picks double quotes for it. It would clean
    up to the headline inside double quotes (`Headlines.CleanupOfApostropheHeadline`).
    The fixture file is not part of this model, so which form it holds is open.
  - The join is covered in general by `Headlines.AllHeadlinesOnePerRow`.
- The promise that the cleaned text has no leading or trailing `[`, `]` or `'`
  holds only after the strip step (`PyText.StripBy`). It does not hold for the whole
  chain, because replacing can expose such a character (`Headlines.CleanupCanEndOnBracket`).
- The promise that every `'s` is removed holds for the occurrences in the
  input, but the result can contain a new one (`Headlines.PossessiveCanReappear`).
- The paging loop re-requests page 1 (obtaining.py:226) because it never passes `page`.
  This is modelled as written (`Obtaining.PagedMonth`), not corrected.

## Findings

| source | as written | input that shows it | evidently intended | confidence | as-written member | corrected member |
|---|---|---|---|---|---|---|
| obtaining.py:114 | `write_data_to_file` calls `path.exists`, but obtaining.py never imports `path`, so every write raises NameError | any valid range, e.g. "200001" to "200001": the collection ends and the first write raises | `from os import path`, as data_processing_helpers.py:8 has, so rows are written or appended | not executed | Obtaining.WriteHitsAndHeadlinesToFile | Obtaining.CollectAndWrite |
| data_processing.py:106 | the page loop calls `data_processing_helpers.request_articles`, but the module imports only names from data_processing_helpers, not the module, so NameError is raised | a month with 11 hits: `ceil(11 / 10) = 2`, so the page loop runs once | call the imported `request_articles`, as obtaining.py:226 does | not executed | DataProcessing.ElevenHits | Obtaining.CollectHeadlinesAndHits |

For the first finding:

- `Obtaining.WriteHitsAndHeadlinesToFile` proves that the write fails with NameError
  after a non-empty collection.
- The corrected `Obtaining.CollectAndWrite` uses the table update of
  data_processing_helpers.py.
- `Obtaining.CollectAndWriteRows`, `Obtaining.WriteAllFresh` and
  `Obtaining.WriteAllAppends` prove the intended one-row-per-month result about it.

For the second finding:

- `DataProcessing.CollectHeadlinesAndHits` models the loop as written.
- `DataProcessing.ElevenHits` exhibits the input where it raises, while the corrected
  loop pages through it.
- The corrected loop is `Obtaining.CollectHeadlinesAndHits`. `Obtaining.PagedMonth` and
  `Obtaining.CollectedOnePerRangeMonth` prove its paging and one entry per month.
- `DataProcessing.NarrowMonthAgrees` proves that the two loops agree wherever the
  faulty line is not reached.
