# Embrapa viticulture scraper — a Dafny model

The scraper in `main.py` serves two routes that read tables from the
Embrapa "Vitibrasil" site and flatten them into records:

- **production** (`scrape_data_production`) fetches an option's front page and
  reads the year window `[start-end]` from the `lbl_pesq` label. It then
  selects all years of the window (selector `TUDO`, any case) or the one
  year given, fetches one page per year, and scans each page's `tb_dados`
  table.
- **processing** (`scrape_data_processing`) also keeps the front page's
  `btn_sopt` sub-option buttons whose `value` ends with the category number
  (all of them for category 0). It fetches one page per kept sub-option and
  year, sub-options outer and years inner, and tags each record with the
  sub-option's text.

The table scan skips the heading row and rows with fewer than two cells. A
`tb_item` row sets the current type, which starts as `Desconhecido`. A
`tb_subitem` row emits a record: the year, the category (processing only),
the type, the product, the quantity, and the last token of the quantity
cell as its unit. Records of all responses are concatenated in task order.

`extracao_csv.py` locates the column named after the year in the header
row of a `;`-separated CSV. It reduces every non-empty data row to its first
three fields and that column.

Files:

- `outcome.dfy`: `Option`, `Result` and the Python exceptions that end a routine.
- `pystr.dfy`: the `str`/`list` methods the code calls: `strip`, `split`,
  `split(sep)`, `find`, slicing, `upper`, `endswith`, `int`, `str`, `list.index`.
- `discovery.dfy`: the year window, the year selection and the sub-option filter.
- `classifier.dfy`: the row scan of one table.
- `scraper.dfy`: task enumeration, the response/task pairing, the harvest
  of all responses, and both routes end to end.
- `csvcolumn.dfy`: the CSV column projection.
- `seqlemmas.dfy`: small sequence and indexing facts shared by the proofs.

Network fetches and HTML parsing are parameters. `fetch: Request -> string`
returns a page's text, or `""` when `fetch_content` swallowed an HTTP error.
`parse: string -> Page` gives the label text, the buttons and the table rows
that BeautifulSoup would find. A Python exception that escapes a route is an
`Err` carrying the exception's kind. Every `for` statement of the source
(main.py:56, 67, 115, 118 and extracao_csv.py:19) is a `method` with a
`while` loop, proved equal to a recursive specification function; the list
comprehensions (main.py:53, 54, 103) are functions. The lemmas are about
those functions.

Some behaviour follows the code rather than the routes' descriptions:

- The all-years word is compared after `upper()` with `TUDO`, so `tudo` and
  `Tudo` select the whole window. The empty selector raises ValueError from
  `int('')`.
- A single year is taken as given, even outside the window.
- In the processing route the sub-option filter runs before the label
  check. For a non-zero category, a button without `value` therefore raises
  KeyError even when the label is missing. Category 0 skips the filter, and
  a missing label then returns no records before any button's `value` is read.
- When the quantity cell holds a single token, the unit equals the
  quantity.

## Model

| member | source | states |
|---|---|---|
| PyStr.Strip | main.py:70-71 | strip() keeps a part with no whitespace at either end |
| PyStr.StripShape | main.py:70-71 | the text is whitespace, then strip()'s result, then whitespace |
| PyStr.StripUnchanged | main.py:117 | a text with no whitespace at either end is its own strip() |
| PyStr.Words | main.py:81 | split() yields non-empty whitespace-free tokens, and none at all exactly when the text is all whitespace |
| PyStr.Interleave | main.py:81 | definition: words laid out between gaps, used to state what split() returns |
| PyStr.WordsReconstruct | main.py:81 | the text is whitespace, word, whitespace, ..., word, whitespace, with every inner gap non-empty: split() returns the maximal runs of non-whitespace in order |
| PyStr.LastWordSplit | main.py:81 | split()[-1] is followed only by whitespace and preceded by whitespace or by nothing |
| PyStr.WordsOfStrip | main.py:81 | split() of a cell's text ignores the whitespace strip() would remove |
| PyStr.WordsOfOneToken | main.py:81 | a text that strips to one token splits into exactly that token |
| PyStr.SplitOn | main.py:50 | split(sep) gives at least one piece, none containing the separator |
| PyStr.JoinSplit | extracao_csv.py:11 | joining the pieces of split(sep) with sep gives the text back |
| PyStr.SplitJoin | extracao_csv.py:23 | splitting a join of separator-free pieces gives the pieces back |
| PyStr.Find | main.py:49 | find(c) is -1 exactly when c is absent, else the first index of c |
| PyStr.Slice | main.py:49 | definition of s[i:j]: negative bounds count from the end and both are clamped (SliceBound's contract states the clamping); BracketTextOf states its use |
| PyStr.Upper | main.py:51 | definition of upper() on ASCII letters; AllYearsWordAnyCase and StrFirstChar state what it does to the selector |
| PyStr.EndsWith | main.py:103 | definition of endswith(): the last len(suffix) characters are the suffix; KeepSuffixKeeps states its use |
| PyStr.ParseInt | main.py:50-51 | definition of int(): optional whitespace, an optional sign, one or more ASCII digits, and no U+001C..U+001F anywhere; ParseStr and InfoSeparatorRejected state its behaviour |
| PyStr.InfoSeparatorRejected | main.py:50-51 | a U+001C..U+001F character, whitespace to str.isspace(), makes int() fail wherever it stands |
| PyStr.Str | main.py:103 | definition of str() of an integer: '-' for negatives, then the decimal digits without leading zeros; ParseStr and StrFirstChar state its properties |
| PyStr.ParseStr | main.py:51 | int(str(n)) == n for every integer, leaving out CPython's 4300-digit conversion limit |
| PyStr.StrFirstChar | main.py:51 | str(n) starts with '-' or a digit, which upper() leaves alone |
| PyStr.IndexOf | extracao_csv.py:15 | list.index finds the first occurrence, and fails exactly when the value is absent |
| Discovery.BracketText | main.py:49 | definition of the slice between the first '[' and the first ']'; BracketTextOf states its value |
| Discovery.ParseWindow | main.py:49-50 | succeeds exactly when the bracket text splits on '-' into two parts that int() accepts, the window being their values; every failure is ValueError |
| Discovery.FindAfter | main.py:49 | the first occurrence of c after a c-free prefix is at the prefix's length |
| Discovery.BracketTextOf | main.py:49 | the slice between the first '[' and the first ']' is the bracketed text |
| Discovery.WindowRoundTrip | main.py:49-50 | a label holding "[a-b]" after bracket-free text parses to the window a..b |
| Discovery.Range | main.py:51 | range(start, stop) has stop-start elements, element k being start+k |
| Discovery.AvailableYears | main.py:51 | definition of available_years; AllYearsAreTheWindow, SingleYearUnchecked and EmptySelectorFails state its cases |
| Discovery.AllYearsWordAnyCase | main.py:51 | the selector means all years exactly when it is "tudo" in any letter case |
| Discovery.AllYearsAreTheWindow | main.py:51 | for the all-years word the years are start..end in ascending order |
| Discovery.SingleYearUnchecked | main.py:51 | a selector str(n) selects exactly [n], whatever the window |
| Discovery.EmptySelectorFails | main.py:51 | the empty selector raises ValueError |
| Discovery.FilterSuboptions | main.py:102-103 | definition: every button for category 0, otherwise the suffix filter on str(category); FilterSuboptionsSpec states it |
| Discovery.KeepSuffix | main.py:103 | the filter only ever fails with KeyError |
| Discovery.KeepSuffixFails | main.py:103 | the filter fails exactly when some button lacks a value |
| Discovery.KeepSuffixKeeps | main.py:103 | the kept buttons are a subsequence of the buttons, holding each matching button as often as it occurs and no other |
| Discovery.FilterSuboptionsSpec | main.py:101-103 | category 0 keeps every button; otherwise the kept buttons are a subsequence holding each button whose value ends with str(category) as often as it occurs and no other, and the filter fails with KeyError exactly when a button lacks a value |
| Discovery.SuffixExample | main.py:103 | category 3 keeps "opt_03" and drops "opt_13x" |
| Classifier.ClassifyTable | main.py:65-82 | the row loop computes TableRecords: the records of the rows after the heading, or IndexError |
| Classifier.BlankSubitemFails | main.py:81 | a table fails exactly when some classified sub-item row has no token in its second cell |
| Classifier.MakeRecord | main.py:76-82 | definition of the record a sub-item row gives: year, category, type in force, stripped product and quantity, last token as unit; RecordOfSubitem and UnitIsLastToken state it |
| Classifier.TableAfterHeading | main.py:67 | the heading row is never classified: any two headings give the same result, the body's records or IndexError |
| Classifier.EmittedCount | main.py:73-82 | one record per sub-item row, no more and no fewer |
| Classifier.EmittedTags | main.py:76-77 | every record carries its table's year and category |
| Classifier.TableTags | main.py:133-151 | a table that succeeds yields one record per sub-item row after the heading, each with the table's year and category |
| Classifier.TipoWithoutItems | main.py:65 | with no item row the type stays "Desconhecido" |
| Classifier.TipoIsLatestItem | main.py:73-74 | the type in force is the title of the most recent item row |
| Classifier.EmittedPrefix | main.py:76 | records are only appended: a prefix of the rows gives a prefix of the records |
| Classifier.RecordOfSubitem | main.py:75-82 | the sub-item row at j gives record number CountSubitems(rows[..j]), with the type in force, its product, its quantity and the last token as unit |
| Classifier.ScanAppend | main.py:67-82 | one more row updates the type, the records and the failure flag as the loop body does |
| Classifier.GroupUnderItem | main.py:73-82 | sub-item rows right after an item row all get that item's title as type, in row order |
| Classifier.UnitIsLastToken | main.py:81 | the unit is a non-empty whitespace-free run of the second cell, followed only by whitespace and preceded by whitespace or by nothing |
| Classifier.UnitOfSingleToken | main.py:81 | a single-token quantity cell gives a unit equal to the quantity |
| Scraper.YearTasks | main.py:53 | definition: one task per year, in year order, requesting that year; ProductionRecords states what it yields |
| Scraper.ProcessingTasksFails | main.py:114-120 | building the tasks fails exactly when some button lacks a value, with KeyError |
| Scraper.ProcessingTasksSize | main.py:114-120 | there is one task per kept sub-option and year |
| Scraper.ProcessingTaskAt | main.py:114-120 | task s*len(years)+j requests sub-option s in year j, tagged with its year and the sub-option's stripped text |
| Scraper.ProcessingTaskTags | main.py:114-120 | every task's year is a selected year and its category is the stripped text of one of the buttons |
| Scraper.BuildProcessingTasks | main.py:114-120 | the nested loops compute ProcessingTasks |
| Scraper.Gather | main.py:54 | definition of asyncio.gather as response k = fetch of task k; ResponsesAligned states the pairing |
| Scraper.Zip | main.py:56 | definition of zip as the pairs up to the shorter length; ResponsesAligned states the pairing |
| Scraper.TaskRecords | main.py:57-63 | definition: an empty response or a page without the table contribute nothing, otherwise the table's records; HarvestNothing and HarvestCount state its effect |
| Scraper.ResponsesAligned | main.py:122-124 | zip of the gathered responses with the tasks pairs response k with task k and drops no task |
| Scraper.HarvestErrPersists | main.py:56-87 | once a response's table raises, the routine ends with that exception |
| Scraper.HarvestAll | main.py:56-87 | the response loop computes Harvest: records of all responses in task order |
| Scraper.HarvestAppend | main.py:84-85 | the records of two runs of responses are the first run's records followed by the second's |
| Scraper.HarvestNothing | main.py:57-63 | responses that are all empty or lack the table give no records |
| Scraper.HarvestProvenance | main.py:124-151 | every record carries the year and category of some task |
| Scraper.HarvestYearOrder | main.py:56-87 | tasks in non-decreasing year order give records in non-decreasing year order |
| Scraper.HarvestCount | main.py:84-87 | a successful harvest has one record per sub-item row of every fetched table |
| Scraper.ScrapeProduction | main.py:33-87 | the production route computes Production |
| Scraper.ScrapeProcessing | main.py:90-156 | the processing route computes Processing |
| Scraper.EarlyExits | main.py:40-47 | an empty front page gives no records; a missing label gives no records, except that processing with a non-zero category first raises KeyError when the filter meets a button without value |
| Scraper.ProductionRecords | main.py:49-87 | every production record has no category and one of the selected years; for the all-years word the years lie in the window, non-decreasing |
| Scraper.ProcessingRecords | main.py:101-156 | every processing record has a selected year and the stripped text of a kept button, one matching the category, as category |
| CsvColumn.HeaderYearIndex | extracao_csv.py:11-15 | the index found names the year's column and no earlier column does |
| CsvColumn.Project | extracao_csv.py:23-24 | definition: the first field split on ';', reduced to fields 0, 1, 2 and the year's, IndexError when too short; RowRoundTrip states it |
| CsvColumn.ProjectRows | extracao_csv.py:19-24 | definition of the row loop, skipping empty rows; ProjectRowsFails and ProjectRowsEntries state it |
| CsvColumn.Extract | extracao_csv.py:7-24 | the routine computes Extraction |
| CsvColumn.NonEmpty | extracao_csv.py:21 | the rows kept are non-empty |
| CsvColumn.NonEmptyMembers | extracao_csv.py:21 | every non-empty row is kept as often as it occurs, and nothing else is |
| CsvColumn.ProjectRowsFails | extracao_csv.py:23-24 | the projection fails exactly when a non-empty row is too short for the year's column, with IndexError |
| CsvColumn.ProjectRowsEntries | extracao_csv.py:19-24 | entry k is the first three fields and the year's field of the k-th non-empty row |
| CsvColumn.RowRoundTrip | extracao_csv.py:23-24 | a row written as ';'-joined fields projects to those fields |
| CsvColumn.HeaderRoundTrip | extracao_csv.py:11-15 | a header written as ';'-joined names locates the year at its first occurrence |
| CsvColumn.AnoExtraction | extracao_csv.py:4-24 | for the year 1989, a header whose first "1989" column is p projects every data row on column p |
| CsvColumn.ExtractionFails | extracao_csv.py:11-24 | the routine fails only with StopIteration for no rows, IndexError for an empty header row or a short data row, and ValueError for a missing column |

## Left out

- HTTP: `httpx`, the timeout settings, `raise_for_status` and the logged status code. `fetch` is a parameter, and `""` stands for a failed or empty response. Transport errors other than HTTP status errors, which would escape the routine, are not modelled.
- URL building: `BASE_URL`, its environment variable and the f-string URLs. A `Request` records the option, the sub-option value and the year it asks for.
- HTML parsing: BeautifulSoup is replaced by `parse`, which gives the label text, the `btn_sopt` buttons and the `tb_dados` rows of a page.
- Concurrency: `asyncio.gather` is modelled as a map over the tasks in their order. Interleaving is unobservable in the result.
- The FastAPI routes (`main.py:159-206`), their query validation and their defaults. The routes model the two scrape functions they call.
- Logging and the `print` calls of `extracao_csv.py`.
- File handling and the CSV dialect: the file path, `open`, and `csv.reader`'s quoting. The input is the sequence of rows the reader yields, each a sequence of fields.
- The module-level `ano` is a parameter of the CSV routine, with `Ano = 1989` as a constant.
- PyStr.ParseInt / PyStr.Str: CPython's `sys.int_info.default_max_str_digits` limit, a ValueError for conversions of more than 4300 decimal digits either way, is not modelled; a selector or window part that long is accepted.
- PyStr.ParseStr: holds for integers of any size, whereas CPython's `str(n)` itself raises beyond 4300 digits.
- PyStr.ParseInt: accepts ASCII digits with an optional sign and surrounding whitespace, and rejects U+001C..U+001F as `int()` does. It does not model `int()`'s underscores between digits or non-ASCII decimal digits.
- PyStr.Upper: maps only the ASCII letters.
