# Home-shopping ranking snapshot — Dafny model

`main.py` crawls the daily home-shopping TOP100 ranking and writes it to a
Google spreadsheet. First it uploads the main sheet. Then it copies that sheet
into a new tab named after yesterday's date. Then it moves the platform
(company) name at the end of each broadcast label into two new columns: the
company name and its Live/TC tag. Last, it puts the dated tab first.

This project models the pure decisions in that pipeline and proves what each
one guarantees:

- `Text`: Python's `str.isspace`, `rstrip`, `lstrip`, `strip` and `str(n)`/`%02d`.
- `Platform`: `PLATFORM_MAP`, `PLATFORMS_BY_LEN`, the regular expression
  `\s*<key>\s*$` searched for and substituted by `re`, and
  `split_company_from_broadcast`. No name in `PLATFORM_MAP` ends another,
  so at most one name can end a label. The longest-first scan therefore
  never has two candidates to choose between for this table.
- `SheetTitle`: `unique_sheet_title`. The spreadsheet's existing titles are a
  finite set.
- `Calendar`: `make_yesterday_title_kst`, with today's KST date passed in.
  It covers Gregorian ordinals, the previous day and `%y/%m/%d`.
- `Ranking`: the row loop of `crawl_ranking`, over cell texts that have
  already been read.
- `Snapshot`: the `rows`/`cols` the dated sheet is created with, and the
  augmentation pass that splits the broadcast column.
- `Tabs`: the new tab order passed to `reorder_worksheets`.

The code and its comments disagree in one place, and the model follows the
code: the comment at main.py:262 gives a title like `"10/26"`, but the code
formats `%y/%m/%d`, which gives `"25/10/26"`. `Calendar.FormatYYMMDD` models
the code.

A note on whitespace: `re.search` and `re.sub` are modelled as Python runs them
on a `str` pattern. There `\s` is the same predicate as `str.isspace`, so it
also matches Unicode spaces such as U+3000. `Text.IsSpace` is that one
predicate, shared by the regular expression and by `rstrip`/`strip`.

## Model

| member | source | states |
|---|---|---|
| Text.IsSpace | main.py:217-221 | `str.isspace` and regex `\s`: space, tab to carriage return, U+1C-1F, U+85, U+A0, U+1680, U+2000-200A, U+2028, U+2029, U+202F, U+205F, U+3000; `RTrimSpec`, `LTrimSpec` and `MatchesAtTrimmed` state what it means for the trims and the pattern |
| Text.RTrim | main.py:217 | `str.rstrip()`; its contract is `Text.RTrimSpec` and `Text.RTrimUnique` |
| Text.LTrim | main.py:150-157 | `str.lstrip()`, the second half of `strip`; its contract is `Text.LTrimSpec` |
| Text.Strip | main.py:150-157 | `str.strip()` as right-trim then left-trim; its contract is `Text.StripSpec` and `Text.StripIsInfix` |
| Text.RTrimSpec | main.py:217 | rstrip keeps a prefix whose removed tail is all whitespace and which does not itself end in whitespace |
| Text.RTrimUnique | main.py:217 | those two properties fix the rstrip result uniquely |
| Text.RTrimIdempotent | main.py:221 | right-trimming twice is the same as once, so the second `.rstrip()` after `re.sub` is harmless |
| Text.LTrimSpec | main.py:150-157 | lstrip keeps a suffix whose removed head is all whitespace and which does not start with whitespace |
| Text.StripSpec | main.py:150-157 | strip is no longer than its input and neither starts nor ends with whitespace |
| Text.StripIsInfix | main.py:150-157 | the input is whitespace, then strip's result, then whitespace |
| Text.NatToString | main.py:210 | `str(n)` is a non-empty digit string with no leading zero |
| Text.ParseNatToString | main.py:210 | reading `str(n)` back as a decimal gives n |
| Text.NatToStringInjective | main.py:210 | distinct counters render to distinct strings |
| Text.Pad2 | main.py:203 | `%02d` of n < 100 is two digits that read back as n |
| Platform.StepSortedIsSorted | main.py:197 | non-increasing adjacent lengths imply the whole table is sorted longest first |
| Platform.PlatformsByLenStepSorted | main.py:197 | adjacent sorted names never grow in length |
| Platform.PlatformsByLenSorted | main.py:197 | `PLATFORMS_BY_LEN` is sorted longest name first |
| Platform.PlatformsByLenIsStableSort | main.py:191-197 | `PLATFORMS_BY_LEN` has exactly the (distinct) `PLATFORM_MAP` entries, longest first, ties in insertion order, as Python's stable `sorted(key=len, reverse=True)` yields |
| Platform.PlatformMapDistinct | main.py:191-196 | the platform names are pairwise distinct |
| Platform.PlatformsByLenSameEntries | main.py:197 | the sorted list has the same entries as the map |
| Platform.PlatformsByLenSource | main.py:197 | each sorted position holds one named map entry |
| Platform.PlatformsByLenTiesInOrder | main.py:197 | names of equal length keep their insertion order |
| Platform.PlatformsByLenWellFormed | main.py:191-197 | every name is non-empty, ends in a non-space, and maps to "Live" or "TC" |
| Platform.PlatformsByLenDistinct | main.py:197 | the sorted names are pairwise distinct |
| Platform.LongNames | main.py:191-196 | only three platform names are longer than nine characters |
| Platform.MatchesAt | main.py:219-220 | the pattern whitespace, key, whitespace, end of text matching from position p; characterised on trimmed text by `Platform.MatchesAtTrimmed` |
| Platform.FirstMatchFrom | main.py:220 | `re.search` returns the leftmost position where the pattern matches, or none |
| Platform.Search | main.py:220 | `re.search` finds the pattern: `FirstMatchFrom` from 0 succeeds; `Platform.SearchSubTrimmed` shows this holds iff the trimmed text ends with key |
| Platform.Sub | main.py:221 | `re.sub` with an empty replacement: the text before the leftmost match; `Platform.SearchSubTrimmed` shows it is the right-trimmed text before key |
| Platform.MatchEndsAtEnd | main.py:219-220 | on right-trimmed text, a match means the text ends with the key, with whitespace before it |
| Platform.MatchesAtTrimmed | main.py:219-220 | on right-trimmed text, the pattern matches at p iff the text ends with key and only whitespace lies between p and key |
| Platform.SearchSubTrimmed | main.py:219-221 | the search succeeds iff the trimmed text ends with key; `re.sub` then leaves exactly the right-trimmed text before key |
| Platform.ScanTable | main.py:218-223 | the loop over the table: the first key whose search succeeds returns cleaned, key and tag, and running off the end returns the text with "" and ""; its contract is `Platform.ScanTableFindsLongestSuffix` and `Platform.ScanTableByLongestSuffix` |
| Platform.ScanTableFindsLongestSuffix | main.py:218-223 | over a sorted, well-formed table, the first hit is the longest name ending the text; with no hit, the original text comes back with "" and "" |
| Platform.SplitCompanyFromBroadcast | main.py:214-223 | `split_company_from_broadcast`: empty text returned as is, otherwise the right-trimmed text scanned against `PLATFORMS_BY_LEN`; its contract is `Platform.SplitCompanyFromBroadcastSpec` and `Platform.SplitByLongestSuffix` |
| Platform.SplitCompanyFromBroadcastSpec | main.py:214-223 | company is empty iff the text is empty or no platform name ends it, and then the text is returned unchanged; otherwise company is the longest such name, tag is its map value, and cleaned is the right-trimmed text before it |
| Platform.SplitEmpty | main.py:215-216 | an empty label splits into three empty strings |
| Platform.ScanTableByLongestSuffix | main.py:218-222 | with distinct names, the longest suffix entry alone determines the scan's result |
| Platform.ScanTableBySameEntries | main.py:197-222 | the same holds when the longest entry is chosen from another table with the same entries, as `PLATFORM_MAP` is to `PLATFORMS_BY_LEN` |
| Platform.SplitByLongestSuffix | main.py:214-222 | conversely, the split is determined by the longest platform name ending the right-trimmed label |
| Platform.PlatformMapNameTails | main.py:191-196 | every name has at least three characters, and two names ending in the same three characters have the same length |
| Platform.AtMostOneSuffixIn | main.py:218-222 | in a table whose three-character endings fix the length and whose names are distinct, at most one entry ends any text |
| Platform.AtMostOneSuffix | main.py:191-196 | at most one `PLATFORM_MAP` entry ends any text |
| Platform.NoNameEndsAnother | main.py:191-196 | no `PLATFORM_MAP` name ends another one (e.g. "GS홈쇼핑" is a prefix, not a suffix, of "GS홈쇼핑 마이샵") |
| Platform.SplitBySuffix | main.py:214-223 | whichever `PLATFORM_MAP` name ends the right-trimmed label is split off with its tag, and the right-trimmed text before it is kept; the longest-first order never decides, since no other name ends the label |
| Platform.ExampleLabelFacts | main.py:192 | the example label ends with "GS홈쇼핑 마이샵" and with none of the three longer names |
| Platform.ExampleLabelLongest | main.py:191-196 | no platform name longer than nine characters ends the example label |
| Platform.SplitExampleLabel | main.py:214-223 | "이번주 특가상품 GS홈쇼핑 마이샵" splits into "이번주 특가상품", "GS홈쇼핑 마이샵" and TC |
| SheetTitle.Candidate | main.py:206-210 | the n-th title tried: base, then base, a hyphen and n; `SheetTitle.CandidateInjective` shows the titles are distinct |
| SheetTitle.CandidateInjective | main.py:206-210 | different counters give different titles |
| SheetTitle.FirstFreeUnique | main.py:205-212 | at most one title is the first candidate that is not taken |
| SheetTitle.FirstFreeExample | main.py:205-212 | with "9/10" and "9/10-2" taken, the next title is "9/10-3" |
| SheetTitle.UniqueSheetTitle | main.py:205-212 | the loop ends and returns a title not in use, which is base or `base-n` for some n >= 2, and every earlier candidate is taken |
| Calendar.DaysBeforeYear | main.py:202 | days in the years before y, in the closed form the datetime module uses; `Calendar.DaysBeforeYearStep` shows it grows by each year's length |
| Calendar.DaysBeforeMonth | main.py:202 | days in the months of the year before month m; `Calendar.DaysBeforeMonthWholeYear` and `Calendar.DaysBeforeMonthMonotone` state its meaning |
| Calendar.Ordinal | main.py:202 | `date.toordinal()`, the day count that timedelta arithmetic works on; `Calendar.OrdinalWithinYear` and `Calendar.OrdinalInjective` state its meaning |
| Calendar.DaysBeforeYearStep | main.py:202 | the Gregorian day count grows by the length of each year |
| Calendar.DaysBeforeMonthWholeYear | main.py:202 | the twelve months add up to the year's length |
| Calendar.DaysBeforeMonthMonotone | main.py:202 | earlier months lie wholly before later ones |
| Calendar.DaysBeforeYearMonotone | main.py:202 | earlier years lie wholly before later ones |
| Calendar.OrdinalWithinYear | main.py:202 | a date's ordinal falls within its own year |
| Calendar.OrdinalInjective | main.py:202 | valid dates with the same ordinal are equal |
| Calendar.DayPredecessor | main.py:202 | within a month the previous day has ordinal one less |
| Calendar.MonthStartPredecessor | main.py:202 | the last day of the previous month precedes the first of a month |
| Calendar.NewYearPredecessor | main.py:202 | 31 December of the previous year precedes 1 January |
| Calendar.PreviousDay | main.py:202 | `today - timedelta(days=1)` is a valid date with ordinal one less, and fails only for 0001-01-01 |
| Calendar.FormatYYMMDD | main.py:203 | `%y/%m/%d` gives 8 characters, slashes at positions 2 and 5, and digit pairs that read back as year mod 100, month and day |
| Calendar.YesterdayTitle | main.py:199-203 | the title is the `%y/%m/%d` rendering of the unique valid date one day before today; none exists only for 0001-01-01 |
| Calendar.YesterdayOfLeapMarch | main.py:199-203 | 2024-03-01 gives "24/02/29" |
| Calendar.YesterdayOfNewYear | main.py:199-203 | 2025-01-01 gives "24/12/31" |
| Ranking.RowFromCells | main.py:149-158 | the record built from one row: field i is cell i stripped; its contract is `Ranking.RowFromCellsPositional` and `Ranking.RowFromCellsIgnoresExtraCells` |
| Ranking.ExtractRows | main.py:146-159 | the row loop: each row in order, appended as a record when it has at least eight cells; its contract is `Ranking.ExtractRowsKeepsLongRows` and `Ranking.ExtractRowsAppend` |
| Ranking.RowFromCellsPositional | main.py:148-161 | each of the eight fields is the matching cell, stripped, under the eight column names |
| Ranking.RowFromCellsIgnoresExtraCells | main.py:149-158 | cells past the eighth play no part in the record |
| Ranking.KeptIndices | main.py:146-148 | the kept positions are ascending, and they are exactly the rows with at least eight cells |
| Ranking.ExtractRowsKeepsLongRows | main.py:146-159 | the k-th record is built from the k-th row that has at least eight cells, and there are no other records |
| Ranking.ExtractRowsAppend | main.py:146-159 | extracting a concatenation is the concatenation of the extractions |
| Snapshot.ReadValues | main.py:264 | an empty read becomes one row holding one empty cell; `Snapshot.SnapshotSize` and `Snapshot.Augment` are stated over it |
| Snapshot.MaxRowLength | main.py:266 | the maximum row length bounds every row and is attained |
| Snapshot.SnapshotSize | main.py:264-266 | the new sheet has at least 2 x 2 cells and holds every copied row; each dimension is 2 or attained by the values; an empty read counts as one empty cell |
| Snapshot.Pad | main.py:280 | padding reaches the header width (never shortens), keeps the cells, and fills with "" |
| Snapshot.BroadcastCell | main.py:280-281 | the text handed to the splitter: padded cell 1, stripped, or ""; its contract is `Snapshot.BroadcastCellIsStrippedOriginal` |
| Snapshot.AugmentRow | main.py:279-285 | one pass of the loop: pad, replace cell 1 with cleaned, append company and tag; its contract is `Snapshot.AugmentRowSpec` and `Snapshot.AugmentShortRow` |
| Snapshot.AugmentRowSpec | main.py:279-285 | a data row is padded to the header width; only cell 1 changes, to the splitter's cleaned text; company and tag are appended |
| Snapshot.Augment | main.py:274-286 | the output has one row per value row; the header gets "회사명" and "홈쇼핑구분" appended, and each data row is augmented against the header width |
| Snapshot.BroadcastCellIsStrippedOriginal | main.py:280-282 | the splitter sees the stripped original cell 1, or "" when the row has no cell 1 |
| Snapshot.AugmentShortRow | main.py:280-285 | a row with no broadcast cell gets "" for company and tag, and "" in column 1 when padded |
| Tabs.OthersById | main.py:418-420 | the loop that keeps every sheet whose id differs, in order; its contract is `Tabs.OthersByIdMembers`, `Tabs.OthersByIdAppend` and `Tabs.OthersByIdNone` |
| Tabs.OthersByIdMembers | main.py:418-420 | a sheet survives the filter iff it was present and has a different id |
| Tabs.OthersByIdAppend | main.py:418-420 | the filter distributes over concatenation, so relative order is kept |
| Tabs.OthersByIdNone | main.py:418-420 | a list with no sheet of that id passes through unchanged |
| Tabs.OthersByIdAroundOne | main.py:418-420 | removing the only sheet with that id joins the sheets before and after it |
| Tabs.NewOrder | main.py:415 | the new sheet comes first |
| Tabs.NewOrderMembers | main.py:415-420 | after the new sheet come exactly the sheets with a different id |
| Tabs.NewOrderMovesToFront | main.py:413-422 | with unique ids and the new sheet present, the order is the new sheet, then the sheets before it, then the sheets after it |
| Tabs.NewOrderIsPermutation | main.py:413-422 | with unique ids and the new sheet present, the new order is a permutation of the current sheets |

## Left out

- Browser automation is not modelled: `make_driver`, `login_and_handle_session`, the waits and the `find_element` calls of `crawl_ranking`. `Ranking` starts from the cell texts. They are I/O.
- `save_debug` and the artifacts directory are file I/O.
- `gs_client_from_env` is not modelled: environment, Base64 and JSON decoding, and credentials are I/O.
- The gspread calls are not modelled: opening the spreadsheet, `worksheet`, `add_worksheet`, `clear`, `update`, `get_all_values`, `worksheets`, `reorder_worksheets`. Their results are parameters.
- The cell formatting block (main.py:294-405) only sends formatting requests to the API. It computes nothing the rest of the pipeline uses.
- The pandas DataFrame construction and `astype(str)` (main.py:162, main.py:256) are not modelled. The records are already strings, so the conversion is the identity here.
- The clock read `datetime.now(KST)` is I/O. `Calendar.YesterdayTitle` takes today's KST date as a parameter.
- The top-level `try`/`except` (main.py:429-433) prints the traceback and re-raises, so any failure ends the run. The model has no failure path for it: it covers only the pure steps, none of which raises except the day before 0001-01-01 (`Calendar.PreviousDay` returns None there).
- The handlers around the formatting block (main.py:404-405) and the tab reorder (main.py:424-425) print a warning and carry on. The model leaves out the gspread failures they catch.
- SheetTitle.UniqueSheetTitle: only `WorksheetNotFound` is modelled. Any other exception from `sh.worksheet` would propagate, and the model does not represent it.
- Platform.SplitCompanyFromBroadcastSpec: `text` is a string. `None` is falsy in the source too and would take the same empty path, but it is not a string, so it is not modelled.
- Tabs.NewOrderIsPermutation: it requires unique ids and the new sheet to be among the current sheets. That is what the spreadsheet API guarantees. Without those conditions the code drops duplicates of the new sheet's id, and `Tabs.NewOrderMembers` states exactly that.
- Numeric unit parsing, revenue and volume aggregation, and new-entry detection are no longer in main.py. The notes at main.py:225 and main.py:407-410 record their removal, so there is nothing to model.
