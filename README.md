# mc_search_app search engine in Dafny

This project models the search engine of `streamlit_app.py`, a Streamlit app that looks up a
candidate in uploaded result files. Candidates are looked up by name and by national ID number (CIN).
The model covers these parts of the app:

- `normalize`: transliterate to ASCII, lower-case, trim.
- `find_occurrences`: every non-overlapping match of the normalized query in the normalized
  page text, shown as a window of the original text.
- `read_pdf` and `search_pdfs`: one text per PDF page, then one hit per snippet, page by page
  and document by document.
- `load_tabular`: parser choice by extension, then mapping the columns to the six fields
  `nom, cin, universite, specialite, resultat, source` through a dictionary of lower-cased,
  trimmed headers and a priority list of aliases per field.
- `search_tabular`: exact, substring or fuzzy matching on the normalized name; exact or
  substring matching on the normalized CIN; results sorted by fuzzy score.
- The upload loop, which routes each file to the PDF reader or the table loader, and the three
  searches run for the name and the CIN queries.

## Layout

| file | module | models |
|---|---|---|
| `Wrappers.dfy` | `Wrappers` | `Option` |
| `Seqs.dfy` | `Seqs` | concatenation of a list of lists (`pd.concat`, nested appends) |
| `Text.dfy` | `Text` | `normalize` and the Python string operations it and the searches use: `isspace`, `lower`, `strip`, `find`, substring test |
| `Occurrences.dfy` | `OccurrenceSearch` | `find_occurrences`, with its loop as a method |
| `Pdf.dfy` | `Pdf` | `read_pdf` and `search_pdfs`, with their loops as methods |
| `Tabular.dfy` | `Tabular` | `load_tabular` and `first_match` |
| `Matching.dfy` | `Matching` | `search_tabular` as a filter and a sort over records |
| `App.dfy` | `App` | the upload loop (a method) and the three query calls |

Library calls are parameters or data:

- The fuzzy score `fuzz.partial_ratio` is a function parameter `ratio` that returns a real
  number, as rapidfuzz returns a float. `score_nom` holds that real, and the integer threshold
  from the slider is compared with it as a real.
- What `PdfReader` extracts from each page is a sequence of per-page outcomes (text, no text, or
  an exception).
- What a pandas reader returns is `Parsed(frame)` or `ParseError`. The frame is given as headers
  plus rows of cells already rendered as text.

unidecode is a concrete per-character table. It covers the Latin-1 letters, the signs `×` (to "x")
and `÷` (to "/"), the OE ligatures and the no-break space, and maps every other non-ASCII character
to "". The search relies on three of its properties: the output is ASCII, ASCII input is unchanged,
and an accented letter becomes its plain letter, which together with lower-casing makes
`normalize` ignore case and accents (`Text.NormalizeIgnoresCase`, `Text.NormalizeIgnoresAccent`).

## Behaviour of the code worth knowing

- **Whitespace-only query.** `search_pdfs` rejects only the empty string. A query of spaces
  normalizes to "", `find` then returns the cursor itself, and the loop of `find_occurrences`
  never exits, even on an empty page (see Findings). The loop as written is modelled as
  `OccurrenceSearch.LoopAsWritten`. The rest of the model uses the corrected search, which
  returns no occurrence for such a query.
- **Missing name or CIN cell.** `astype(str)` renders a missing cell as `"None"`, which
  normalizes to `"none"`. So the name query "none" keeps every row of a table that has no name
  column (`Matching.MissingNameMatchesNone`).
- **No known column at all.** When a table has none of the five fields, `load_tabular` builds a
  frame from scalars only. pandas raises there, outside the `try`, and the script stops. The
  model returns `Raised`, and the upload loop returns `Aborted`.

## Model

| member | source | states |
|---|---|---|
| `Text.TransliterateChar` | streamlit_app.py:28 | unidecode of one character is ASCII, and an ASCII character is kept as it is |
| `Text.Transliterate` | streamlit_app.py:28 | unidecode of a string is ASCII, and ASCII text comes back unchanged |
| `Text.Lower` | streamlit_app.py:28 | `str.lower` keeps the length |
| `Text.LowerAscii` | streamlit_app.py:28 | lower-cased ASCII text is ASCII with no capital letter |
| `Text.LowerIdempotent` | streamlit_app.py:28 | lower-casing twice is lower-casing once |
| `Text.LowerKeepsLowercase` | streamlit_app.py:28 | lower-casing ASCII text without capitals changes nothing |
| `Text.StripLeft` | streamlit_app.py:28 | left-trimming gives a suffix that does not start with whitespace, and only whitespace is cut |
| `Text.StripRight` | streamlit_app.py:28 | right-trimming gives a prefix that does not end with whitespace, and only whitespace is cut |
| `Text.Strip` | streamlit_app.py:28 | `strip()` leaves no whitespace at either end |
| `Text.StripCutsWhitespace` | streamlit_app.py:28 | what `strip()` keeps is a slice of the input, and all it cuts off is whitespace |
| `Text.StripTrimmed` | streamlit_app.py:28 | stripping already-trimmed text changes nothing |
| `Text.Normalize` | streamlit_app.py:25-28 | `None` gives ""; any result is ASCII, has no capital letter and no whitespace at either end |
| `Text.NormalizeIdempotent` | streamlit_app.py:25-28 | normalizing a normalized text changes nothing |
| `Text.LowerAppend` | streamlit_app.py:28 | lower-casing a concatenation lower-cases each part |
| `Text.TransliterateAppend` | streamlit_app.py:28 | unidecode of a concatenation is the concatenation of the parts' transliterations |
| `Text.TransliterateLowerChar` | streamlit_app.py:28 | a capital letter and its small letter transliterate to the same text once lower-cased |
| `Text.TransliterateLower` | streamlit_app.py:28 | lower-casing before unidecode makes no difference once the result is lower-cased |
| `Text.NormalizeIgnoresCase` | streamlit_app.py:25-28 | a text and its lower-cased form normalize to the same key, so case variants of a name match alike |
| `Text.NormalizeIgnoresAccent` | streamlit_app.py:25-28 | replacing an accented letter by the plain letter unidecode spells it as, anywhere in a text, leaves the normalized key unchanged |
| `Text.AccentedNameAgrees` | streamlit_app.py:25-28 | "mamouni abdélaziz" and "mamouni abdelaziz" normalize alike |
| `Text.CutTwice` | streamlit_app.py:28 | cutting leading and then trailing whitespace leaves a slice with only whitespace around it |
| `Text.NormalizeAscii` | streamlit_app.py:25-28 | ASCII text is normalized by lower-casing and trimming alone |
| `Text.NormalizeAsciiShorter` | streamlit_app.py:25-28 | normalizing ASCII text never makes it longer |
| `Text.NormalizeAsciiNoLeadingSpace` | streamlit_app.py:25-28 | ASCII text with no leading whitespace is only lower-cased and right-trimmed |
| `Text.NormalizeAsciiPrefix` | streamlit_app.py:25-28 | such text normalizes to a lower-cased prefix of itself, so normalized positions are original positions |
| `Text.StripLeftLower` | streamlit_app.py:28 | text that does not start with whitespace keeps its start when lower-cased and left-trimmed |
| `Text.StripRightLower` | streamlit_app.py:28 | text that does not end with whitespace keeps its end when lower-cased and right-trimmed |
| `Text.NormalizeTrimmedAscii` | streamlit_app.py:25-28 | trimmed ASCII text is normalized by lower-casing alone |
| `Text.AgreesFromIff` | streamlit_app.py:47 | the recursive character comparison is character-by-character agreement |
| `Text.MatchAtSlice` | streamlit_app.py:47 | a match at `p` is the slice comparison `s[p:p+len(sub)] == sub` |
| `Text.Find` | streamlit_app.py:47 | `str.find(sub, start)` gives -1 or a match position at or after `start` |
| `Text.FindLeftmost` | streamlit_app.py:47 | when a match exists at or after `start`, `find` gives a position no later than it, so the leftmost one |
| `Text.ContainsIff` | streamlit_app.py:136 | the substring test holds exactly when the query occurs somewhere |
| `OccurrenceSearch.MatchPositionsSound` | streamlit_app.py:45-54 | the reported positions are matches at or after the cursor, left to right, never overlapping |
| `OccurrenceSearch.MatchPositionsStep` | streamlit_app.py:47-54 | one turn of the loop: the next match, then the search resumes at `pos + len(qn)` |
| `OccurrenceSearch.MatchPositionsComplete` | streamlit_app.py:45-54 | every match at or after the cursor is reported or starts inside a reported match |
| `OccurrenceSearch.NoMatchNoPositions` | streamlit_app.py:45-49 | no position is reported exactly when the normalized query does not occur |
| `OccurrenceSearch.Slice` | streamlit_app.py:52 | a Python slice is clamped and never longer than the text |
| `OccurrenceSearch.ReplaceNewlines` | streamlit_app.py:52 | replacing newlines keeps the length and leaves no newline |
| `OccurrenceSearch.SnippetWindow` | streamlit_app.py:50-53 | a snippet is exactly the original text from `start = max(0, pos-window)` to `end = min(len(text), pos+len(query)+window)`: `end - start` characters when `start < end`, none otherwise, with newlines shown as spaces |
| `OccurrenceSearch.Snippet` | streamlit_app.py:50-52 | a snippet is at most `len(query)+2*window` long |
| `OccurrenceSearch.MatchPositions` | streamlit_app.py:45-54 | there are no more reported positions than characters of the normalized text after the cursor |
| `OccurrenceSearch.Occurrences` | streamlit_app.py:41-55 | a text never has more occurrences than its normalized form has characters |
| `OccurrenceSearch.OccurrencesAreMatches` | streamlit_app.py:45-53 | every snippet is the snippet of a match of the normalized query in the normalized text |
| `OccurrenceSearch.Snippets` | streamlit_app.py:53 | one snippet per match position |
| `OccurrenceSearch.ScanMatches` | streamlit_app.py:45-54 | the `while True` loop returns the snippets of the reported match positions, in order |
| `OccurrenceSearch.FindOccurrences` | streamlit_app.py:41-55 | the corrected `find_occurrences` returns the occurrences of the normalized query, and nothing when it normalizes to "" (as written, that case never returns) |
| `OccurrenceSearch.OccurrenceShape` | streamlit_app.py:50-53 | every returned snippet is at most `len(query)+2*window` long and holds no newline |
| `OccurrenceSearch.OccurrenceCount` | streamlit_app.py:45-55 | one snippet per match; the result is empty exactly when the normalized query does not occur in the normalized text |
| `OccurrenceSearch.EmptyTextNoOccurrence` | streamlit_app.py:41-55 | in the corrected search, the empty text has no occurrence (as written, a blank query never returns, even on an empty page) |
| `OccurrenceSearch.SnippetShowsMatch` | streamlit_app.py:47-53 | when the normalized text is a lower-cased prefix of the original, the snippet of a match holds the matched original text at offset `pos - start`, and that text lower-cases to the normalized query |
| `OccurrenceSearch.OccurrenceShowsMatch` | streamlit_app.py:43-53 | for ASCII text without leading whitespace and an ASCII query, snippet `k` of `find_occurrences` holds the original text of the `k`-th match at offset `pos - start`, and that text lower-cases to the normalized query |
| `OccurrenceSearch.SnippetsShowMatch` | streamlit_app.py:45-53 | the same for snippet `k` over any lower-cased prefix of the text |
| `OccurrenceSearch.LoweredMatch` | streamlit_app.py:47 | a match in the lower-cased prefix is the lower-cased original text |
| `OccurrenceSearch.SnippetHoldsSlice` | streamlit_app.py:50-52 | the window around a match holds the matched characters at offset `pos - start` |
| `OccurrenceSearch.LeadingSpaceTrimmed` | streamlit_app.py:28 | `" x"` normalizes to `"x"` |
| `OccurrenceSearch.SingleMatch` | streamlit_app.py:47-54 | the only match of `"x"` in `"x"` is at 0 |
| `OccurrenceSearch.LeadingSpaceShiftsSnippet` | streamlit_app.py:43-52 | normalized positions index the original text: with window 0, the match "x" of `" x"` shows as `" "` |
| `OccurrenceSearch.LoopAsWritten` | streamlit_app.py:45-54 | whenever the loop as written exits, every position it reported is a match at or after the cursor |
| `OccurrenceSearch.LoopAsWrittenExits` | streamlit_app.py:45-54 | with a non-empty normalized query, the loop as written exits and reports the match positions |
| `OccurrenceSearch.EmptyQueryNeverExits` | streamlit_app.py:46-54 | with an empty normalized query, `find` returns the cursor and the loop as written never exits |
| `OccurrenceSearch.BlankQueryHangsAsWritten` | streamlit_app.py:43-54 | the query " " is non-empty, normalizes to "", and the loop as written never exits on any text |
| `OccurrenceSearch.BlankQueryNoOccurrence` | streamlit_app.py:41-55 | the corrected search returns nothing for a query that normalizes to "" |
| `Pdf.PageText` | streamlit_app.py:34-37 | a page that raised or had no text reads as "", any other reads as its text |
| `Pdf.PageTexts` | streamlit_app.py:33-38 | one text per page |
| `Pdf.ReadPdf` | streamlit_app.py:30-39 | `read_pdf` collects every page's text in page order, and `n_pages == len(pages_text)` |
| `Pdf.FailedPageIsEmpty` | streamlit_app.py:34-37 | a failed page contributes "" and the other pages are still read |
| `Pdf.PageSnippets` | streamlit_app.py:154-155 | one list of snippets per page |
| `Pdf.PageHits` | streamlit_app.py:156-161 | one hit per snippet of a page |
| `Pdf.PdfHits` | streamlit_app.py:149-162 | every hit names one of the searched documents and a page within it |
| `Pdf.DocHitLists` | streamlit_app.py:153-161 | one list of hits per document |
| `Pdf.AppendPageHits` | streamlit_app.py:156-161 | the snippet loop appends the page's hits after the earlier results |
| `Pdf.AppendDocHits` | streamlit_app.py:154-161 | the page loop appends the document's hits, pages counted from 1 |
| `Pdf.DocHitsExtend` | streamlit_app.py:154-161 | one turn of the page loop extends the document's hits by the next page's |
| `Pdf.DocHitsStep` | streamlit_app.py:154-161 | the hits of `i+1` pages are those of `i` pages, then page `i+1`'s |
| `Pdf.SearchPdfs` | streamlit_app.py:149-162 | `search_pdfs` returns nothing for the empty query, else every document's hits in document order |
| `Pdf.PageHitLists` | streamlit_app.py:154-161 | one list of hits per page |
| `Pdf.DocHitsFlat` | streamlit_app.py:154-161 | a document's hits are the hits of its pages, page 1 first, each page's in snippet order |
| `Pdf.DocHitsWithin` | streamlit_app.py:154-161 | every hit carries the file name, a page in `1..n_pages`, and a snippet of that page |
| `Pdf.DocHitsOrdered` | streamlit_app.py:154-161 | a document's hits come in page order |
| `Pdf.DocHitsComplete` | streamlit_app.py:154-161 | every snippet of every page gives a hit |
| `Pdf.DocHitListsAppend` | streamlit_app.py:153-161 | the hit lists of two lists of documents are those of each, in order |
| `Pdf.AllHitsAppend` | streamlit_app.py:153-161 | hits come document by document, in document order |
| `Pdf.AllHitsFromDocs` | streamlit_app.py:153-161 | every hit names a searched document and a page within it |
| `Pdf.EmptyPageNoHits` | streamlit_app.py:155-156 | a page without snippets yields no hit |
| `Pdf.EmptyTextNoSnippets` | streamlit_app.py:155 | an empty page text yields no snippet |
| `Pdf.FailedPageNoHits` | streamlit_app.py:34-37 | no hit carries the number of a page whose extraction failed |
| `Pdf.NoSnippetNoDocHits` | streamlit_app.py:154-161 | a document whose pages have no snippet yields no hit |
| `Pdf.BlankQueryNoPdfHits` | streamlit_app.py:151-161 | in the corrected search, a query that normalizes to "" gets past `if not query` but finds nothing (as written, it never returns) |
| `Tabular.FormatOf` | streamlit_app.py:58-67 | the CSV, Excel and JSON readers are picked only for names ending, in lower case, with ".csv", ".xlsx" or ".xls", and ".json"; any other name gets none |
| `Tabular.FormatIgnoresCase` | streamlit_app.py:58-67 | the extension test ignores case |
| `Tabular.HeaderKeys` | streamlit_app.py:71 | one dictionary key per header |
| `Tabular.LastIndexMap` | streamlit_app.py:71 | every key of the dictionary maps to a column whose key it is |
| `Tabular.HeaderMap` | streamlit_app.py:71 | every key maps to a column whose header, lower-cased and stripped, is that key |
| `Tabular.LastIndexMapSpec` | streamlit_app.py:71 | the header dictionary has a key exactly when a header has it, and maps it to the last such column |
| `Tabular.FirstMatch` | streamlit_app.py:72-76 | when `first_match` gives `None`, none of the aliases is a key of the dictionary |
| `Tabular.FirstMatchSpec` | streamlit_app.py:72-76 | `first_match` gives `None` exactly when no alias is a key, else the column of the first alias that is |
| `Tabular.ColumnChoice` | streamlit_app.py:71-81 | a field's column is the last header whose key is the field's first present alias, and there is none when no alias is present |
| `Tabular.FirstMatchInRange` | streamlit_app.py:71-76 | a column `first_match` finds in the header dictionary is a column of the table |
| `Tabular.ChosenColumnsInRange` | streamlit_app.py:77-81 | every chosen column is a column of the table |
| `Tabular.HarmoniseFrame` | streamlit_app.py:70-91 | after a successful parse, the table raises exactly when none of the five fields has a column; otherwise it has one record per row, each with the file name as source |
| `Tabular.LoadTabular` | streamlit_app.py:57-91 | an unknown extension or a parse error gives an empty table; no known column raises; otherwise one record per row, each with the file name as source |
| `Tabular.LoadedRecord` | streamlit_app.py:83-90 | record `i` holds row `i`'s cell in each chosen column, `None` where none was chosen, and the file name as source |
| `Matching.Render` | streamlit_app.py:130-131 | a present cell renders as itself; a missing cell renders as "None", the same text as a cell holding "None" |
| `Matching.PrepareAll` | streamlit_app.py:129-131 | the working copy has one row per record |
| `Matching.QueryKey` | streamlit_app.py:133-134 | a query is left out exactly when it is ""; a given query is compared in normalized form: ASCII, no capitals, trimmed |
| `Matching.NameMatches` | streamlit_app.py:135-139 | the name condition holds exactly when the normalized name contains the normalized query somewhere or the fuzzy score reaches the threshold (the exact test adds nothing) |
| `Matching.CinMatches` | streamlit_app.py:143-144 | the CIN condition is exactly a substring test |
| `Matching.Keep` | streamlit_app.py:132-145 | with neither query every row is kept, and a kept row contains the normalized CIN query when one is given |
| `Matching.FilterRows` | streamlit_app.py:132-146 | at most one result row per row, every row when neither query is given, and a `score_nom` exactly when a name query is given |
| `Matching.InsertByScore` | streamlit_app.py:147 | insertion adds one hit |
| `Matching.SortByScore` | streamlit_app.py:147 | sorting keeps the number of rows |
| `Matching.InsertByScorePerm` | streamlit_app.py:147 | inserting a hit into the sorted list adds exactly that hit |
| `Matching.InsertByScoreMembers` | streamlit_app.py:147 | insertion keeps every hit and adds the inserted one |
| `Matching.InsertByScoreSorted` | streamlit_app.py:147 | insertion keeps the list sorted by descending score |
| `Matching.SortByScoreSpec` | streamlit_app.py:147 | sorting by `score_nom` gives a permutation sorted by descending score |
| `Matching.FilterRowsMembers` | streamlit_app.py:132-146 | a row is kept exactly when it passes both conditions, and gives its record with its score |
| `Matching.FilterRowsMonotone` | streamlit_app.py:137-139 | at a higher threshold the kept rows are among those kept at a lower one |
| `Matching.SearchTabular` | streamlit_app.py:126-147 | the result never has more rows than the table, and has all of them when neither query is given |
| `Matching.SearchTabularShape` | streamlit_app.py:126-147 | the result is a permutation of the kept rows, sorted by descending score with a name query, with `score_nom` exactly when a name query is given |
| `Matching.ResultIsFiltered` | streamlit_app.py:132-147 | every result row is one of the rows the filter kept (sorting only reorders them) |
| `Matching.ResultRow` | streamlit_app.py:132-146 | every result row is the result row of a kept record |
| `Matching.KeptRowInResult` | streamlit_app.py:132-146 | every kept record gives a result row |
| `Matching.SearchTabularKeeps` | streamlit_app.py:132-146 | a record is in the result exactly when it passes the name condition (if given) and the CIN condition (if given) |
| `Matching.SearchTabularSubset` | streamlit_app.py:126-146 | every result row is a record of the table |
| `Matching.ScoreIsRatio` | streamlit_app.py:137-141 | with a name query, a row's `score_nom` is the real-valued fuzzy score of its normalized name against the normalized query |
| `Matching.ThresholdMonotone` | streamlit_app.py:137-139 | raising the threshold never adds a row |
| `Matching.ExactNameAlwaysKept` | streamlit_app.py:133-140 | an exact normalized name match that passes the CIN condition is kept at every threshold |
| `Matching.CinNoFuzzy` | streamlit_app.py:142-145 | a CIN that neither equals nor contains the normalized CIN query is dropped, whatever the threshold and the scores |
| `Matching.MissingCellReadsNone` | streamlit_app.py:130-131 | a missing cell renders as "None" and normalizes to "none" |
| `Matching.NoneQueryNormalized` | streamlit_app.py:134 | the query "none" normalizes to itself |
| `Matching.MissingNameMatchesNone` | streamlit_app.py:130-140 | every row of a table without a name column matches the name query "none" |
| `Matching.ContainsEmpty` | streamlit_app.py:136 | the empty string occurs in every string |
| `Matching.BlankNameQueryKeepsAll` | streamlit_app.py:133-140 | a name query that normalizes to "" keeps every row when no CIN query is given |
| `App.WithSource` | streamlit_app.py:121 | `assign(source=...)` keeps the number of records |
| `App.WithSourceSets` | streamlit_app.py:121 | after `assign`, every record's source is the file name |
| `App.Outcome` | streamlit_app.py:113-118 | an upload is read as a PDF exactly when its lower-cased name ends with ".pdf", and then its page count is its number of texts and of pages |
| `App.IngestStep` | streamlit_app.py:113-121 | one turn adds at most one document or table, and once aborted the loop stays aborted |
| `App.IngestAll` | streamlit_app.py:112-121 | the loop collects at most one entry per upload |
| `App.IngestKeepsNoEmptyTable` | streamlit_app.py:119-121 | every table the loop keeps has at least one record |
| `App.Files` | streamlit_app.py:113-121 | one outcome per upload |
| `App.AbortedStays` | streamlit_app.py:113-121 | once `load_tabular` has raised, the remaining uploads change nothing |
| `App.Ingest` | streamlit_app.py:112-121 | the upload loop reads ".pdf" files (any case) with `read_pdf` and the others with `load_tabular`, and keeps the non-empty tables with their file name as source |
| `App.AssignKeepsRecords` | streamlit_app.py:121 | `assign(source=up.name)` changes nothing, because `load_tabular` already set that source |
| `App.RaisesStep` | streamlit_app.py:113-121 | an upload raises exactly when an earlier one or the last one does |
| `App.IngestAborts` | streamlit_app.py:112-121 | the loop stops exactly when some upload makes `load_tabular` raise |
| `App.IngestCollects` | streamlit_app.py:112-121 | otherwise it collects every PDF document and every non-empty table, in upload order |
| `App.SkippedUpload` | streamlit_app.py:112-121 | a file with an unknown extension or a parse error is skipped |
| `App.PdfEntriesFrom` | streamlit_app.py:114-116 | every collected document comes from a PDF upload, with its name |
| `App.TableEntriesFrom` | streamlit_app.py:118-121 | every collected record carries the name of the upload whose table held it |
| `App.FileOf` | streamlit_app.py:113-114 | an upload's outcome is a PDF exactly when its lower-cased name ends with ".pdf" |
| `App.RunQuery` | streamlit_app.py:164-166 | the tables are searched concatenated; the documents are searched for the name query and the CIN query separately, each only when given |
| `App.TabularHitsFromUploads` | streamlit_app.py:112-124 | every tabular hit carries the name of an uploaded non-PDF file as its source |
| `App.PdfHitsFromUploads` | streamlit_app.py:149-166 | every PDF hit names an uploaded PDF file and one of its pages, counted from 1 |

## Left out

- The Streamlit page, sidebar widgets, spinners, result rendering and CSV download are out of scope: they are presentation only.
- `PdfReader` itself, including a file it cannot open at all, is out of scope. A document is given as its per-page extraction outcomes.
- The pandas readers are out of scope. A parse is given as `Parsed(frame)` or `ParseError`, and the frame is taken to be rectangular, as a DataFrame is.
- Column labels are taken to be strings. A label that is not a string would make `.lower()` raise.
- `Text.Lower`: lower-cases ASCII and the Latin-1 capitals only, not all of Unicode. The app applies `lower()` to file names, headers and unidecode's ASCII output.
- `Text.TransliterateChar`: covers the Latin-1 letters, `×` and `÷`, the OE ligatures and the no-break space. Any other non-ASCII character becomes "", which is not always what unidecode gives.
- `Text.ContainsIff`: the model tests for a literal substring. pandas `str.contains` treats the query as a regular expression by default, so a query with regex metacharacters behaves differently.
- `Matching.SearchTabular`: without a name query, the rows keep table order. The app sorts them descending over all columns, so only "a permutation of the kept rows" is claimed.
- `Matching.SortByScoreSpec`: the order among hits with equal scores is the model's. pandas' default quicksort is not stable.
- `Matching.Render`: renders a missing cell as "None". A NaN cell read from a file (rendered "nan") is not distinguished: cells arrive already rendered as text.
- `fuzz.partial_ratio` is a parameter. Nothing is assumed about its range.
- `OccurrenceSearch.OccurrenceShowsMatch`: proved only for ASCII text without leading whitespace and an ASCII query, where the normalized text is a lower-cased prefix of the original. Transliteration or a leading space shifts positions (`OccurrenceSearch.LeadingSpaceShiftsSnippet`).
- `Tabular.LoadTabular`: a chosen column whose original label is "" would be dropped by `if col_nom`. Such a label cannot be chosen, because its key "" is no alias, so the model does not test it.

## Findings

| source | as written | input that shows it | evidently intended | confidence | as-written member | corrected member |
|---|---|---|---|---|---|---|
| streamlit_app.py:43-54 | `search_pdfs` only rejects the empty query. A query of spaces normalizes to "", `tn.find("", idx)` returns `idx`, and `idx = pos + len(qn)` never moves, so the loop never exits | name query `" "` with one uploaded PDF | a query that normalizes to "" finds no occurrence | high, not executed | `OccurrenceSearch.BlankQueryHangsAsWritten` | `OccurrenceSearch.FindOccurrences` |
