# literature_management in Dafny

A Dafny model of the core of *literature_management*. This is a Streamlit
application that keeps a table of papers in SQLite. Its core does five things:

- It finds a paper's DOI in the text of its PDF. It uses a regular expression over the first two pages, and an OCR fill for pages without text.
- If the PDF holds no DOI, it searches for one from the file name on CiNii and on Crossref.
- It fetches bibliographic metadata for a DOI from Crossref, and falls back to JALC.
- It stores the record, after a duplicate-DOI guard, either in a batch or through the upload form.
- It filters the table in the browsing view, offers the select-box choices, saves edits, and fills in summaries on the summary page.

The model has one module per concern:

| module | file | what it holds |
|---|---|---|
| `Wrappers` | wrappers.dfy | `Option`, and `Outcome` for Python code that may raise. `Ok` is a value. `Caught` is an exception the surrounding `try` handles. `Raised` is one that escapes. |
| `Text` | text.dfy | Python string operations: `strip`, `split`, `join`, `in`, ASCII lower-casing, the `\s`, `\w` and `\d` classes. |
| `DoiPattern` | doi_pattern.dfy | The DOI regular expression as a scanner that follows the backtracking matcher, and `extract_doi`. |
| `PdfText` | pdf_text.dfy | The OCR fill of `extract_text_from_pdf`, and both versions of `process_pdf` with their page selection. |
| `Bibliographic` | bibliographic.dfy | JSON values, the Crossref and JALC mappings of `get_metadata_from_doi`, and their precedence. |
| `FilenameSearch` | filename_search.dfy | `os.path.splitext`, the CiNii and Crossref searches, the fallback chains, and the DOI step of the upload form. |
| `Literature` | literature.dfy | Rows and the SQLite id rule, both store functions, the filter chain of the browsing view, and the option lists. |
| `SaveEdits` | save_edits.dfy | The "save changes" write-back as written, and a corrected version. |
| `AiSummary` | ai_summary.dfy | The summary page: default selection, Drive file ids, the summary loop, and the write-back. |

Every network answer is an input to the model: the HTTP responses, the CiNii page, the Crossref search and the Google Drive download. So are the PDF reader's page documents, the OCR page texts and the language model, given as `ai`. Python exceptions are followed through each `try`/`except`. A KeyError, ValueError or IndexError that the code catches is `Caught`. A TypeError or AttributeError that escapes is `Raised`.

Two details of the code are easy to misread:

- The category column is named カテゴリ in `database.py` and in `function.py`. `backup_app.py` and its browsing view name it 関連テーマ. The model has one `category` column and assumes a table that has the column under the name each piece of code uses. The consequence for the upload form of `backup_app.py` is under "## Findings". The consequence for the browsing view and the save is under "## Left out".
- Saving edits does not update rows in place. It replaces the whole table by the edited frame, renumbered from 1 (`SaveEdits.MergeRenumbers`).

## Model

| member | source | states |
|---|---|---|
| DoiPattern.RunLengthUnique | function.py:75 | A greedy run of a character class (`\d{4,9}`, `[:\s]*`, `[-._;()/:A-Z0-9]+`) is fixed by where it stops: any run that ends at a non-member has the length the matcher consumes. |
| DoiPattern.BacktrackEnd | function.py:75 | Backtracking before the final `\b` picks the largest end, within the greedy run, at which a word boundary holds. It fails only when no end in the run has a boundary. |
| DoiPattern.GroupAt | function.py:75 | A capture group found at `q` is a well-formed DOI: `10.`, then 4 to 9 digits, `/`, then at least one suffix character. It occurs in the text at `q`. |
| DoiPattern.MatchAt | function.py:75 | A match of the whole pattern at `p` yields a well-formed DOI that occurs in the text at or after `p`. |
| DoiPattern.SuffixGroup | function.py:75 | Once `10.`, the digits and `/` matched, the group that ends at the last word boundary of the suffix run is a well-formed DOI occurring at `q`. |
| DoiPattern.FirstMatch | function.py:78-80 | The scan finds a group exactly when some position from `p` on matches. What it returns is the match at the first such position. |
| DoiPattern.ExtractDoi | function.py:75-80 | `extract_doi` returns a well-formed DOI contained in the text, taken from the first position where the pattern matches. It returns `None` exactly when the pattern matches nowhere. |
| PdfText.PyIndex | function.py:69-70 | Python list indexing, including negative indices: an index `k` with `-len <= k < 0` gives item `len + k`. It fails exactly when the index is below `-len` or at least `len`. |
| PdfText.FillDoc | function.py:58-70 | A document with text is kept. A blank page whose label is in range takes its OCR page. A label past the OCR pages leaves the document unchanged. A label of 0 or less indexes from the end, and raises below `-len`. Path and label never change. |
| PdfText.ExtractTextFromPdf | function.py:52-71 | The loop succeeds exactly when every document's fill succeeds, and then returns the filled documents in order. OCR runs once per file, only for files with a blank page, and on every such file. |
| PdfText.ReplaceNewlines | function.py:86 | Every line break becomes a space, and every other character stays in place. |
| PdfText.CombinedText | function.py:85-86 | The text scanned for a DOI is the first document's text, a space, and the second's, with every line break turned into a space: only the first text when there is one document, and empty when there is none. It contains no line break. |
| PdfText.ProcessPdf | function.py:84-88 | `process_pdf` returns the first two documents. Its DOI is a well-formed DOI contained in their combined text. It returns `None` exactly when the pattern matches nowhere in that text. |
| PdfText.ProcessPdfReadsFirstTwo | function.py:85-88 | On the filled documents, those after the second never change the result. The fill itself runs over every document first, so a later blank page can still make the whole call raise (ExtractTextFromPdf). |
| PdfText.PagesTextSingle | backup_app.py:80-84 | A requested page adds its text and a line break when it exists, and nothing otherwise. |
| PdfText.PagesTextAppend | backup_app.py:77-85 | The text for requests `a + b` is the text for `a` followed by the text for `b`. |
| PdfText.PagesTextEmpty | backup_app.py:77-85 | The text is empty exactly when none of the requested pages exists; otherwise it ends with a line break. |
| PdfText.PagesTextFirstTwo | backup_app.py:77-85 | With the default pages `[0, 1]` and at least two pages, the text is page 0, a line break, page 1, a line break. |
| PdfText.ProcessPdfPages | backup_app.py:98-101 | The DOI of `backup_app.py`'s `process_pdf` is well formed and contained in the text of pages 0 and 1. |
| PdfText.ProcessPdfPagesReadsFirstTwo | backup_app.py:98-101 | Pages after the second never change the result. |
| Bibliographic.Index | function.py:106 | `d[key]` succeeds exactly on an object that has the key. A missing key is a caught KeyError. A value that is not an object raises. |
| Bibliographic.Get | function.py:112-113 | `d.get(key, default)` gives the member or the default on an object, raises on anything else, and is never caught. |
| Bibliographic.First | function.py:109 | `xs[0]` on a list gives its first item. On an empty list it is a caught IndexError. |
| Bibliographic.Elements | function.py:110 | A loop over a list visits its items, and one over a string its one-character strings. It raises exactly on a value that is not a list, a string or an empty object, and nothing catches it. |
| Bibliographic.CrossrefAuthorNames | function.py:110 | When it succeeds, author `i` becomes `family + " " + given`, and each author is an object whose `family` and `given` are strings. |
| Bibliographic.CrossrefMessage | function.py:107-117 | The record is built exactly when title, authors, journal, page and year can all be evaluated. It keeps the DOI. A `title` or `container-title` list gives its first entry, and an empty `title` list is a caught IndexError. Volume and issue are the member or "Not found". Both pages are strings, and a `page` member that is not a string never yields a record. A list of authors gives their `"family given"` names joined by `", "`, so `""` for an empty list. The year is `date-parts[0][0]` of `published-print`. |
| Bibliographic.CrossrefRecord | function.py:104-119 | A body that is not JSON is a caught ValueError. A `{"message": {...}}` body gives the record of its message. The record keeps the DOI asked for. |
| Bibliographic.CrossrefDefaults | function.py:109-116 | Members missing from the message take their defaults: "Not found" for title, journal, volume, issue and both pages; no authors; and a null year. |
| Bibliographic.CrossrefPageRange | function.py:114-115 | The first page is the longest hyphen-free prefix of `page`. The last page is the longest hyphen-free suffix. A page without a hyphen is both. |
| Bibliographic.CrossrefEmptyTitleFallsBack | function.py:109-124 | An empty `title` list is a caught IndexError. The result is then the same as if Crossref had not answered. |
| Bibliographic.FirstJapanese | function.py:137-138 | When every entry has a `lang`, the search succeeds. It gives the first entry whose `lang` is `ja`, or the default when there is none. |
| Bibliographic.JalcSelectJapanese | function.py:137-139 | The title (or journal) comes from the first Japanese entry, `"Not found"` when that entry has no title. |
| Bibliographic.JalcSelectFallback | function.py:137-139 | Without a Japanese entry, the first entry is used. An empty list is a caught IndexError, because the default `list[0]` is evaluated first. |
| Bibliographic.JapaneseNames | function.py:143-146 | The authors of one creator are at most as many as its names. |
| Bibliographic.JapaneseNamesTakesJapanese | function.py:143-146 | A name whose `lang` is `ja` adds `last_name + " " + first_name` in front of the later names' authors. |
| Bibliographic.JapaneseNamesSkipOthers | function.py:143-146 | A name whose `lang` is not `ja`, in front of the other names, adds no author. |
| Bibliographic.JapaneseNamesSkipLast | function.py:143-146 | A name whose `lang` is not `ja`, after the other names, adds no author. |
| Bibliographic.CreatorNames | function.py:142-146 | The authors are collected only when every creator is an object. A first creator that is not an object makes `.get` raise. |
| Bibliographic.CreatorNamesWithoutNames | function.py:145 | Creators without a `names` member contribute no author, since `names` defaults to an empty list. |
| Bibliographic.JapaneseNamesNone | function.py:143-146 | A creator without Japanese names contributes no author. |
| Bibliographic.JalcSelect | function.py:137-139 | A missing list is a caught KeyError. An empty list is a caught IndexError. A list member that is a number, boolean or null raises. |
| Bibliographic.JalcRecord | function.py:132-174 | A body that is not JSON, or has no `data` member, is caught. A body that is not an object raises. A built record keeps the DOI. Its title and journal are the Japanese-preferred choices, and its authors are the Japanese names of all creators joined by `, `. Volume, issue and both pages are the member or "Not found". The year is `publication_year` of an object-valued `publication_date`, or null. |
| Bibliographic.JalcDefaults | function.py:142-160 | Members missing from the JALC data take their defaults: "Not found" for volume, issue and both pages, no authors, and a null year. |
| Bibliographic.CrossrefOutcome | function.py:96-121 | A failed request or a status other than 200 counts as a caught failure, and so does a body that is not JSON. A record keeps the DOI. |
| Bibliographic.JalcOutcome | function.py:124-176 | A failed request or a status other than 200 gives up, like a caught failure, and so does a body that is not JSON. A record keeps the DOI. |
| Bibliographic.GetMetadataFromDoi | function.py:93-178 | Crossref's record wins whenever its branch yields one. JALC's record is returned exactly when Crossref failed in a caught way and JALC succeeded. The result is `None` exactly when both failed in a caught way. The DOI is kept. |
| Bibliographic.JalcOnlyAfterCrossrefFailure | function.py:103-124 | The JALC answer cannot change the result unless the Crossref branch ended in a caught error. |
| FilenameSearch.RFind | function.py:378 | The index of the last occurrence of a character, or -1 when there is none. |
| FilenameSearch.Splitext | function.py:378 | `os.path.splitext`: root and extension concatenate back to the path. The extension is empty, or is one dot followed by no dot and no `/`. It is non-empty exactly when the last path component has a dot after some character that is not a dot, so it runs from the last dot of a name like `a.pdf` and is empty for `.bashrc`. |
| FilenameSearch.SplitextPdf | function.py:378 | A plain file name `root.pdf` splits into `root` and `.pdf`. |
| Text.AfterLast | function.py:396 | `s.split(sep)[-1]` never contains the separator. The same step takes the file id after the last `id=` on the summary page. |
| Text.AfterLastIsSuffix | function.py:396 | `s.split(sep)[-1]` is a suffix of `s`: all of `s`, or the text that follows an occurrence of the separator. With AfterLast, it is the text after the last cut. |
| FilenameSearch.DoiAfterHostLink | function.py:396 | For an `https://doi.org/` or `http://doi.org/` link, the DOI it was built from comes back. |
| FilenameSearch.FirstDoiLink | function.py:394-397 | A DOI is found exactly when some link mentions `doi.org`. It is taken from the first such link. |
| FilenameSearch.SearchDoiOnCinii | function.py:375-404 | The query is the name without its extension. A DOI is found exactly when the page has status 200 and a link mentioning `doi.org`, and it never contains `doi.org/`. |
| FilenameSearch.SearchDoiOnCiniiStripped | backup_app.py:296-322 | The same search on the stripped file name. |
| FilenameSearch.CiniiDoi | function.py:390-404 | A DOI comes only from a page with status 200. |
| FilenameSearch.HasMember | function.py:426-428 | Python's `in`: key membership on an object, element membership on a list, substring on a string. It raises exactly on the other values. |
| FilenameSearch.FirstItemDoi | function.py:427-429 | The `DOI` of the first item holding one. Every earlier item lacks one. With object items the loop never raises. |
| FilenameSearch.ItemsDoi | function.py:427 | Over a list, the loop is the item search. It never raises a caught error. |
| FilenameSearch.CrossrefSearchDoi | function.py:417-436 | A failed request, a status other than 200, or a body that is not JSON give `None`. A body that is not an object with `message` raises KeyError or TypeError, which escapes. A message without `items` gives `None`. |
| FilenameSearch.CrossrefSearchFirstItem | function.py:422-429 | A well-formed answer yields the `DOI` of its first item that has one. |
| FilenameSearch.SearchDoiFromFilename | function.py:363-373 | A non-empty CiNii DOI is returned as is. Otherwise the Crossref DOI is returned when it is truthy, and `None` when not. The search raises exactly when CiNii gave nothing and the Crossref search raised. |
| FilenameSearch.CrossrefOnlyAfterCinii | function.py:365-370 | Crossref's answer cannot matter once CiNii gave a non-empty DOI. |
| FilenameSearch.SearchDoiFromFilenameCinii | backup_app.py:287-322 | The CiNii-only search gives a non-empty DOI without `doi.org/`. It gives `None` exactly when CiNii gave nothing or an empty string. |
| FilenameSearch.UploadDoiLookup | backup_app.py:637-660 | The PDF's DOI wins when there is one. Otherwise the file-name search on the name without extension is used. The upload fails exactly when both give nothing. |
| FilenameSearch.UploadPrefersPdf | backup_app.py:638-643 | The file name and the search cannot matter when the PDF holds a DOI. |
| Literature.MaxId | database.py:8 | An upper bound on every id, attained by some row of a non-empty table. |
| Literature.NextId | database.py:8 | A fresh integer primary key exceeds every stored id. It is 1 in an empty table. |
| Literature.Insert | database.py:8 | Insertion appends one row with the given columns and an id not yet used, and keeps ids unique. |
| Literature.ToValue | function.py:314-331 | sqlite3 binds `None`, integers, booleans and strings. A list or an object is a binding error. |
| Literature.RecordFields | function.py:252-268 | The row holds the DOI, its `https://doi.org/` link, the file link, the joined authors and the form's columns, with no summary. Title, journal, volume, issue, both pages and year are the record's values as sqlite3 binds them. It is built exactly when every metadata value can be bound. |
| Literature.StoreBatch | function.py:293-341 | A missing record or a DOI already stored leaves the table unchanged. Otherwise exactly one row is appended: unread, with no keywords, category or memo. DOIs and ids stay unique. |
| Literature.StoreBatchAdds | function.py:311-331 | A new, bindable record adds one unread row that carries the DOI and its link. |
| Literature.StoreInteractive | function.py:208-288 | Nothing is stored unless the form is submitted and the DOI is new. A submitted new record whose values bind is inserted as one row with a fresh id. The row carries the DOI, `https://doi.org/` + DOI, the file link, the authors, and the record's title, journal, volume, issue, pages and year as sqlite3 binds them, plus the form's category, keywords joined by `,`, memo and read flag. DOIs and ids stay unique. |
| Literature.FormKeywordsDeclared | database.py:6-24 | Every keyword the upload form of `function.py` passes to `Metadata(...)` is a declared column, so its constructor cannot raise. |
| Literature.StoredKeywordsSplit | function.py:240-250 | The stored keywords split on `,` back into the chosen keywords, when none of them contains a comma. |
| Literature.StoreInteractiveAsWritten | backup_app.py:192-266 | The form passes 関連テーマ, which `database.py` does not declare, so the constructor raises TypeError, `except Exception` catches it, and the table never changes. |
| Literature.StoreInteractiveAsWrittenLosesRecord | backup_app.py:237-265 | The upload form of `backup_app.py` stores nothing on submission. The intended store adds a row for the same input. |
| Literature.KeepContaining | backup_app.py:533-536 | `str.contains` on a column succeeds exactly when no cell is missing. It keeps the rows whose cell contains the pattern. |
| Literature.KeepEqual | backup_app.py:527-532 | The three equality steps (read status, category, journal) keep, in table order, exactly the rows meeting the selected ones of those criteria. |
| Literature.KeepWhereTwice | backup_app.py:527-536 | Two successive boolean-mask filters are one filter by both conditions. |
| Literature.Filter | backup_app.py:525-538 | No step of the chain is guarded, so it never ends in a caught error; with no author and no keyword selected it cannot raise at all. |
| Literature.FilterIsKeepWhere | backup_app.py:525-538 | When the chain does not raise, the shown rows are exactly the table's rows meeting every selected criterion, in table order. |
| Literature.FilterMatches | backup_app.py:525-538 | When the filter chain does not raise, a row is shown exactly when it is stored and meets every selected criterion. |
| Literature.FilterNothingSelected | backup_app.py:525-538 | With nothing selected, the whole table is shown. |
| Literature.FilterOkWhenTextual | backup_app.py:533-536 | The chain cannot raise when no author or keyword cell is missing. |
| Literature.Unique | backup_app.py:501-507 | `unique()` keeps every value once, with no repeats. |
| Literature.CellPieces | backup_app.py:505-507 | One cell gives its comma-separated pieces, stripped. A missing cell gives one missing value. |
| Literature.Explode | backup_app.py:505-507 | The exploded column holds exactly the pieces of all cells. |
| Literature.PieceOptions | backup_app.py:504-507 | The author and keyword choices are the distinct pieces of the column's cells. |
| Literature.ValueOptions | backup_app.py:500-503 | The category and journal choices are the distinct values of the column. |
| Literature.KeywordOfferedAgain | backup_app.py:505-516 | Every stripped piece of a stored keyword cell is offered as a keyword choice. |
| SaveEdits.EditedIds | backup_app.py:575-577 | The ids of the frame are exactly the ids its rows carry. |
| SaveEdits.InsertAll | backup_app.py:585-588 | `INSERT ... SELECT` appends the frame's rows in order, keeps the table's rows as a prefix, and keeps ids unique. |
| SaveEdits.InsertAllNumbers | backup_app.py:585-588 | Inserting after rows numbered 1 to n numbers the inserted rows n + 1, n + 2, ... in order. |
| SaveEdits.Merge | backup_app.py:571-589 | After the save as written the table holds exactly as many rows as the frame, with the frame's values in the frame's order. |
| SaveEdits.MergeRenumbers | backup_app.py:571-589 | The two deletes together remove every stored row. The table becomes the frame's rows numbered 1, 2, 3, ... |
| SaveEdits.MergeKeepsOnlyTheView | backup_app.py:525-589 | Saving an unchanged filtered view leaves exactly the rows the filter showed. |
| SaveEdits.HiddenRowLost | backup_app.py:527-589 | With the "read" filter on, saving unchanged deletes the unread paper. |
| SaveEdits.SaveVisibleKeepsHidden | backup_app.py:571-589 | In the corrected save, a row the editor did not show, and the frame does not name, survives. |
| SaveEdits.SaveVisible | backup_app.py:585-588 | The corrected save stores every row of the frame, last, in order. |
| SaveEdits.SaveVisibleKeepsOnlyStored | backup_app.py:575-584 | In the corrected save, every row before the frame's rows is a stored row, and none carries an id the frame names. |
| SaveEdits.SaveVisibleAllIsMerge | backup_app.py:571-589 | When every stored row was visible, the corrected save equals the save as written. |
| SaveEdits.HiddenRowKept | backup_app.py:571-589 | In the same example, the corrected save keeps the unread paper. |
| SaveEdits.ReadFilterShowsOne | backup_app.py:527-528 | The "read" filter on the two-paper table shows the read paper only. |
| AiSummary.DefaultSelection | pages/AI_summary.py:53 | The default selection is the ids of exactly the rows whose summary is missing or empty. |
| AiSummary.FileIdRoundTrip | function.py:563 | The file id of a stored Drive link is the uploaded file's id exactly when that id does not itself contain `id=`. |
| AiSummary.WithSummary | pages/AI_summary.py:81-86 | A summarised row gets the summary, the keywords joined by `,` and the category. Its id and all other columns are unchanged. |
| AiSummary.FindRow | pages/AI_summary.py:73 | `.iloc[0]` of the rows with the id finds the first row with that id. |
| AiSummary.Summarise | pages/AI_summary.py:72-86 | The loop raises exactly when a selected row's file link is missing. Otherwise each selected row carries the summary of its own file, and every other row is unchanged. |
| AiSummary.DefaultSelectionCleared | pages/AI_summary.py:53-86 | Once the default selection is summarised with non-empty summaries, the default selection is empty. |
| AiSummary.SummarisePage | pages/AI_summary.py:68-125 | Assuming the page's imports resolve (see "## Left out"): after the button, the table is the session frame renumbered from 1, with selected rows summarised and the rest unchanged. It raises exactly when a selected link is missing. |

## Left out

- HTTP requests, Google Drive upload and download, OCR, the PDF readers, the language model, the login and Streamlit itself are not modelled: each is an input or is out of scope. The other pages (`app.py`, `pages/AI_chat.py`, `pages/PDF_upload.py`, `pages/PDF_upload_AI.py`, `pages/RAG_setting.py`, `auth.py`) are not part of this model.
- `translate_and_summarize`, `get_final_url`, `get_abstract_from_url` and the Selenium scraping are left out: their results come from external services. The summary page's `ai` parameter stands for download, extraction and `translate_and_summarize` together.
- `display_metadata` only shows the result of `get_metadata_from_doi`, which is modelled.
- `backup_app.py`'s `extract_text_from_pdf` (all pages) is not a separate member. It is `PagesText` with every page requested.
- `upload_db_to_google_drive`, called after a successful interactive store, is left out: it is network I/O.
- The URL quoting of the CiNii and Crossref queries is left out. Queries are keyed by the unquoted name.
- Bibliographic.Elements: a non-empty JSON object raises at once rather than yielding its keys. Every loop here fails on the first key anyway: a string has no `.get`, and indexing it with a string raises.
- Bibliographic.Json: JSON numbers are integers. A float member, such as a JALC name part that the f-string would render, is not modelled.
- Bibliographic.Format: `f"{x}"` of a list or object raises in the model, where Python would render it. This only matters for JALC names whose `last_name` or `first_name` is a container.
- Bibliographic.JapaneseNames: the contract only bounds the number of authors. What each author is comes from JapaneseNamesTakesJapanese and JapaneseNamesSkipOthers, which together fix the result for every list of object names whose Japanese names have string parts, and from JapaneseNamesNone.
- Text.IsWordChar and Text.IsDecimalDigit: `\w` and `\d` cover ASCII, Latin-1 and Latin Extended letters, kana, CJK ideographs and fullwidth letters and digits, not every Unicode category. The special IGNORECASE folds (`ſ`, the Kelvin sign, dotted and dotless `i`) are not modelled.
- Text.ContainsIgnoreCase: `case=False` lowers ASCII letters only.
- Literature.KeepContaining: `str.contains` takes a regular expression. The model matches the pattern as a plain substring.
- Literature.TextMatches: the free-text filter at backup_app.py:538 is also a regular expression (`case=False`). The model matches plain substrings, so a pattern such as `c++` that raises re.error, or `a.b` matching `axb`, is not modelled.
- Literature.Criteria: the author and keyword selections are strings. The option lists offer the missing value (`nan`) for a missing cell (Literature.CellPieces), and selecting it passes `nan` to `str.contains`, which raises TypeError. The model cannot select it.
- Literature.Filter, Literature.ValueOptions, SaveEdits.Merge and the first "## Findings" row assume a `metadata` table with a 関連テーマ column, as `backup_app.py` reads and writes it. On the table `create_all` of `database.py` creates, with カテゴリ, the browsing view raises KeyError at backup_app.py:501 before any filter, and the save's INSERT at backup_app.py:586-587 fails, rolling back its deletes. That crash is not modelled.
- Literature.Render: numbers are stored as integers. The float rendering pandas uses for an integer column holding NaN is not modelled.
- Literature.ToValue: SQLite type affinity and SQLAlchemy's Integer and Boolean coercions are not modelled. Values are stored as bound.
- PdfText.FillDoc: `int(page_label)` is assumed to succeed. The label is an integer input.
- AiSummary.SummarisePage: pages/AI_summary.py:31 imports `handle_pdf_upload`, `store_metadata_in_db_ai` and `download_file` from `function.py`, which defines none of them (its functions are at function.py:35-546). As the page stands it fails with ImportError before `main` runs. The AiSummary members assume a `function.py` that provides those three names. Beyond that, the model assumes the write-back's INSERT succeeds. In pages/AI_summary.py:109-128 the `try`/`except sqlite3.OperationalError` sits inside `with conn:`, so a failing INSERT (pages/AI_summary.py:119-122) is swallowed and `with conn` then commits the two DELETEs (pages/AI_summary.py:113, 116): the stored table is left empty, not unchanged. The INSERT fails on a `metadata` table lacking one of the columns it lists, such as the 関連テーマ table `backup_app.py` assumes. That path is not modelled, and neither is the reload into the session.

## Findings

| source | as written | input that shows it | evidently intended | confidence | as-written member | corrected member |
|---|---|---|---|---|---|---|
| backup_app.py:571-589 | The save deletes stored ids missing from the frame, then deletes ids present in it. Together these remove every stored row, including rows the active filter hid, and then insert the frame. | Papers 1 (read) and 2 (unread), the "read" filter on, and "save changes" pressed without edits. Paper 2 is deleted. | Only rows the editor showed and the user removed are deleted. Hidden rows stay. | not executed | SaveEdits.HiddenRowLost | SaveEdits.SaveVisibleKeepsHidden |
| backup_app.py:237-253 | The upload form passes the category as `関連テーマ=` to the `Metadata` class of `database.py`, which declares `カテゴリ`. The constructor raises TypeError, `except Exception` catches it, and nothing is stored. | Any new DOI with the form submitted. | The record is stored with the chosen category, as `store_metadata_in_db` of `function.py` does. | not executed | Literature.StoreInteractiveAsWrittenLosesRecord | Literature.StoreInteractive |
