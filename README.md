# Harvest traversal of the library metadata scraper

The scraper logs in to a digital library's admin interface and walks its paginated item
listing. It opens each row's item, then each image attached to the item. For every attachment
whose metadata it can read, it appends one line to `results.csv`: item heading, file heading,
original filename, full file URL. A run takes a row limit (`loops`) and a row offset (`skip`).
Failures are isolated. A row that cannot be opened, or whose heading cannot be read, is
skipped and not counted. A row that opens counts once, however many of its attachments fail.

This project models that bookkeeping in Dafny. The browser is not modelled. Each listing page
is given as data: the outcome of opening each of its rows, whether an enabled "next"
control is present, and whether following it succeeds. An opened row gives its heading and the outcome of each attachment.

- `Types` holds the site's data model, the lines of `results.csv` and the results of a traversal.
- `Text` holds the string expressions inlined in `app.py`. These are the file heading cut at
  the first `:`, the base domain, the file URL and its inverse, and the `"login" in url` test.
- `PageTraversal` defines `PageWalk`. It gives the rows counted and the lines written by one
  call of `process_browse_page`, as functions of the page's rows. Its lemmas state the counting
  rule and the bounds, and where each line comes from.
- `Pagination` defines `Harvest`, the `while remaining > 0` loop of `run_scraper` over the
  listing's pages. Its lemmas cover the run-wide bound, the three stop reasons, the
  first-page-only skip, line provenance, and resumption.
- `App` holds the class `Scraper`. Its fields are the contents of `results.csv` and whether
  the file exists. Its methods `ProcessItem`, `VisitRow`, `ProcessBrowsePage`, `HarvestPages`
  and `RunScraper` are the source's loops and their bodies, appending through `WriteRow`.
  Each method is proved to leave exactly what the matching function describes.

Three kinds of exception that escape the inner `try` blocks are part of the model:
- `RowOutcome.Aborted`: an exception in the row loop before anything is written for the row.
  This covers reading the link (app.py:74), the reload after a failed open (app.py:81-82),
  and the step back after an unreadable heading (app.py:89-90).
- `Opened(..., backOk = false)`: the final step back (app.py:135-136) raises after the item's
  lines have been written.
- `BrowsePage.nextOk = false`: clicking the next control or waiting for the page to load
  (app.py:209-210) raises.
Each of these reaches the catch-all at app.py:226-229. The run ends with `Failed` and
`run_scraper` returns `False`. Lines written before the exception stay in the file. The other
calls outside the inner `try` blocks, opening the file included, are listed under "## Left out".

Two properties hold only in part:
- Resuming. The sidebar's "Skip the first N rows" (app.py:248-249) is meant to let a run
  with `skip = N` continue where a run with `limit = N` stopped. In that case
  `skip = 0, limit = N + M` would write what `limit = N` followed by `skip = N, limit = M`
  writes. The model proves this whenever the first page has at least N rows and its first
  N rows all open and return. Later rows, pages and next controls may do anything
  (`Pagination.ResumeGeneral`). The skip counts row positions on the first page only, so
  resuming can go wrong exactly in the remaining cases:
  - A row before position N is skipped or raises. After a failed open, resuming writes an
    item the first run already wrote and never writes another
    (`Pagination.ResumeAfterSkippedRow`). After a row that raises, the first run itself
    ends with an error.
  - N is larger than the first page. The skip is not carried over, so the second page is
    restarted at its first row (`Pagination.ResumePastFirstPage`).
  In both counterexamples, a line that the single run writes is never written by the two
  runs.
- Bounding the lines written. They are not bounded by (maximum attachments per item) ×
  (rows processed) in general. An item's lines are written before the final step back. If
  that step raises, its lines stay in the file but the row is not counted
  (`Pagination.LinesWithoutCount`). The bound holds on sites where no row raises
  (`Pagination.HarvestLinesBound`).

## Model

| member | source | states |
|---|---|---|
| `Types.Line.Cells` | app.py:186 | Every line of the file, the header included, has exactly four cells. |
| `Text.ShortHeading` | app.py:107-108 | The file heading is a prefix of the stripped heading text. It contains no `:`. It runs to the end of the text or stops just before its first `:`. |
| `Text.ShortHeadingUnique` | app.py:108 | Those three properties determine the file heading: any string that has all three is it. |
| `Text.ShortHeadingFixedPoints` | app.py:108 | A heading with no colon is kept whole. Cutting an already cut heading changes nothing. |
| `Text.BaseDomain` | app.py:152 | The base domain is the scheme, then `://`, then the network location. It has no contract of its own. `App.Scraper.RunScraper` uses it for every file URL. |
| `Text.FileUrl` | app.py:118 | The file URL is the base domain, then `/files/original/`, then the filename. It has no contract of its own. Its properties are stated by `Text.FilenameOf`, `Text.FileUrlRoundTrip` and `Text.FileUrlInjective`. |
| `Text.FilenameOf` | app.py:118 | When a filename is recovered from a URL, the URL is exactly the base domain, then `/files/original/`, then that filename. |
| `Text.FileUrlRoundTrip` | app.py:118 | The filename recovered from `base_domain + "/files/original/" + filename` is `filename`. |
| `Text.FileUrlInjective` | app.py:118 | Under one base domain, distinct filenames give distinct file URLs. |
| `Text.Contains` | app.py:176 | The substring test is true exactly when the pattern occurs at some position of the string, the empty pattern included. |
| `Text.IsLoginPage` | app.py:176 | The login-failure test is `Contains` with the pattern `"login"`. It has no contract of its own. `Text.Contains` states what it means. |
| `PageTraversal.RecordFor` | app.py:107-120 | The line written for an attachment that was read. It has no contract of its own. `PageTraversal.RecordShape` states its fields. |
| `PageTraversal.RecordShape` | app.py:107-120 | A written line holds, in order: the item heading; the file heading, which is the attachment's h1 text up to its first `:` (all of it when there is none); the original filename; the base domain, then `/files/original/`, then the filename, a URL that gives back the filename. |
| `PageTraversal.ItemRecords` | app.py:100-133 | One opened item writes at most `image_count` lines, and all of them are data lines. |
| `PageTraversal.ItemRecordsProvenance` | app.py:100-133 | Each line of an item is the record of one attachment that was read. Each attachment that was read gives its record. An item whose attachments all fail writes nothing. |
| `PageTraversal.ItemRecordsInOrder` | app.py:100-133 | An item writes exactly one line per attachment read, in attachment order. The number of lines is the number of attachments read. The record of the k-th attachment, when read, sits at the position given by the number of attachments read before it. |
| `PageTraversal.Handled` | app.py:76-91 | Dropping the rows that fail to open or have no readable heading leaves at most as many rows, none of them such a row. |
| `PageTraversal.HandledMembers` | app.py:76-91 | A row is kept exactly when it is one of the page's rows and is neither a failed open nor an unreadable heading. |
| `PageTraversal.HandledInOrder` | app.py:76-91 | The kept rows are the rows that are not skipped, each once and in page order. Their number is the number of rows not skipped. The j-th row, when kept, sits at the position given by the number of rows kept before it. |
| `PageTraversal.PageWalk` | app.py:59-143 | The row loop of `process_browse_page` over `Window`, the rows of `range(start_row, total_rows)` (app.py:67, empty when `start_row` is past the end), giving the count, the lines written and whether an exception escaped. It has no contract of its own. `PageTraversal.PageWalkBounds`, `PageTraversal.ProcessedBounds`, `PageTraversal.SkippedRowsChangeNothing`, `PageTraversal.FinishingRowsCount`, `PageTraversal.PageRecordsBound` and `PageTraversal.PageWalkProvenance` state its properties. `App.Scraper.ProcessBrowsePage` is proved to do what it describes. |
| `PageTraversal.PageWalkBounds` | app.py:66-143 | The count never decreases. It grows by at most one per row not skipped, and never past `rows_remaining` unless it started there. |
| `PageTraversal.ProcessedBounds` | app.py:66-143 | `processed` is at most `max(0, rows_remaining)` and at most `max(0, total_rows - start_row)`. |
| `PageTraversal.SkippedRowsChangeNothing` | app.py:76-91 | A page gives the same count, lines and abort flag with its failed-open and unreadable-heading rows deleted. Those rows write nothing, count nothing, and the loop moves to the next index. |
| `PageTraversal.FinishingRowsCount` | app.py:100-137 | On rows that raise nothing, the count is the number of opened rows, capped by the budget, whatever their attachments do. The lines written are exactly those rows' lines, in order. |
| `PageTraversal.PageRecordsBound` | app.py:96-137 | When no row raises and no item has more than K attachments, a page writes at most K lines per row counted. |
| `PageTraversal.PageWalkProvenance` | app.py:76-121 | Every line a page writes belongs to one of its rows that opened with a heading. |
| `Pagination.Harvest` | app.py:188-213 | The `while remaining > 0` loop over the listing pages, giving the rows processed, the lines written and how the run ends. It has no contract of its own. The `Pagination` lemmas below state its properties. `App.Scraper.HarvestPages` is proved to do what it describes. |
| `Pagination.HarvestBound` | app.py:188-203 | The rows processed over a whole run are at most `max(0, loops)`. |
| `Pagination.HarvestLimitReached` | app.py:191-203 | The loop is skipped exactly when `loops <= 0`. The run stops with "limit reached" exactly when it raised nothing and the rows processed equal `loops`. |
| `Pagination.HarvestStopPage` | app.py:191-213 | A "no rows" stop happens at the first page reached with no rows. A "no more pages" stop happens at a page with rows and no enabled next control. Every earlier page had rows and a next control that could be followed. |
| `Pagination.HarvestStopsAt` | app.py:191-213 | The converse. Suppose the run reaches a page with no rows, or with rows but no enabled next control, and nothing raises on that page or before it. Then the run ends without error: with "limit reached", or with "no rows" or "no more pages" at that page, whichever applies. |
| `Pagination.SkipBeyondFirstPage` | app.py:188-199 | A skip at least as long as the first page processes nothing there. The skip is not carried over: the run continues at row 0 of the second page. |
| `Pagination.HarvestProvenance` | app.py:188-213 | Every line a run writes belongs to an opened row of a page the run reached: every page before it had rows and a next control that was followed. On the first page, that row is never before the skip. |
| `Pagination.HarvestLinesBound` | app.py:100-213 | On a site where no row raises, a run writes at most (max attachments per item) × (rows processed) lines. That holds even when following a next control raises. |
| `Pagination.HarvestRecordsBound` | app.py:191-213 | When, in addition, every next control present can be followed, the run does not fail, and the same bound holds. |
| `Pagination.LinesWithoutCount` | app.py:120-137 | A one-row page whose final step back raises: the run writes one line, counts no row and fails, so the bound does not hold in general. |
| `Pagination.OnePageWindow` | app.py:188-199 | On one page of rows that all open and return, a run with skip `s` and limit `n` that fit the page writes the lines of rows `s` to `s + n - 1`. |
| `Pagination.PageWalkShift` | app.py:66-69 | Raising the count and the budget by the same amount changes only the count: the same rows are visited and the same lines written. |
| `Pagination.CleanPrefixWalk` | app.py:66-137 | Rows that open and return, within the budget, are each counted and their lines written in order, and the walk then goes on after them. |
| `Pagination.ResumeGeneral` | app.py:188-199 | If the first N rows of the first page open and return, and the page has at least N rows, then limit `N + M` writes what limit `N` followed by skip `N`, limit `M` writes. Later rows, pages and next controls may do anything. |
| `Pagination.ResumeOnOnePage` | app.py:188-199 | The one-page case of `ResumeGeneral`: on a page of clean rows with `N + M` rows or more, limit `N + M` writes what limit `N` followed by skip `N`, limit `M` writes. |
| `Pagination.ResumeAfterSkippedRow` | app.py:67-91 | Take a page whose first row fails to open. Limit 1 followed by skip 1, limit 1 writes item A's line twice. Item B's line is written by limit 2 but by neither of the two runs. |
| `Pagination.ResumePastFirstPage` | app.py:188-199 | Take one clean row on the first page and two on the second, with distinct item headings. The last row's line is written by limit 3. Limit 2 followed by skip 2, limit 1 never writes it. |
| `App.HarvestWritesRecordsOnly` | app.py:183-186 | A run appends data lines only, never a second header. |
| `App.Scraper.constructor` | app.py:147-154 | The model starts from the file as found: present with its lines, or absent and empty. |
| `App.Scraper.WriteRow` | app.py:120-121 | `writerow` plus `flush` appends exactly one line and changes nothing else. |
| `App.Scraper.ProcessItem` | app.py:96-133 | The attachment loop appends exactly `ItemRecords` of the item to the file. |
| `App.Scraper.VisitRow` | app.py:71-137 | One turn of the row loop appends the opened item's lines and nothing for other rows. The row counts exactly when it is `Pagination.Clean`, that is, when it opened and stepped back. An exception escapes exactly for an aborted row or a failed final step back. |
| `App.Scraper.ProcessBrowsePage` | app.py:59-143 | The row loop appends exactly `PageWalk`'s lines. It returns `PageWalk`'s count and abort flag. The count is within the budget and within the rows from `start_row`. |
| `App.Scraper.HarvestPages` | app.py:188-213 | The pagination loop appends exactly `Harvest`'s lines and ends as `Harvest` says, including the exceptions from a row or from following the next control. |
| `App.Scraper.RunScraper` | app.py:145-229 | A login URL containing `"login"` returns `False` and leaves the file untouched and uncreated. Otherwise the file exists afterwards and gets the header exactly when it was absent at the start. Then it gets `Harvest`'s lines, appended after what was there. The run returns `True` exactly when it completes. A file with no header past line 1 keeps that property. |

## Left out

- The Streamlit page is out of scope: sidebar inputs, buttons, statistics, download and clear, and the log display (app.py:37-57, 231-337). `log_message` lines are not modelled.
- Installing and launching Playwright is out of scope (app.py:13-35, 161-164). So are the first `goto`, filling and submitting the login form, and `browser.close`. The login is given as the URL it lands on.
- Exceptions raised before the login test (launch, first `goto`, form fill) are out of scope. In the code they also end in the catch-all and return `False`.
- Waits, timeouts, CSS and XPath locators, `is_enabled` and `count()` are browser calls. They appear only as the row and attachment outcomes and the `hasNext` and `nextOk` flags.
- Some calls that sit outside every inner `try` are taken never to raise. These are `open(CSV_FILE, "a", ...)` at app.py:183, the header `writer.writerow` at app.py:185-186, the `count()` calls at app.py:62, 97 and 193, `next_button.count()` and `is_enabled()` at app.py:207, and `browser.close()` at app.py:215. If one did raise, `run_scraper` would return `False` through app.py:226-229. A failed `open` leaves `results.csv` absent and without a header, which `App.Scraper.RunScraper`'s contract does not cover.
- The listing is given as the finite sequence of pages the next control reaches. Following the next control past the last page given is taken to reach a listing with no rows, so the run stops with "no rows".
- `strip()` is not modelled: the heading, filename and original-filename texts are given already stripped.
- `urlparse` is not modelled: `RunScraper` takes the scheme and network location as inputs.
- CSV quoting, escaping and encoding are not modelled, and neither is the durability given by `f.flush()`. The file is a sequence of lines. The header is its own kind of line, so a data record that happens to equal the column names is still a record.
- The progress fraction `min(1.0, processed / rows_remaining)` is floating point and UI only (app.py:140).
- After a failed open, `page.goto(browse_url)` reloads the first listing page even when the loop is on a later page (app.py:81). The model assumes the loop stays on its current page.
- Rows are re-queried by position after every navigation. The model assumes each page's rows keep their positions during a run.
- When an attachment's click fails without leaving the item, the `go_back` in the error path (app.py:129-133) leaves the item view. The model assumes each attachment outcome is independent and the item view stays current.
- A `go_back` at app.py:124 that raises after the line was written does not undo the line. The model counts such an attachment as read.
- Reading the file back with pandas for display (app.py:220-222) is out of scope, and so is an exception it might raise.
