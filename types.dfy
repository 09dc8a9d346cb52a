/** The remote catalogue as data, and what the harvest writes.

  The browser session is not modelled: each browse page is given as the
  outcomes its rows produce when the traversal opens them, and each item as
  the outcomes of its attachments.
 */
module Types {

  datatype Option<T> = None | Some(value: T)

  /** What reading one attachment's detail view gives (app.py:100-133).
      The texts are the values after `strip()`. */
  datatype Attachment =
    | AttachmentFailed
      // the click, the heading, the "Format Metadata" marker or a field failed
    | AttachmentRead(headingText: string, filename: string, originalFilename: string)

  /** What happens when the traversal reaches one row of a browse page (app.py:71-137). */
  datatype RowOutcome =
    | OpenFailed
      // the click or the load timed out: a log line and a reload of the browse URL (app.py:76-83)
    | HeadingUnreadable
      // the item's h1 could not be read: a log line and a step back (app.py:85-91)
    | Aborted
      // an exception outside the inner try blocks before anything was written for the row:
      // no link to read (app.py:74), a failed reload (app.py:81-82) or step back (app.py:89-90)
    | Opened(heading: string, attachments: seq<Attachment>, backOk: bool)
      // the item opened with this heading; backOk is false when the final step back
      // to the browse page (app.py:135-136) raised, which ends the run

  /** One browse page: its rows, whether an enabled "next" control is present (app.py:206-207),
      and whether clicking it and waiting for the load succeed (app.py:209-210). Those two
      calls sit outside every inner try: when one raises, the run ends in the catch-all. */
  datatype BrowsePage = BrowsePage(rows: seq<RowOutcome>, hasNext: bool, nextOk: bool)

  /** One row of results.csv (app.py:120, 186). */
  datatype Line =
    | Header
    | Record(itemHeading: string, fileHeading: string, originalFilename: string, fileUrl: string)
  {
    /** The four cells in column order. */
    function Cells(): (cells: seq<string>)
      ensures |cells| == 4
    {
      match this
      case Header => ["Item Heading", "File Heading", "Original Filename", "Full File URL"]
      case Record(item, file, original, url) => [item, file, original, url]
    }
  }

  /** What one call of process_browse_page leaves behind: the rows it counted, the lines it
      wrote, and whether an exception escaped it. */
  datatype PageResult = PageResult(processed: nat, records: seq<Line>, aborted: bool)

  /** Why the pagination loop ended (app.py:191-213). */
  datatype Stop =
    | EmptyBudget   // loops <= 0: the while loop is never entered
    | NoRows        // the page reached has no rows (app.py:193-195)
    | LimitReached  // remaining dropped to 0 (app.py:201-203)
    | NoNextPage    // no enabled next control (app.py:211-213)

  /** How a run ends: run_scraper returns True only for Completed. */
  datatype Outcome = LoginFailed | Failed | Completed(reason: Stop)

  /** What the pagination loop leaves behind over a whole run. */
  datatype HarvestResult = HarvestResult(processed: nat, records: seq<Line>, outcome: Outcome)
}
