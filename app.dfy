/** The imperative part of app.py: process_browse_page and run_scraper as loops that append
    to results.csv, proved against the functions of PageTraversal and Pagination. */
module App {
  import opened Types
  import opened Text
  import opened PageTraversal
  import opened Pagination

  /** No header line after the first line of the file. */
  predicate HeaderOnlyFirst(lines: seq<Line>) {
    forall i :: 0 < i < |lines| ==> lines[i].Record?
  }

  /** The state a run changes: the contents of results.csv and whether the file exists. */
  class Scraper {
    var results: seq<Line>
    var resultsExist: bool

    ghost predicate Valid()
      reads this
    {
      !resultsExist ==> results == []
    }

    /** `existing` is the file as found before the run, None when there is none. */
    constructor (existing: Option<seq<Line>>)
      ensures Valid()
      ensures resultsExist == existing.Some?
      ensures results == if existing.Some? then existing.value else []
    {
      resultsExist := existing.Some?;
      results := if existing.Some? then existing.value else [];
    }

    /** `writer.writerow(...)` followed by `f.flush()`: one line appended to the open file. */
    method WriteRow(line: Line)
      requires Valid() && resultsExist
      modifies this
      ensures Valid() && resultsExist
      ensures results == old(results) + [line]
    {
      results := results + [line];
    }

    /** The attachment loop of one opened item (app.py:96-133). */
    method ProcessItem(itemHeading: string, attachments: seq<Attachment>, baseDomain: string)
      requires Valid() && resultsExist
      modifies this
      ensures Valid() && resultsExist
      ensures results == old(results) + ItemRecords(itemHeading, attachments, baseDomain)
    {
      for k := 0 to |attachments|
        invariant Valid() && resultsExist
        invariant results == old(results) + ItemRecords(itemHeading, attachments[..k], baseDomain)
      {
        assert attachments[..k + 1][..k] == attachments[..k];
        match attachments[k]
        case AttachmentFailed =>
          // logged, then a best-effort step back (app.py:127-133)
        case AttachmentRead(headingText, filename, originalFilename) =>
          var fileHeading := ShortHeading(headingText);
          var fullFileUrl := FileUrl(baseDomain, filename);
          WriteRow(Record(itemHeading, fileHeading, originalFilename, fullFileUrl));
      }
      assert attachments[..|attachments|] == attachments;
    }

    /** One turn of the row loop (app.py:71-137): open the row's item, write its lines, and
        step back. `counted` is whether the row counts as processed, `rowAborted` whether an
        exception escaped. */
    method VisitRow(row: RowOutcome, baseDomain: string) returns (counted: bool, rowAborted: bool)
      requires Valid() && resultsExist
      modifies this
      ensures Valid() && resultsExist
      ensures results == old(results) + RowLines(row, baseDomain)
      ensures counted <==> Clean(row)
      ensures rowAborted <==> row.Aborted? || (row.Opened? && !row.backOk)
    {
      match row
      case OpenFailed =>
        // logged; the browse URL is reloaded and the row is skipped (app.py:79-83)
        return false, false;
      case HeadingUnreadable =>
        // logged; a step back and the row is skipped (app.py:87-91)
        return false, false;
      case Aborted =>
        return false, true;
      case Opened(itemHeading, attachments, backOk) =>
        ProcessItem(itemHeading, attachments, baseDomain);
        return backOk, !backOk;
    }

    /** process_browse_page (app.py:59-143). `aborted` is true when an exception escaped the
        row loop; the lines written before it stay in the file. */
    method ProcessBrowsePage(rows: seq<RowOutcome>, startRow: nat, rowsRemaining: int, baseDomain: string)
      returns (processed: nat, aborted: bool)
      requires Valid() && resultsExist
      modifies this
      ensures Valid() && resultsExist
      ensures var r := PageWalk(Window(rows, startRow), 0, rowsRemaining, baseDomain);
        processed == r.processed && aborted == r.aborted && results == old(results) + r.records
      ensures processed <= (if rowsRemaining > 0 then rowsRemaining else 0)
      ensures processed <= (if startRow < |rows| then |rows| - startRow else 0)
    {
      ghost var whole := PageWalk(Window(rows, startRow), 0, rowsRemaining, baseDomain);
      processed, aborted := 0, false;
      var i := startRow;
      ghost var rest := whole;
      while i < |rows|
        invariant startRow <= i
        invariant Valid() && resultsExist && !aborted
        invariant rest == PageWalk(Window(rows, i), processed, rowsRemaining, baseDomain)
        invariant whole.processed == rest.processed && whole.aborted == rest.aborted
        invariant old(results) + whole.records == results + rest.records
        decreases |rows| - i
      {
        if processed >= rowsRemaining {
          break;
        }
        ghost var lines := RowLines(rows[i], baseDomain);
        ghost var before := results;
        var counted, rowAborted := VisitRow(rows[i], baseDomain);
        if rowAborted {
          assert processed == whole.processed && whole.aborted && results == old(results) + whole.records by {
            WalkAborts(rows, i, processed, rowsRemaining, baseDomain);
          }
          ProcessedBounds(rows, startRow, rowsRemaining, baseDomain);
          aborted := true;
          return;
        }
        ghost var next := PageWalk(Window(rows, i + 1), if counted then processed + 1 else processed, rowsRemaining, baseDomain);
        assert whole.processed == next.processed && whole.aborted == next.aborted
          && old(results) + whole.records == results + next.records by {
          WalkContinues(rows, i, processed, rowsRemaining, baseDomain);
          AppendAssoc(before, lines, next.records);
        }
        if counted {
          processed := processed + 1;
        }
        i := i + 1;
        rest := next;
      }
      assert rest.records == [] && rest.processed == processed by {
        assert Window(rows, i) == [] || processed >= rowsRemaining;
      }
      ProcessedBounds(rows, startRow, rowsRemaining, baseDomain);
    }

    /** The `while remaining > 0` loop of run_scraper (app.py:188-213) over the listing pages
        the next control walks, from the first with `skip` rows skipped on it. */
    method HarvestPages(pages: seq<BrowsePage>, loops: int, skip: nat, baseDomain: string)
      returns (outcome: Outcome)
      requires Valid() && resultsExist
      modifies this
      ensures Valid() && resultsExist
      ensures var h := Harvest(pages, loops, skip, baseDomain);
        outcome == h.outcome && results == old(results) + h.records
    {
      assert pages[0..] == pages;
      ghost var whole := Harvest(pages, loops, skip, baseDomain);
      ghost var rest := whole;
      var remaining, skipRows, k := loops, skip, 0;
      outcome := Completed(EmptyBudget);
      while remaining > 0
        invariant 0 <= k <= |pages|
        invariant Valid() && resultsExist
        invariant k > 0 ==> remaining > 0 && skipRows == 0
        invariant k == 0 ==> outcome == Completed(EmptyBudget)
        invariant rest == Harvest(pages[k..], remaining, skipRows, baseDomain)
        invariant whole.outcome == rest.outcome
        invariant old(results) + whole.records == results + rest.records
        decreases |pages| - k
      {
        if k == |pages| || |pages[k].rows| == 0 {
          assert rest == HarvestResult(0, [], Completed(NoRows));
          outcome := Completed(NoRows);
          break;
        }
        HarvestStep(pages, k, remaining, skipRows, baseDomain);
        ghost var before := results;
        ghost var page := PageWalk(Window(pages[k].rows, skipRows), 0, remaining, baseDomain);
        var processed, aborted := ProcessBrowsePage(pages[k].rows, skipRows, remaining, baseDomain);
        if aborted {
          // the exception reaches the catch-all of app.py:226-229
          outcome := Failed;
          break;
        }
        remaining := remaining - processed;
        skipRows := 0;
        if remaining <= 0 {
          outcome := Completed(LimitReached);
          break;
        }
        if !pages[k].hasNext {
          outcome := Completed(NoNextPage);
          break;
        }
        if !pages[k].nextOk {
          // the click or the load wait raises: the catch-all of app.py:226-229
          outcome := Failed;
          break;
        }
        k := k + 1;
        ghost var next := Harvest(pages[k..], remaining, 0, baseDomain);
        AppendAssoc(before, page.records, next.records);
        rest := next;
      }
    }

    /** run_scraper (app.py:145-229) after the browser is up. The login form's result is the
        URL it lands on; `scheme` and `netloc` are urlparse's view of the browse URL; `pages`
        is the listing as the next control walks it. `ok` is run_scraper's return value. */
    method RunScraper(postLoginUrl: string, loops: int, skip: nat, scheme: string, netloc: string,
                      pages: seq<BrowsePage>)
      returns (ok: bool, outcome: Outcome)
      requires Valid()
      modifies this
      ensures Valid()
      ensures ok <==> outcome.Completed?
      ensures IsLoginPage(postLoginUrl) ==>
        outcome == LoginFailed && results == old(results) && resultsExist == old(resultsExist)
      ensures !IsLoginPage(postLoginUrl) ==>
        var h := Harvest(pages, loops, skip, BaseDomain(scheme, netloc));
        resultsExist && outcome == h.outcome &&
        results == old(results) + (if old(resultsExist) then [] else [Header]) + h.records
      ensures HeaderOnlyFirst(old(results)) ==> HeaderOnlyFirst(results)
    {
      var baseDomain := BaseDomain(scheme, netloc);
      var writeHeader := !resultsExist;
      if IsLoginPage(postLoginUrl) {
        return false, LoginFailed;
      }
      // open(CSV_FILE, "a") creates the file when it is missing
      resultsExist := true;
      if writeHeader {
        WriteRow(Header);
      }
      HarvestWritesRecordsOnly(pages, loops, skip, baseDomain);
      outcome := HarvestPages(pages, loops, skip, baseDomain);
      ok := outcome.Completed?;
    }
  }

  /** A turn of the row loop whose row raises, read off PageWalk. */
  lemma WalkAborts(rows: seq<RowOutcome>, i: nat, processed: nat, rowsRemaining: int, baseDomain: string)
    requires i < |rows| && processed < rowsRemaining
    requires rows[i].Aborted? || (rows[i].Opened? && !rows[i].backOk)
    ensures PageWalk(Window(rows, i), processed, rowsRemaining, baseDomain)
      == PageResult(processed, RowLines(rows[i], baseDomain), true)
  {
    assert Window(rows, i)[0] == rows[i];
  }

  /** A turn of the row loop whose row returns, read off PageWalk. */
  lemma WalkContinues(rows: seq<RowOutcome>, i: nat, processed: nat, rowsRemaining: int, baseDomain: string)
    requires i < |rows| && processed < rowsRemaining
    requires !rows[i].Aborted? && (rows[i].Opened? ==> rows[i].backOk)
    ensures var rest := PageWalk(Window(rows, i + 1), if Clean(rows[i]) then processed + 1 else processed, rowsRemaining, baseDomain);
      PageWalk(Window(rows, i), processed, rowsRemaining, baseDomain)
        == PageResult(rest.processed, RowLines(rows[i], baseDomain) + rest.records, rest.aborted)
  {
    assert Window(rows, i)[0] == rows[i] && Window(rows, i)[1..] == Window(rows, i + 1);
  }

  /** One turn of the pagination loop, read off Harvest. */
  lemma HarvestStep(pages: seq<BrowsePage>, k: nat, remaining: int, skipRows: nat, baseDomain: string)
    requires k < |pages| && pages[k].rows != [] && remaining > 0
    ensures var here := Harvest(pages[k..], remaining, skipRows, baseDomain);
      var r := PageWalk(Window(pages[k].rows, skipRows), 0, remaining, baseDomain);
      if r.aborted then here == HarvestResult(r.processed, r.records, Failed)
      else if remaining - r.processed <= 0 then here == HarvestResult(r.processed, r.records, Completed(LimitReached))
      else if !pages[k].hasNext then here == HarvestResult(r.processed, r.records, Completed(NoNextPage))
      else if !pages[k].nextOk then here == HarvestResult(r.processed, r.records, Failed)
      else
        var rest := Harvest(pages[k + 1..], remaining - r.processed, 0, baseDomain);
        here == HarvestResult(r.processed + rest.processed, r.records + rest.records, rest.outcome)
  {
    assert pages[k..][0] == pages[k] && pages[k..][1..] == pages[k + 1..];
  }

  /** A run writes data lines only, never a second header. */
  lemma HarvestWritesRecordsOnly(pages: seq<BrowsePage>, loops: int, skip: nat, baseDomain: string)
    ensures forall i :: 0 <= i < |Harvest(pages, loops, skip, baseDomain).records| ==>
      Harvest(pages, loops, skip, baseDomain).records[i].Record?
  {
    var records := Harvest(pages, loops, skip, baseDomain).records;
    HarvestProvenance(pages, loops, skip, baseDomain);
    forall i | 0 <= i < |records|
      ensures records[i].Record?
    {
      assert records[i] in records;
      assert SiteYields(pages, skip, records[i], baseDomain);
    }
  }
}
