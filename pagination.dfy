/** The pagination loop of run_scraper (app.py:188-213) as a function of the site, and
    the properties of a whole run. */
module Pagination {
  import opened Types
  import opened Text
  import opened PageTraversal

  /** The `while remaining > 0` loop from the current page on. `pages` are the listing pages
      still ahead, in the order the next control reaches them; following the next control past
      the last one gives a listing with no rows. `skipRows` applies to the first of them only. */
  function Harvest(pages: seq<BrowsePage>, remaining: int, skipRows: nat, baseDomain: string): HarvestResult
    decreases |pages|
  {
    if remaining <= 0 then HarvestResult(0, [], Completed(EmptyBudget))
    else if pages == [] || pages[0].rows == [] then HarvestResult(0, [], Completed(NoRows))
    else
      var page := pages[0];
      var r := PageWalk(Window(page.rows, skipRows), 0, remaining, baseDomain);
      if r.aborted then HarvestResult(r.processed, r.records, Failed)
      else if remaining - r.processed <= 0 then HarvestResult(r.processed, r.records, Completed(LimitReached))
      else if !page.hasNext then HarvestResult(r.processed, r.records, Completed(NoNextPage))
      else if !page.nextOk then HarvestResult(r.processed, r.records, Failed)
      else
        var rest := Harvest(pages[1..], remaining - r.processed, 0, baseDomain);
        HarvestResult(r.processed + rest.processed, r.records + rest.records, rest.outcome)
  }

  /** Over a whole run, no more than `loops` rows are processed. */
  lemma {:induction false} HarvestBound(pages: seq<BrowsePage>, loops: int, skip: nat, baseDomain: string)
    ensures Harvest(pages, loops, skip, baseDomain).processed <= (if loops > 0 then loops else 0)
    decreases |pages|
  {
    if loops > 0 && pages != [] && pages[0].rows != [] {
      var r := PageWalk(Window(pages[0].rows, skip), 0, loops, baseDomain);
      ProcessedBounds(pages[0].rows, skip, loops, baseDomain);
      if !r.aborted && loops - r.processed > 0 && pages[0].hasNext {
        HarvestBound(pages[1..], loops - r.processed, 0, baseDomain);
      }
    }
  }

  /** The loop is entered exactly when loops is positive, and it stops with "limit reached"
      exactly when, without an exception, the rows processed add up to loops. */
  lemma {:induction false} HarvestLimitReached(pages: seq<BrowsePage>, loops: int, skip: nat, baseDomain: string)
    ensures var h := Harvest(pages, loops, skip, baseDomain);
      (loops <= 0 <==> h.outcome == Completed(EmptyBudget)) &&
      (h.outcome == Completed(LimitReached) <==> (h.outcome != Failed && loops >= 1 && h.processed == loops))
    decreases |pages|
  {
    if loops > 0 && pages != [] && pages[0].rows != [] {
      var r := PageWalk(Window(pages[0].rows, skip), 0, loops, baseDomain);
      ProcessedBounds(pages[0].rows, skip, loops, baseDomain);
      if !r.aborted && loops - r.processed > 0 && pages[0].hasNext {
        HarvestLimitReached(pages[1..], loops - r.processed, 0, baseDomain);
      }
    }
  }

  /** Every page before the m-th was left by its next control after some rows were seen. */
  ghost predicate AdvancedPast(pages: seq<BrowsePage>, m: nat) {
    m <= |pages| && forall i :: 0 <= i < m ==> pages[i].hasNext && pages[i].nextOk && pages[i].rows != []
  }

  lemma AdvancedPastCons(pages: seq<BrowsePage>, m: nat)
    requires pages != [] && pages[0].hasNext && pages[0].nextOk && pages[0].rows != []
    requires AdvancedPast(pages[1..], m)
    ensures AdvancedPast(pages, m + 1)
  {
  }

  /** A run that stops for "no rows" stops at the first page reached that has none; one that
      stops for "no more pages" stops at a page with rows and no enabled next control. */
  lemma {:induction false} HarvestStopPage(pages: seq<BrowsePage>, loops: int, skip: nat, baseDomain: string)
    ensures var o := Harvest(pages, loops, skip, baseDomain).outcome;
      (o == Completed(NoRows) ==>
        exists m: nat :: AdvancedPast(pages, m) && (m == |pages| || pages[m].rows == [])) &&
      (o == Completed(NoNextPage) ==>
        exists m: nat :: AdvancedPast(pages, m) && m < |pages| && pages[m].rows != [] && !pages[m].hasNext)
    decreases |pages|
  {
    var o := Harvest(pages, loops, skip, baseDomain).outcome;
    if loops > 0 {
      if pages == [] || pages[0].rows == [] {
        assert AdvancedPast(pages, 0);
      } else {
        var r := PageWalk(Window(pages[0].rows, skip), 0, loops, baseDomain);
        if !r.aborted && loops - r.processed > 0 {
          if !pages[0].hasNext {
            assert AdvancedPast(pages, 0);
          } else if pages[0].nextOk {
            var tail := pages[1..];
            HarvestStopPage(tail, loops - r.processed, 0, baseDomain);
            assert o == Harvest(tail, loops - r.processed, 0, baseDomain).outcome;
            if o == Completed(NoRows) {
              var m: nat :| AdvancedPast(tail, m) && (m == |tail| || tail[m].rows == []);
              AdvancedPastCons(pages, m);
              assert m + 1 == |pages| || pages[m + 1].rows == [];
            }
            if o == Completed(NoNextPage) {
              var m: nat :| AdvancedPast(tail, m) && m < |tail| && tail[m].rows != [] && !tail[m].hasNext;
              AdvancedPastCons(pages, m);
              assert pages[m + 1] == tail[m];
            }
          }
        }
      }
    }
  }

  /** The skip is used on the first page only: a skip at least as long as the first page
      processes nothing there and is not carried over, so the run goes on from the second page
      at its first row. */
  lemma SkipBeyondFirstPage(pages: seq<BrowsePage>, loops: int, skip: nat, baseDomain: string)
    requires loops >= 1 && pages != [] && pages[0].rows != [] && pages[0].hasNext && pages[0].nextOk
    requires skip >= |pages[0].rows|
    ensures Harvest(pages, loops, skip, baseDomain) == Harvest(pages[1..], loops, 0, baseDomain)
  {
  }

  /** Nothing on the page raises. */
  ghost predicate RowsFinish(page: BrowsePage) {
    forall j :: 0 <= j < |page.rows| ==> Finishes(page.rows[j])
  }

  lemma PageFinishes(page: BrowsePage, skip: nat, loops: int, baseDomain: string)
    requires RowsFinish(page)
    ensures !PageWalk(Window(page.rows, skip), 0, loops, baseDomain).aborted
  {
    var w := Window(page.rows, skip);
    assert forall j :: 0 <= j < |w| ==> w[j] == page.rows[skip + j];
    FinishingRowsCount(w, 0, loops, baseDomain);
  }

  /** Conversely, a run in which nothing raises up to a page it reaches with no rows, or with
      rows and no enabled next control, ends without error: there, or earlier once the limit
      is met. */
  lemma {:induction false} HarvestStopsAt(pages: seq<BrowsePage>, loops: int, skip: nat, baseDomain: string, m: nat)
    requires loops > 0 && AdvancedPast(pages, m)
    requires m == |pages| || pages[m].rows == [] || !pages[m].hasNext
    requires forall i :: 0 <= i < |pages| && i <= m ==> RowsFinish(pages[i])
    ensures var o := Harvest(pages, loops, skip, baseDomain).outcome;
      o == Completed(LimitReached) ||
      (o == Completed(NoRows) && (m == |pages| || pages[m].rows == [])) ||
      (o == Completed(NoNextPage) && m < |pages| && pages[m].rows != [] && !pages[m].hasNext)
    decreases m
  {
    if pages != [] && pages[0].rows != [] {
      PageFinishes(pages[0], skip, loops, baseDomain);
      var r := PageWalk(Window(pages[0].rows, skip), 0, loops, baseDomain);
      if loops - r.processed > 0 && m > 0 {
        var tail := pages[1..];
        assert forall i :: 0 <= i < |tail| ==> tail[i] == pages[i + 1];
        assert AdvancedPast(tail, m - 1);
        if m < |pages| {
          assert tail[m - 1] == pages[m];
        }
        HarvestStopsAt(tail, loops - r.processed, 0, baseDomain, m - 1);
      }
    }
  }

  /** Row `j` of listing page `m`, a page the run reached, wrote `line`; on the first page only
      rows from the skip on count. */
  ghost predicate SiteYields(pages: seq<BrowsePage>, skip: nat, line: Line, baseDomain: string) {
    exists m: nat, j :: AdvancedPast(pages, m) && m < |pages| && 0 <= j < |pages[m].rows| &&
      (m == 0 ==> skip <= j) && Yields(pages[m].rows[j], line, baseDomain)
  }

  /** Every line a run writes was written for a row that opened, on a page the run reached,
      and never for a row of the first page before the skip. */
  lemma {:induction false} HarvestProvenance(pages: seq<BrowsePage>, loops: int, skip: nat, baseDomain: string)
    ensures forall line :: line in Harvest(pages, loops, skip, baseDomain).records ==>
      SiteYields(pages, skip, line, baseDomain)
    decreases |pages|
  {
    if loops > 0 && pages != [] && pages[0].rows != [] {
      var rows := pages[0].rows;
      var w := Window(rows, skip);
      var r := PageWalk(w, 0, loops, baseDomain);
      PageWalkProvenance(w, 0, loops, baseDomain);
      var tail := pages[1..];
      var goesOn := !r.aborted && loops - r.processed > 0 && pages[0].hasNext && pages[0].nextOk;
      if goesOn {
        HarvestProvenance(tail, loops - r.processed, 0, baseDomain);
      }
      forall line | line in Harvest(pages, loops, skip, baseDomain).records
        ensures SiteYields(pages, skip, line, baseDomain)
      {
        if line in r.records {
          var j :| 0 <= j < |w| && Yields(w[j], line, baseDomain);
          assert w[j] == pages[0].rows[skip + j];
          assert AdvancedPast(pages, 0);
        } else {
          assert goesOn;
          assert SiteYields(tail, 0, line, baseDomain);
          var m: nat, j :| AdvancedPast(tail, m) && m < |tail| && 0 <= j < |tail[m].rows| &&
            Yields(tail[m].rows[j], line, baseDomain);
          AdvancedPastCons(pages, m);
          assert tail[m] == pages[m + 1];
        }
      }
    }
  }

  /** Every row on a site raises no exception and opens at most maxAttachments attachments. */
  ghost predicate WellBehavedRows(pages: seq<BrowsePage>, maxAttachments: nat) {
    forall m, j :: 0 <= m < |pages| && 0 <= j < |pages[m].rows| ==> WellBehaved(pages[m].rows[j], maxAttachments)
  }

  /** In addition, every next control present can be followed. */
  ghost predicate WellBehavedSite(pages: seq<BrowsePage>, maxAttachments: nat) {
    (forall m :: 0 <= m < |pages| && pages[m].hasNext ==> pages[m].nextOk) &&
    WellBehavedRows(pages, maxAttachments)
  }

  /** When no row raises, a run writes at most (maximum attachments per item) times (rows
      processed) lines, even if following a next control raises. */
  lemma {:induction false} HarvestLinesBound(pages: seq<BrowsePage>, loops: int, skip: nat, baseDomain: string, maxAttachments: nat)
    requires WellBehavedRows(pages, maxAttachments)
    ensures var h := Harvest(pages, loops, skip, baseDomain);
      |h.records| <= maxAttachments * h.processed
    decreases |pages|
  {
    if loops > 0 && pages != [] && pages[0].rows != [] {
      PageBound(pages[0], skip, loops, baseDomain, maxAttachments);
      var r := PageWalk(Window(pages[0].rows, skip), 0, loops, baseDomain);
      if loops - r.processed > 0 && pages[0].hasNext && pages[0].nextOk {
        var tail := pages[1..];
        assert forall m :: 0 <= m < |tail| ==> tail[m] == pages[m + 1];
        assert WellBehavedRows(tail, maxAttachments);
        HarvestLinesBound(tail, loops - r.processed, 0, baseDomain, maxAttachments);
        var rest := Harvest(tail, loops - r.processed, 0, baseDomain);
        MulDistributes(maxAttachments, r.processed, rest.processed);
      }
    }
  }

  /** When nothing raises, the run does not fail, and the bound above holds. */
  lemma {:induction false} HarvestRecordsBound(pages: seq<BrowsePage>, loops: int, skip: nat, baseDomain: string, maxAttachments: nat)
    requires WellBehavedSite(pages, maxAttachments)
    ensures var h := Harvest(pages, loops, skip, baseDomain);
      h.outcome != Failed && |h.records| <= maxAttachments * h.processed
    decreases |pages|
  {
    HarvestLinesBound(pages, loops, skip, baseDomain, maxAttachments);
    if loops > 0 && pages != [] && pages[0].rows != [] {
      PageBound(pages[0], skip, loops, baseDomain, maxAttachments);
      var r := PageWalk(Window(pages[0].rows, skip), 0, loops, baseDomain);
      if loops - r.processed > 0 && pages[0].hasNext {
        var tail := pages[1..];
        assert forall m :: 0 <= m < |tail| ==> tail[m] == pages[m + 1];
        assert WellBehavedSite(tail, maxAttachments);
        HarvestRecordsBound(tail, loops - r.processed, 0, baseDomain, maxAttachments);
      }
    }
  }

  /** The bound fails once a final step back raises: the item's line stays written, but its
      row is never counted. */
  lemma LinesWithoutCount()
    ensures var h := Harvest([BrowsePage([Opened("A", [AttachmentRead("a", "f", "o")], false)], false, true)], 1, 0, "d");
      |h.records| == 1 && h.processed == 0 && h.outcome == Failed
  {
    var row := Opened("A", [AttachmentRead("a", "f", "o")], false);
    assert ItemRecords("A", row.attachments, "d") == [RecordFor("A", row.attachments[0], "d")];
    assert Window([row], 0) == [row];
  }

  lemma PageBound(page: BrowsePage, skip: nat, loops: int, baseDomain: string, maxAttachments: nat)
    requires forall j :: 0 <= j < |page.rows| ==> WellBehaved(page.rows[j], maxAttachments)
    ensures var r := PageWalk(Window(page.rows, skip), 0, loops, baseDomain);
      !r.aborted && |r.records| <= maxAttachments * r.processed
  {
    var w := Window(page.rows, skip);
    assert forall j :: 0 <= j < |w| ==> w[j] == page.rows[skip + j];
    PageRecordsBound(w, 0, loops, baseDomain, maxAttachments);
    FinishingRowsCount(w, 0, loops, baseDomain);
  }

  lemma MulDistributes(k: nat, a: nat, b: nat)
    ensures k * (a + b) == k * a + k * b
  {
  }

  /** A row that opens with its heading and returns to the listing. */
  predicate Clean(row: RowOutcome) {
    row.Opened? && row.backOk
  }

  lemma {:induction false} HandledKeepsClean(rows: seq<RowOutcome>)
    requires forall j :: 0 <= j < |rows| ==> Clean(rows[j])
    ensures Handled(rows) == rows
  {
    if rows != [] {
      HandledKeepsClean(rows[1..]);
      assert [rows[0]] + rows[1..] == rows;
    }
  }

  /** On one page of clean rows, a run with a skip and a limit that fit the page writes the
      lines of exactly the rows from the skip up to skip + loops. */
  lemma OnePageWindow(rows: seq<RowOutcome>, hasNext: bool, nextOk: bool, loops: nat, skip: nat, baseDomain: string)
    requires forall j :: 0 <= j < |rows| ==> Clean(rows[j])
    requires skip + loops <= |rows|
    ensures Harvest([BrowsePage(rows, hasNext, nextOk)], loops, skip, baseDomain).records ==
      AllRecords(rows[skip..skip + loops], baseDomain)
  {
    if loops > 0 {
      var w := Window(rows, skip);
      assert w == rows[skip..];
      assert forall j :: 0 <= j < |w| ==> w[j] == rows[skip + j];
      HandledKeepsClean(w);
      FinishingRowsCount(w, 0, loops, baseDomain);
      assert w[..loops] == rows[skip..skip + loops];
    }
  }

  /** Moving the count and the budget up together changes only the count. */
  lemma {:induction false} PageWalkShift(rows: seq<RowOutcome>, processed: nat, rowsRemaining: int, c: nat, baseDomain: string)
    ensures var r := PageWalk(rows, processed, rowsRemaining, baseDomain);
      PageWalk(rows, processed + c, rowsRemaining + c, baseDomain) == PageResult(r.processed + c, r.records, r.aborted)
  {
    if rows != [] && processed < rowsRemaining {
      if Skipped(rows[0]) {
        PageWalkShift(rows[1..], processed, rowsRemaining, c, baseDomain);
      } else if rows[0].Opened? && rows[0].backOk {
        PageWalkShift(rows[1..], processed + 1, rowsRemaining, c, baseDomain);
      }
    }
  }

  /** `n` clean rows within the budget are each counted and written, and the walk goes on
      after them. */
  lemma {:induction false} CleanPrefixWalk(rows: seq<RowOutcome>, n: nat, processed: nat, rowsRemaining: int, baseDomain: string)
    requires n <= |rows| && processed + n <= rowsRemaining
    requires forall j :: 0 <= j < n ==> Clean(rows[j])
    ensures var r := PageWalk(rows[n..], processed + n, rowsRemaining, baseDomain);
      PageWalk(rows, processed, rowsRemaining, baseDomain) ==
        PageResult(r.processed, AllRecords(rows[..n], baseDomain) + r.records, r.aborted)
  {
    if n == 0 {
      assert rows[0..] == rows;
    } else {
      var tail := rows[1..];
      CleanPrefixWalk(tail, n - 1, processed + 1, rowsRemaining, baseDomain);
      assert tail[n - 1..] == rows[n..];
      var item := ItemRecords(rows[0].heading, rows[0].attachments, baseDomain);
      var before := AllRecords(tail[..n - 1], baseDomain);
      var r := PageWalk(rows[n..], processed + n, rowsRemaining, baseDomain);
      var rest := PageWalk(tail, processed + 1, rowsRemaining, baseDomain);
      var ih := PageWalk(tail[n - 1..], processed + 1 + (n - 1), rowsRemaining, baseDomain);
      assert rest == PageResult(ih.processed, before + ih.records, ih.aborted);
      assert ih == r;
      assert PageWalk(rows, processed, rowsRemaining, baseDomain) == PageResult(rest.processed, item + rest.records, rest.aborted);
      assert rows[..n][0] == rows[0] && rows[..n][1..] == tail[..n - 1];
      assert AllRecords(rows[..n], baseDomain) == item + before;
      AppendAssoc(item, before, r.records);
    }
  }

  /** The first page of the three runs of ResumeGeneral. */
  lemma ResumeFirstPage(rows: seq<RowOutcome>, n: nat, m: nat, baseDomain: string)
    requires 0 < n <= |rows| && 0 < m
    requires forall j :: 0 <= j < n ==> Clean(rows[j])
    ensures var w := PageWalk(rows[n..], 0, m, baseDomain);
      var prefix := AllRecords(rows[..n], baseDomain);
      Window(rows, n) == rows[n..] &&
      PageWalk(Window(rows, 0), 0, n, baseDomain) == PageResult(n, prefix, false) &&
      PageWalk(Window(rows, 0), 0, n + m, baseDomain) == PageResult(w.processed + n, prefix + w.records, w.aborted)
  {
    assert Window(rows, 0) == rows;
    CleanPrefixWalk(rows, n, 0, n + m, baseDomain);
    CleanPrefixWalk(rows, n, 0, n, baseDomain);
    PageWalkShift(rows[n..], 0, m, n, baseDomain);
  }

  /** Resuming: when the first N rows of the first page open and return, `skip = 0,
      limit = N + M` writes what `skip = 0, limit = N` followed by `skip = N, limit = M`
      writes, whatever the later rows, pages and next controls do. */
  lemma ResumeGeneral(pages: seq<BrowsePage>, n: nat, m: nat, baseDomain: string)
    requires pages != [] && n <= |pages[0].rows|
    requires forall j :: 0 <= j < n ==> Clean(pages[0].rows[j])
    ensures Harvest(pages, n + m, 0, baseDomain).records ==
      Harvest(pages, n, 0, baseDomain).records + Harvest(pages, m, n, baseDomain).records
  {
    if n > 0 && m > 0 {
      var rows := pages[0].rows;
      ResumeFirstPage(rows, n, m, baseDomain);
      var w := PageWalk(rows[n..], 0, m, baseDomain);
      var prefix := AllRecords(rows[..n], baseDomain);
      assert Harvest(pages, n, 0, baseDomain).records == prefix;
      if !w.aborted && m - w.processed > 0 && pages[0].hasNext && pages[0].nextOk {
        var rest := Harvest(pages[1..], m - w.processed, 0, baseDomain);
        assert Harvest(pages, m, n, baseDomain).records == w.records + rest.records;
        assert Harvest(pages, n + m, 0, baseDomain).records == (prefix + w.records) + rest.records;
        AppendAssoc(prefix, w.records, rest.records);
      }
    }
  }

  /** Resuming on one page: with every row clean, `skip = 0, limit = N + M` writes what
      `skip = 0, limit = N` followed by `skip = N, limit = M` writes. */
  lemma ResumeOnOnePage(rows: seq<RowOutcome>, hasNext: bool, nextOk: bool, n: nat, m: nat, baseDomain: string)
    requires forall j :: 0 <= j < |rows| ==> Clean(rows[j])
    requires n + m <= |rows|
    ensures var site := [BrowsePage(rows, hasNext, nextOk)];
      Harvest(site, n + m, 0, baseDomain).records ==
        Harvest(site, n, 0, baseDomain).records + Harvest(site, m, n, baseDomain).records
  {
    ResumeGeneral([BrowsePage(rows, hasNext, nextOk)], n, m, baseDomain);
  }

  /** The skip counts row positions, not rows processed: after a row that fails to open,
      resuming with `skip = N` writes item A's line again and misses the line of item B. */
  lemma ResumeAfterSkippedRow()
    ensures var a := Opened("A", [AttachmentRead("a", "fa", "oa")], true);
      var b := Opened("B", [AttachmentRead("b", "fb", "ob")], true);
      var site := [BrowsePage([OpenFailed, a, b], false, true)];
      var lineB := RecordFor("B", AttachmentRead("b", "fb", "ob"), "d");
      Harvest(site, 1, 1, "d").records == Harvest(site, 1, 0, "d").records &&
      lineB in Harvest(site, 2, 0, "d").records &&
      lineB !in Harvest(site, 1, 0, "d").records + Harvest(site, 1, 1, "d").records
  {
    var a := Opened("A", [AttachmentRead("a", "fa", "oa")], true);
    var b := Opened("B", [AttachmentRead("b", "fb", "ob")], true);
    var rows := [OpenFailed, a, b];
    var site := [BrowsePage(rows, false, true)];
    var ra := ItemRecords("A", a.attachments, "d");
    var rb := ItemRecords("B", b.attachments, "d");
    assert ra == [RecordFor("A", a.attachments[0], "d")];
    assert rb == [RecordFor("B", b.attachments[0], "d")];
    assert Window(rows, 0) == rows;
    assert rows[1..] == [a, b];
    assert [b][1..] == [];
    assert PageWalk([b], 1, 2, "d").records == rb;
    assert PageWalk([a, b], 0, 2, "d").records == ra + rb;
    assert PageWalk(rows, 0, 2, "d").records == ra + rb;
    assert Harvest(site, 2, 0, "d").records == ra + rb;
    assert PageWalk([b], 1, 1, "d").records == [];
    assert PageWalk([a, b], 0, 1, "d").records == ra;
    assert PageWalk(rows, 0, 1, "d").records == ra;
    assert Harvest(site, 1, 0, "d").records == ra;
    assert Window(rows, 1) == [a, b];
    assert Harvest(site, 1, 1, "d").records == ra;
  }

  /** The three runs of ResumePastFirstPage on a site of clean rows: one row on the first
      page, two on the second. */
  lemma TwoPageRuns(a: RowOutcome, c: RowOutcome, e: RowOutcome, d: string)
    requires Clean(a) && Clean(c) && Clean(e)
    ensures var site := [BrowsePage([a], true, true), BrowsePage([c, e], false, true)];
      var ra := ItemRecords(a.heading, a.attachments, d);
      var rc := ItemRecords(c.heading, c.attachments, d);
      var re := ItemRecords(e.heading, e.attachments, d);
      Harvest(site, 3, 0, d).records == ra + (rc + re) &&
      Harvest(site, 2, 0, d).records == ra + rc &&
      Harvest(site, 1, 2, d).records == rc
  {
    var second := [BrowsePage([c, e], false, true)];
    var site := [BrowsePage([a], true, true)] + second;
    var ra := ItemRecords(a.heading, a.attachments, d);
    var rc := ItemRecords(c.heading, c.attachments, d);
    var re := ItemRecords(e.heading, e.attachments, d);
    assert site[1..] == second && second[1..] == [];
    assert Window([a], 0) == [a] && Window([c, e], 0) == [c, e] && Window([a], 2) == [];
    assert [a][1..] == [] && [c, e][1..] == [e] && [e][1..] == [];
    assert PageWalk([a], 0, 3, d) == PageResult(1, ra, false);
    assert PageWalk([a], 0, 2, d) == PageResult(1, ra, false);
    assert PageWalk([e], 1, 2, d) == PageResult(2, re, false);
    assert PageWalk([c, e], 0, 2, d) == PageResult(2, rc + re, false);
    assert PageWalk([e], 1, 1, d) == PageResult(1, [], false);
    assert PageWalk([c, e], 0, 1, d) == PageResult(1, rc, false);
    assert Harvest(second, 2, 0, d).records == rc + re;
    assert Harvest(second, 1, 0, d).records == rc;
    assert PageWalk([], 0, 1, d) == PageResult(0, [], false);
  }

  /** The skip is not carried over: when N reaches past the first page, resuming with
      `skip = N` starts the second page again at its first row. With one row on the first
      page and two on the second, all clean and with distinct item headings, limit 3 writes
      the line of the last row, while limit 2 followed by skip 2, limit 1 repeats the second
      page's first row and never writes it. */
  lemma ResumePastFirstPage(a: RowOutcome, c: RowOutcome, heading: string, x: Attachment, d: string)
    requires Clean(a) && Clean(c) && x.AttachmentRead?
    requires heading != a.heading && heading != c.heading
    ensures var site := [BrowsePage([a], true, true), BrowsePage([c, Opened(heading, [x], true)], false, true)];
      RecordFor(heading, x, d) in Harvest(site, 3, 0, d).records &&
      RecordFor(heading, x, d) !in Harvest(site, 2, 0, d).records + Harvest(site, 1, 2, d).records
  {
    var e := Opened(heading, [x], true);
    TwoPageRuns(a, c, e, d);
    assert [x][..0] == [];
    assert ItemRecords(heading, [x], d) == [RecordFor(heading, x, d)];
    ItemRecordsProvenance(a.heading, a.attachments, d);
    ItemRecordsProvenance(c.heading, c.attachments, d);
  }
}
