/** What one call of process_browse_page (app.py:59-143) writes and counts, as functions
    of the page's row outcomes, and the properties of that bookkeeping. */
module PageTraversal {
  import opened Types
  import opened Text

  /** The line written for an attachment whose fields were all read (app.py:107-120). */
  function RecordFor(itemHeading: string, a: Attachment, baseDomain: string): Line
    requires a.AttachmentRead?
  {
    Record(itemHeading, ShortHeading(a.headingText), a.originalFilename, FileUrl(baseDomain, a.filename))
  }

  /** A written line has the exact four-field shape: the item heading, the heading text up to
      its first colon, the original filename, and the file URL, which gives back the filename. */
  lemma RecordShape(itemHeading: string, a: Attachment, baseDomain: string)
    requires a.AttachmentRead?
    ensures var line := RecordFor(itemHeading, a, baseDomain);
      line.Record? && line.itemHeading == itemHeading && line.originalFilename == a.originalFilename &&
      line.fileHeading <= a.headingText && ':' !in line.fileHeading &&
      (|line.fileHeading| == |a.headingText| || a.headingText[|line.fileHeading|] == ':') &&
      line.fileUrl == baseDomain + "/files/original/" + a.filename &&
      FilenameOf(baseDomain, line.fileUrl) == Some(a.filename)
  {
  }

  /** The lines written by the attachment loop of one item (app.py:100-133), in order. */
  function ItemRecords(itemHeading: string, attachments: seq<Attachment>, baseDomain: string): (lines: seq<Line>)
    ensures |lines| <= |attachments|
    ensures forall line :: line in lines ==> line.Record?
  {
    if attachments == [] then []
    else
      var last := attachments[|attachments| - 1];
      ItemRecords(itemHeading, attachments[..|attachments| - 1], baseDomain)
        + (if last.AttachmentRead? then [RecordFor(itemHeading, last, baseDomain)] else [])
  }

  /** Each line of an item comes from one attachment that was read; each attachment that was
      read gives its line; an item whose attachments all failed writes nothing. */
  lemma {:induction false} ItemRecordsProvenance(itemHeading: string, attachments: seq<Attachment>, baseDomain: string)
    ensures forall line :: line in ItemRecords(itemHeading, attachments, baseDomain) ==>
      exists k :: 0 <= k < |attachments| && attachments[k].AttachmentRead? &&
        line == RecordFor(itemHeading, attachments[k], baseDomain)
    ensures forall k :: 0 <= k < |attachments| && attachments[k].AttachmentRead? ==>
      RecordFor(itemHeading, attachments[k], baseDomain) in ItemRecords(itemHeading, attachments, baseDomain)
    ensures (forall k :: 0 <= k < |attachments| ==> attachments[k].AttachmentFailed?) ==>
      ItemRecords(itemHeading, attachments, baseDomain) == []
  {
    if attachments != [] {
      var n := |attachments| - 1;
      var init := attachments[..n];
      ItemRecordsProvenance(itemHeading, init, baseDomain);
      var lines := ItemRecords(itemHeading, attachments, baseDomain);
      forall line | line in lines
        ensures exists k :: (0 <= k < |attachments| && attachments[k].AttachmentRead? &&
          line == RecordFor(itemHeading, attachments[k], baseDomain))
      {
        if line in ItemRecords(itemHeading, init, baseDomain) {
          var k :| 0 <= k < |init| && init[k].AttachmentRead? && line == RecordFor(itemHeading, init[k], baseDomain);
          assert init[k] == attachments[k];
        } else {
          assert attachments[n].AttachmentRead? && line == RecordFor(itemHeading, attachments[n], baseDomain);
        }
      }
      forall k | 0 <= k < |attachments| && attachments[k].AttachmentRead?
        ensures RecordFor(itemHeading, attachments[k], baseDomain) in lines
      {
        if k < n {
          assert init[k] == attachments[k];
        }
      }
      if forall k :: 0 <= k < |attachments| ==> attachments[k].AttachmentFailed? {
        assert forall k :: 0 <= k < |init| ==> init[k] == attachments[k];
      }
    }
  }

  /** How many of the first k attachments were read. */
  ghost function ReadBefore(attachments: seq<Attachment>, k: nat): nat
    requires k <= |attachments|
  {
    |set i | 0 <= i < k && attachments[i].AttachmentRead?|
  }

  lemma ReadBeforeStep(attachments: seq<Attachment>, k: nat)
    requires k < |attachments|
    ensures ReadBefore(attachments, k + 1) == ReadBefore(attachments, k) + (if attachments[k].AttachmentRead? then 1 else 0)
  {
    var before := set i | 0 <= i < k && attachments[i].AttachmentRead?;
    if attachments[k].AttachmentRead? {
      assert (set i | 0 <= i < k + 1 && attachments[i].AttachmentRead?) == before + {k};
    } else {
      assert (set i | 0 <= i < k + 1 && attachments[i].AttachmentRead?) == before;
    }
  }

  lemma ReadBeforePrefix(attachments: seq<Attachment>, n: nat, k: nat)
    requires k <= n <= |attachments|
    ensures ReadBefore(attachments[..n], k) == ReadBefore(attachments, k)
  {
    assert (set i | 0 <= i < k && attachments[..n][i].AttachmentRead?)
      == (set i | 0 <= i < k && attachments[i].AttachmentRead?);
  }

  /** One line per attachment read, in attachment order: the record of the k-th attachment,
      when it was read, is the line after those of the attachments read before it. */
  lemma {:induction false} ItemRecordsInOrder(itemHeading: string, attachments: seq<Attachment>, baseDomain: string)
    ensures |ItemRecords(itemHeading, attachments, baseDomain)| == ReadBefore(attachments, |attachments|)
    ensures forall k :: 0 <= k < |attachments| && attachments[k].AttachmentRead? ==>
      ReadBefore(attachments, k) < |ItemRecords(itemHeading, attachments, baseDomain)| &&
      ItemRecords(itemHeading, attachments, baseDomain)[ReadBefore(attachments, k)] == RecordFor(itemHeading, attachments[k], baseDomain)
  {
    if attachments != [] {
      var n := |attachments| - 1;
      var init := attachments[..n];
      var before := ItemRecords(itemHeading, init, baseDomain);
      var lines := ItemRecords(itemHeading, attachments, baseDomain);
      ItemRecordsInOrder(itemHeading, init, baseDomain);
      ReadBeforePrefix(attachments, n, n);
      ReadBeforeStep(attachments, n);
      forall k | 0 <= k < |attachments| && attachments[k].AttachmentRead?
        ensures ReadBefore(attachments, k) < |lines| && lines[ReadBefore(attachments, k)] == RecordFor(itemHeading, attachments[k], baseDomain)
      {
        if k < n {
          ReadBeforePrefix(attachments, n, k);
          assert init[k] == attachments[k];
          assert lines[ReadBefore(attachments, k)] == before[ReadBefore(init, k)];
        }
      }
    }
  }

  /** The rows the traversal skips without counting them: lines 76-83 and 85-91. */
  predicate Skipped(row: RowOutcome) {
    row.OpenFailed? || row.HeadingUnreadable?
  }

  /** The rows that are not skipped, in order. */
  function Handled(rows: seq<RowOutcome>): (kept: seq<RowOutcome>)
    ensures |kept| <= |rows|
    ensures forall j :: 0 <= j < |kept| ==> !Skipped(kept[j])
  {
    if rows == [] then []
    else (if Skipped(rows[0]) then [] else [rows[0]]) + Handled(rows[1..])
  }

  lemma {:induction false} HandledAppend(a: seq<RowOutcome>, b: seq<RowOutcome>)
    ensures Handled(a + b) == Handled(a) + Handled(b)
  {
    if a == [] {
      assert a + b == b;
    } else {
      assert (a + b)[0] == a[0];
      assert (a + b)[1..] == a[1..] + b;
      HandledAppend(a[1..], b);
    }
  }

  /** How many of the first k rows are kept. */
  ghost function KeptBefore(rows: seq<RowOutcome>, k: nat): nat
    requires k <= |rows|
  {
    |set i | 0 <= i < k && !Skipped(rows[i])|
  }

  lemma KeptBeforeStep(rows: seq<RowOutcome>, k: nat)
    requires k < |rows|
    ensures KeptBefore(rows, k + 1) == KeptBefore(rows, k) + (if Skipped(rows[k]) then 0 else 1)
  {
    var before := set i | 0 <= i < k && !Skipped(rows[i]);
    if Skipped(rows[k]) {
      assert (set i | 0 <= i < k + 1 && !Skipped(rows[i])) == before;
    } else {
      assert (set i | 0 <= i < k + 1 && !Skipped(rows[i])) == before + {k};
    }
  }

  lemma KeptBeforePrefix(rows: seq<RowOutcome>, n: nat, k: nat)
    requires k <= n <= |rows|
    ensures KeptBefore(rows[..n], k) == KeptBefore(rows, k)
  {
    assert (set i | 0 <= i < k && !Skipped(rows[..n][i])) == (set i | 0 <= i < k && !Skipped(rows[i]));
  }

  /** The kept rows are exactly the rows that are not skipped. */
  lemma {:induction false} HandledMembers(rows: seq<RowOutcome>)
    ensures forall r :: r in Handled(rows) <==> r in rows && !Skipped(r)
  {
    if rows != [] {
      HandledMembers(rows[1..]);
      assert rows == [rows[0]] + rows[1..];
    }
  }

  /** Each kept row is kept once and in order: the j-th row, when kept, comes right after
      the rows kept before it. */
  lemma {:induction false} HandledInOrder(rows: seq<RowOutcome>)
    ensures |Handled(rows)| == KeptBefore(rows, |rows|)
    ensures forall j :: 0 <= j < |rows| && !Skipped(rows[j]) ==>
      KeptBefore(rows, j) < |Handled(rows)| && Handled(rows)[KeptBefore(rows, j)] == rows[j]
  {
    if rows != [] {
      var n := |rows| - 1;
      var init := rows[..n];
      var before := Handled(init);
      var kept := Handled(rows);
      HandledInOrder(init);
      HandledLast(rows);
      KeptBeforePrefix(rows, n, n);
      KeptBeforeStep(rows, n);
      forall j | 0 <= j < n && !Skipped(rows[j])
        ensures KeptBefore(rows, j) < |kept| && kept[KeptBefore(rows, j)] == rows[j]
      {
        KeptBeforePrefix(rows, n, j);
        assert init[j] == rows[j];
        assert KeptBefore(init, j) < |before| && before[KeptBefore(init, j)] == rows[j];
        assert kept[KeptBefore(rows, j)] == before[KeptBefore(init, j)];
      }
    }
  }

  lemma HandledLast(rows: seq<RowOutcome>)
    requires rows != []
    ensures Handled(rows) == Handled(rows[..|rows| - 1]) + (if Skipped(rows[|rows| - 1]) then [] else [rows[|rows| - 1]])
  {
    var n := |rows| - 1;
    assert rows == rows[..n] + [rows[n]];
    HandledAppend(rows[..n], [rows[n]]);
    assert [rows[n]][1..] == [];
  }

  /** A row that does not end the run with an exception. */
  predicate Finishes(row: RowOutcome) {
    !row.Aborted? && (row.Opened? ==> row.backOk)
  }

  /** The lines one row writes, whether or not it then raises. */
  function RowLines(row: RowOutcome, baseDomain: string): seq<Line> {
    if row.Opened? then ItemRecords(row.heading, row.attachments, baseDomain) else []
  }

  /** The lines the given rows would write if each were fully handled, in order. */
  function AllRecords(rows: seq<RowOutcome>, baseDomain: string): seq<Line> {
    if rows == [] then [] else RowLines(rows[0], baseDomain) + AllRecords(rows[1..], baseDomain)
  }

  lemma {:induction false} AllRecordsAppend(a: seq<RowOutcome>, b: seq<RowOutcome>, baseDomain: string)
    ensures AllRecords(a + b, baseDomain) == AllRecords(a, baseDomain) + AllRecords(b, baseDomain)
  {
    if a == [] {
      assert a + b == b;
    } else {
      assert (a + b)[0] == a[0];
      assert (a + b)[1..] == a[1..] + b;
      AllRecordsAppend(a[1..], b, baseDomain);
    }
  }

  lemma AppendAssoc(a: seq<Line>, b: seq<Line>, c: seq<Line>)
    ensures (a + b) + c == a + (b + c)
  {
  }

  /** The rows `range(start_row, total_rows)` visits (app.py:67): empty when start_row is past the end. */
  function Window(rows: seq<RowOutcome>, startRow: nat): seq<RowOutcome> {
    if startRow <= |rows| then rows[startRow..] else []
  }

  /** The row loop of process_browse_page over the rows still to visit, with `processed` rows
      already counted and a budget of `rowsRemaining` (app.py:66-143). */
  function PageWalk(rows: seq<RowOutcome>, processed: nat, rowsRemaining: int, baseDomain: string): PageResult
  {
    if rows == [] || processed >= rowsRemaining then PageResult(processed, [], false)
    else
      match rows[0]
      case OpenFailed => PageWalk(rows[1..], processed, rowsRemaining, baseDomain)
      case HeadingUnreadable => PageWalk(rows[1..], processed, rowsRemaining, baseDomain)
      case Aborted => PageResult(processed, [], true)
      case Opened(heading, attachments, backOk) =>
        var item := ItemRecords(heading, attachments, baseDomain);
        if !backOk then PageResult(processed, item, true)
        else
          var rest := PageWalk(rows[1..], processed + 1, rowsRemaining, baseDomain);
          PageResult(rest.processed, item + rest.records, rest.aborted)
  }

  /** The count only grows, by at most one per row that is not skipped, and never past the budget. */
  lemma {:induction false} PageWalkBounds(rows: seq<RowOutcome>, processed: nat, rowsRemaining: int, baseDomain: string)
    ensures var r := PageWalk(rows, processed, rowsRemaining, baseDomain);
      processed <= r.processed <= processed + |Handled(rows)| &&
      (r.processed <= rowsRemaining || r.processed == processed)
  {
    if rows != [] && processed < rowsRemaining {
      PageWalkBounds(rows[1..], if rows[0].Opened? then processed + 1 else processed, rowsRemaining, baseDomain);
    }
  }

  /** `0 <= processed <= rows_remaining` and `processed <= max(0, total_rows - start_row)`. */
  lemma ProcessedBounds(rows: seq<RowOutcome>, startRow: nat, rowsRemaining: int, baseDomain: string)
    ensures var r := PageWalk(Window(rows, startRow), 0, rowsRemaining, baseDomain);
      r.processed <= (if rowsRemaining > 0 then rowsRemaining else 0) &&
      r.processed <= (if startRow < |rows| then |rows| - startRow else 0)
  {
    PageWalkBounds(Window(rows, startRow), 0, rowsRemaining, baseDomain);
  }

  /** Rows that fail to open or whose heading cannot be read change nothing: the page behaves
      exactly as if they were not there. */
  lemma {:induction false} SkippedRowsChangeNothing(rows: seq<RowOutcome>, processed: nat, rowsRemaining: int, baseDomain: string)
    ensures PageWalk(rows, processed, rowsRemaining, baseDomain) == PageWalk(Handled(rows), processed, rowsRemaining, baseDomain)
  {
    if rows != [] && processed < rowsRemaining {
      var kept := Handled(rows);
      if Skipped(rows[0]) {
        assert kept == Handled(rows[1..]);
        SkippedRowsChangeNothing(rows[1..], processed, rowsRemaining, baseDomain);
      } else {
        assert kept[0] == rows[0] && kept[1..] == Handled(rows[1..]);
        if rows[0].Opened? && rows[0].backOk {
          SkippedRowsChangeNothing(rows[1..], processed + 1, rowsRemaining, baseDomain);
        }
      }
    }
  }

  /** On rows that raise no exception, the traversal counts one per row that opens with a
      heading, whatever happens to its attachments, until the budget is met, and writes the
      lines of exactly those rows. */
  lemma {:induction false} FinishingRowsCount(rows: seq<RowOutcome>, processed: nat, rowsRemaining: int, baseDomain: string)
    requires forall j :: 0 <= j < |rows| ==> Finishes(rows[j])
    ensures var r := PageWalk(rows, processed, rowsRemaining, baseDomain);
      var budget := if rowsRemaining > processed then rowsRemaining - processed else 0;
      var n := if |Handled(rows)| < budget then |Handled(rows)| else budget;
      !r.aborted && r.processed == processed + n &&
      r.records == AllRecords(Handled(rows)[..n], baseDomain)
  {
    var r := PageWalk(rows, processed, rowsRemaining, baseDomain);
    if rows == [] || processed >= rowsRemaining {
      assert r == PageResult(processed, [], false);
      assert Handled(rows)[..0] == [];
    } else {
      var kept := Handled(rows);
      var tailKept := Handled(rows[1..]);
      var budget := rowsRemaining - processed;
      var n := if |kept| < budget then |kept| else budget;
      assert Finishes(rows[0]);
      if Skipped(rows[0]) {
        assert kept == tailKept;
        FinishingRowsCount(rows[1..], processed, rowsRemaining, baseDomain);
        assert r == PageWalk(rows[1..], processed, rowsRemaining, baseDomain);
      } else {
        assert |kept| == |tailKept| + 1;
        FinishingRowsCount(rows[1..], processed + 1, rowsRemaining, baseDomain);
        var rest := PageWalk(rows[1..], processed + 1, rowsRemaining, baseDomain);
        assert !rest.aborted && rest.processed == processed + n
          && rest.records == AllRecords(tailKept[..n - 1], baseDomain);
        HandledPrefixRecords(rows, n, baseDomain);
        assert r == PageResult(rest.processed, RowLines(rows[0], baseDomain) + rest.records, rest.aborted);
      }
    }
  }

  /** The lines of the first n kept rows, when the first row is kept. */
  lemma HandledPrefixRecords(rows: seq<RowOutcome>, n: nat, baseDomain: string)
    requires rows != [] && !Skipped(rows[0]) && 0 < n <= |Handled(rows)|
    ensures AllRecords(Handled(rows)[..n], baseDomain)
      == RowLines(rows[0], baseDomain) + AllRecords(Handled(rows[1..])[..n - 1], baseDomain)
  {
    var kept := Handled(rows);
    assert kept[0] == rows[0] && kept[1..] == Handled(rows[1..]);
    assert kept[..n][0] == rows[0] && kept[..n][1..] == Handled(rows[1..])[..n - 1];
  }

  /** A row that raises no exception and, if it opens, has at most maxAttachments attachments. */
  predicate WellBehaved(row: RowOutcome, maxAttachments: nat) {
    Finishes(row) && (row.Opened? ==> |row.attachments| <= maxAttachments)
  }

  /** When no row raises and no item has more than maxAttachments attachments, the page writes
      at most maxAttachments lines per row it counts. */
  lemma {:induction false} PageRecordsBound(rows: seq<RowOutcome>, processed: nat, rowsRemaining: int, baseDomain: string, maxAttachments: nat)
    requires forall j :: 0 <= j < |rows| ==> WellBehaved(rows[j], maxAttachments)
    ensures var r := PageWalk(rows, processed, rowsRemaining, baseDomain);
      processed <= r.processed && |r.records| <= maxAttachments * (r.processed - processed)
  {
    PageWalkBounds(rows, processed, rowsRemaining, baseDomain);
    if rows != [] && processed < rowsRemaining {
      if rows[0].Opened? {
        PageRecordsBound(rows[1..], processed + 1, rowsRemaining, baseDomain, maxAttachments);
        var rest := PageWalk(rows[1..], processed + 1, rowsRemaining, baseDomain);
        var d := rest.processed - (processed + 1);
        assert maxAttachments * (d + 1) == maxAttachments * d + maxAttachments;
      } else {
        PageRecordsBound(rows[1..], processed, rowsRemaining, baseDomain, maxAttachments);
      }
    }
  }

  /** The item opened from `row` wrote `line`. */
  ghost predicate Yields(row: RowOutcome, line: Line, baseDomain: string) {
    row.Opened? && line in ItemRecords(row.heading, row.attachments, baseDomain)
  }

  /** Every line a page writes was written for one of the page's rows that opened:
      nothing is written for rows that fail to open or have no readable heading. */
  lemma {:induction false} PageWalkProvenance(rows: seq<RowOutcome>, processed: nat, rowsRemaining: int, baseDomain: string)
    ensures forall line :: line in PageWalk(rows, processed, rowsRemaining, baseDomain).records ==>
      exists j :: 0 <= j < |rows| && Yields(rows[j], line, baseDomain)
  {
    if rows != [] && processed < rowsRemaining {
      var r := PageWalk(rows, processed, rowsRemaining, baseDomain);
      var next := if rows[0].Opened? then processed + 1 else processed;
      PageWalkProvenance(rows[1..], next, rowsRemaining, baseDomain);
      forall line | line in r.records
        ensures exists j :: 0 <= j < |rows| && Yields(rows[j], line, baseDomain)
      {
        if rows[0].Opened? && line in ItemRecords(rows[0].heading, rows[0].attachments, baseDomain) {
          assert Yields(rows[0], line, baseDomain);
        } else {
          var j :| 0 <= j < |rows[1..]| && Yields(rows[1..][j], line, baseDomain);
          assert rows[1..][j] == rows[j + 1];
        }
      }
    }
  }
}
