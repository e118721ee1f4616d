/**
 The driver: loads the reference index, reads the feed, prints one line per
 rejected record and, when the read stops on a malformed row, that error's
 message; the exit code tells a clean run from any other.
 */
module Driver {
  import opened Wrappers
  import opened Geofeed
  import opened ReferenceIndex
  import opened FeedReader
  import opened Validator
  import opened Formatter

  /** What the program prints on standard output, and the status it exits with. */
  datatype RunResult = RunResult(lines: seq<string>, exitCode: int)

  /** The lines printed for the records: one per rejected record, in order; nothing for a valid one. */
  function FailureLines(records: seq<GeoRecord>, idx: Index, isNetwork: string -> bool): (lines: seq<string>)
    ensures |lines| <= |records|
  {
    if |records| == 0 then []
    else
      var rest := FailureLines(records[1..], idx, isNetwork);
      match Validate(records[0], idx, isNetwork)
      case None => rest
      case Some(reason) => [FormatValidationError(records[0], reason)] + rest
  }

  /** Nothing is printed exactly when every record passes validation. */
  lemma {:induction false} FailureLinesEmpty(records: seq<GeoRecord>, idx: Index, isNetwork: string -> bool)
    ensures FailureLines(records, idx, isNetwork) == [] <==>
      forall i | 0 <= i < |records| :: Validate(records[i], idx, isNetwork).None?
  {
    if |records| > 0 {
      FailureLinesEmpty(records[1..], idx, isNetwork);
      assert forall i | 0 < i < |records| :: records[i] == records[1..][i - 1];
    }
  }

  /** The output for a sequence of records is the output for each part, in input order. */
  lemma {:induction false} FailureLinesAppend(a: seq<GeoRecord>, b: seq<GeoRecord>, idx: Index, isNetwork: string -> bool)
    ensures FailureLines(a + b, idx, isNetwork) == FailureLines(a, idx, isNetwork) + FailureLines(b, idx, isNetwork)
  {
    if |a| > 0 {
      assert (a + b)[0] == a[0];
      assert (a + b)[1..] == a[1..] + b;
      FailureLinesAppend(a[1..], b, idx, isNetwork);
    } else {
      assert a + b == b;
    }
  }

  /** One more record adds its line, if it has one, at the end. */
  lemma FailureLinesSnoc(records: seq<GeoRecord>, i: nat, idx: Index, isNetwork: string -> bool)
    requires i < |records|
    ensures FailureLines(records[..i + 1], idx, isNetwork) == FailureLines(records[..i], idx, isNetwork) +
      match Validate(records[i], idx, isNetwork)
      case None => []
      case Some(reason) => [FormatValidationError(records[i], reason)]
  {
    FailureLinesAppend(records[..i], [records[i]], idx, isNetwork);
    assert records[..i + 1] == records[..i] + [records[i]];
    assert [records[i]][1..] == [];
  }

  /** The run once the index is loaded: the failure lines of the records read, then the read error. */
  function Report(idx: Index, rows: seq<seq<string>>, isNetwork: string -> bool): RunResult
  {
    var read := ReadFeed(rows);
    var lines := FailureLines(read.records, idx, isNetwork)
      + (match read.error case Some(message) => [message] case None => []);
    // The status is set to 1 each time a line is printed.
    RunResult(lines, if lines == [] then 0 else 1)
  }

  /**
   The exit status in terms of the feed: 0 exactly when every row has five
   fields and every record they give passes all three rules, otherwise 1.
   */
  lemma ReportExitCode(idx: Index, rows: seq<seq<string>>, isNetwork: string -> bool)
    ensures Report(idx, rows, isNetwork).exitCode in {0, 1}
    ensures Report(idx, rows, isNetwork).exitCode == 0 <==>
      forall i | 0 <= i < |rows| :: |rows[i]| == 5 && Validate(FromFields(rows[i]), idx, isNetwork).None?
  {
    ReadFeedSpec(rows);
    var read := ReadFeed(rows);
    FailureLinesEmpty(read.records, idx, isNetwork);
    if Report(idx, rows, isNetwork).exitCode == 0 {
      forall i | 0 <= i < |rows| ensures |rows[i]| == 5 && Validate(FromFields(rows[i]), idx, isNetwork).None? {
        assert read.records[i] == FromFields(rows[i]);
      }
    }
    if forall i | 0 <= i < |rows| :: |rows[i]| == 5 && Validate(FromFields(rows[i]), idx, isNetwork).None? {
      forall i | 0 <= i < |read.records| ensures Validate(read.records[i], idx, isNetwork).None? {
        assert read.records[i] == FromFields(rows[i]);
      }
    }
  }

  /** A malformed row ends the run: rows after it print nothing and change nothing. */
  lemma ReportStopsAtFatal(idx: Index, rows: seq<seq<string>>, rest: seq<seq<string>>, isNetwork: string -> bool)
    requires ReadFeed(rows).error.Some?
    ensures Report(idx, rows + rest, isNetwork) == Report(idx, rows, isNetwork)
    ensures Report(idx, rows, isNetwork).exitCode == 1
  {
    ReadFeedIgnoresRest(rows, rest);
  }

  /** After a clean read of some rows, the output of the rows that follow comes after theirs. */
  lemma ReportOrder(idx: Index, rows: seq<seq<string>>, more: seq<seq<string>>, isNetwork: string -> bool)
    requires ReadFeed(rows).error.None?
    ensures Report(idx, rows + more, isNetwork).lines ==
      FailureLines(ReadFeed(rows).records, idx, isNetwork) + Report(idx, more, isNetwork).lines
  {
    ReadFeedAppend(rows, more);
    FailureLinesAppend(ReadFeed(rows).records, ReadFeed(more).records, idx, isNetwork);
  }

  /** An end-to-end run: index `{"FR": {"75"}}` and a three-row feed. */
  lemma ParisExample(isNetwork: string -> bool)
    requires isNetwork("198.51.100.0/24") && !isNetwork("bad")
    ensures Report(map["FR" := {"75"}],
                   [["198.51.100.0/24", "FR", "75", "Paris", "75000"],
                    ["198.51.100.0/24", "FR", "99", "Paris", "75000"],
                    ["bad", "", "", "", ""]], isNetwork)
         == RunResult(["Wrong region code: 198.51.100.0/24,FR,99,Paris,75000", "Invalid prefix: bad,,,,"], 1)
  {
    var rows := [["198.51.100.0/24", "FR", "75", "Paris", "75000"],
                 ["198.51.100.0/24", "FR", "99", "Paris", "75000"],
                 ["bad", "", "", "", ""]];
    var idx: Index := map["FR" := {"75"}];
    var r0, r1, r2 := FromFields(rows[0]), FromFields(rows[1]), FromFields(rows[2]);
    assert rows[1..][1..][1..] == [];
    assert ReadFeed(rows) == ReadOutcome([r0, r1, r2], None);
    assert Validate(r0, idx, isNetwork) == None;
    assert Validate(r1, idx, isNetwork) == Some(WrongRegionCode);
    assert Validate(r2, idx, isNetwork) == Some(InvalidPrefix);
    var l1 := FormatValidationError(r1, WrongRegionCode);
    var l2 := FormatValidationError(r2, InvalidPrefix);
    assert [r2][1..] == [];
    assert FailureLines([r2], idx, isNetwork) == [l2];
    assert [r1, r2][1..] == [r2];
    assert FailureLines([r1, r2], idx, isNetwork) == [l1, l2];
    assert [r0, r1, r2][1..] == [r1, r2];
    assert FailureLines([r0, r1, r2], idx, isNetwork) == [l1, l2];
    assert r1 == GeoRecord("198.51.100.0/24", "FR", "99", "Paris", "75000");
    ParisRegionLine();
    assert l2 == "Invalid prefix: bad,,,,";
    assert Report(idx, rows, isNetwork) == RunResult([l1, l2], 1);
  }

  /** The line for the second record of that run. */
  lemma ParisRegionLine()
    ensures FormatValidationError(GeoRecord("198.51.100.0/24", "FR", "99", "Paris", "75000"), WrongRegionCode)
         == "Wrong region code: 198.51.100.0/24,FR,99,Paris,75000"
  {
  }

  /** The whole program: nothing is printed and the status is 1 when the reference table fails to load. */
  function Run(refRows: seq<seq<string>>, rows: seq<seq<string>>, isNetwork: string -> bool): RunResult
  {
    match BuildIndex(refRows)
    case None => RunResult([], 1)
    case Some(idx) => Report(idx, rows, isNetwork)
  }

  /** A short reference row aborts the run before any feed row is validated. */
  lemma RunLoadFailure(refRows: seq<seq<string>>, rows: seq<seq<string>>, isNetwork: string -> bool)
    requires exists i | 0 <= i < |refRows| :: |refRows[i]| < 3
    ensures Run(refRows, rows, isNetwork) == RunResult([], 1)
  {
    BuildIndexFails(refRows);
  }

  /** The loop of `main` once the index is loaded: print each failure, then the read error. */
  method ProcessFeed(idx: Index, rows: seq<seq<string>>, isNetwork: string -> bool)
    returns (lines: seq<string>, exitCode: int)
    ensures RunResult(lines, exitCode) == Report(idx, rows, isNetwork)
  {
    var records, error := ReadGeolocationData(rows);
    lines, exitCode := [], 0;
    var i := 0;
    while i < |records|
      invariant 0 <= i <= |records|
      invariant lines == FailureLines(records[..i], idx, isNetwork)
      invariant exitCode == if lines == [] then 0 else 1
    {
      var outcome := Validate(records[i], idx, isNetwork);
      FailureLinesSnoc(records, i, idx, isNetwork);
      if outcome.Some? {
        lines := lines + [FormatValidationError(records[i], outcome.value)];
        exitCode := 1;
      }
      i := i + 1;
    }
    assert records[..i] == records;
    if error.Some? {
      lines := lines + [error.value];
      exitCode := 1;
    }
  }

  /** `main`: load the reference table, then process the feed against it. */
  method Execute(refRows: seq<seq<string>>, rows: seq<seq<string>>, isNetwork: string -> bool)
    returns (lines: seq<string>, exitCode: int)
    ensures RunResult(lines, exitCode) == Run(refRows, rows, isNetwork)
  {
    var index := ReadIp2LocationData(refRows);
    match index
    case None =>
      // The load error is not caught: a traceback, nothing on standard output, status 1.
      lines, exitCode := [], 1;
    case Some(idx) =>
      lines, exitCode := ProcessFeed(idx, rows, isNetwork);
  }
}
