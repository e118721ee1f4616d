/**
 The record reader: decodes feed rows into records by position, and stops
 the whole read at the first row that does not have exactly five fields.
 */
module FeedReader {
  import opened Wrappers
  import opened Text
  import opened Geofeed

  /** What a read produces: the records yielded so far, and the fatal error that ended it, if any. */
  datatype ReadOutcome = ReadOutcome(records: seq<GeoRecord>, error: Option<string>)

  /** The text of the structural error: the offending row, its fields rejoined with commas. */
  function MalformedMessage(row: seq<string>): string
  {
    "Malformatted record: " + Join(row, ',')
  }

  /** The records yielded for the rows, in order, up to the first malformed row. */
  function ReadFeed(rows: seq<seq<string>>): ReadOutcome
  {
    if |rows| == 0 then ReadOutcome([], None)
    else if |rows[0]| != 5 then ReadOutcome([], Some(MalformedMessage(rows[0])))
    else
      var rest := ReadFeed(rows[1..]);
      ReadOutcome([FromFields(rows[0])] + rest.records, rest.error)
  }

  /**
   The read in closed form. The first `|records|` rows have five fields and
   became those records, in order. The read fails exactly when some row does
   not have five fields, and then the row at position `|records|` is the first
   such row and the error names it; otherwise every row became a record.
   */
  lemma {:induction false} ReadFeedSpec(rows: seq<seq<string>>)
    ensures var r := ReadFeed(rows);
      && |r.records| <= |rows|
      && (forall j | 0 <= j < |r.records| :: |rows[j]| == 5 && r.records[j] == FromFields(rows[j]))
      && (r.error.None? <==> forall i | 0 <= i < |rows| :: |rows[i]| == 5)
      && (r.error.None? ==> |r.records| == |rows|)
      && (r.error.Some? ==>
            |r.records| < |rows| && |rows[|r.records|]| != 5 &&
            r.error.value == MalformedMessage(rows[|r.records|]))
  {
    if |rows| > 0 && |rows[0]| == 5 {
      ReadFeedSpec(rows[1..]);
      var r := ReadFeed(rows);
      forall j | 0 <= j < |r.records| ensures |rows[j]| == 5 && r.records[j] == FromFields(rows[j]) {
        if j > 0 { assert rows[j] == rows[1..][j - 1]; }
      }
      if forall i | 0 <= i < |rows[1..]| :: |rows[1..][i]| == 5 {
        forall i | 0 <= i < |rows| ensures |rows[i]| == 5 {
          if i > 0 { assert rows[i] == rows[1..][i - 1]; }
        }
      }
      if r.error.Some? {
        assert rows[|r.records|] == rows[1..][|r.records| - 1];
      }
    }
  }

  /** Once a read has failed, nothing after the failing row is looked at. */
  lemma {:induction false} ReadFeedIgnoresRest(rows: seq<seq<string>>, rest: seq<seq<string>>)
    requires ReadFeed(rows).error.Some?
    ensures ReadFeed(rows + rest) == ReadFeed(rows)
  {
    assert (rows + rest)[0] == rows[0];
    if |rows[0]| == 5 {
      assert (rows + rest)[1..] == rows[1..] + rest;
      ReadFeedIgnoresRest(rows[1..], rest);
    }
  }

  /** A clean read of some rows ends as the read of what follows them ends. */
  lemma {:induction false} ReadFeedAppendError(rows: seq<seq<string>>, more: seq<seq<string>>)
    requires ReadFeed(rows).error.None?
    ensures ReadFeed(rows + more).error == ReadFeed(more).error
  {
    if |rows| == 0 {
      assert rows + more == more;
    } else {
      assert (rows + more)[0] == rows[0] && (rows + more)[1..] == rows[1..] + more;
      ReadFeedAppendError(rows[1..], more);
    }
  }

  /** A clean read of some rows continues with the records of what follows them. */
  lemma {:induction false} ReadFeedAppend(rows: seq<seq<string>>, more: seq<seq<string>>)
    requires ReadFeed(rows).error.None?
    ensures ReadFeed(rows + more).records == ReadFeed(rows).records + ReadFeed(more).records
    ensures ReadFeed(rows + more).error == ReadFeed(more).error
  {
    ReadFeedAppendError(rows, more);
    if |rows| == 0 {
      assert rows + more == more;
    } else {
      assert (rows + more)[0] == rows[0] && (rows + more)[1..] == rows[1..] + more;
      ReadFeedAppend(rows[1..], more);
      var head, tail := [FromFields(rows[0])], ReadFeed(rows[1..]).records;
      assert (head + tail) + ReadFeed(more).records == head + (tail + ReadFeed(more).records);
    }
  }

  /** `read_geolocation_data`: yields each well-formed row's record, raising at the first malformed row. */
  method ReadGeolocationData(rows: seq<seq<string>>) returns (records: seq<GeoRecord>, error: Option<string>)
    ensures ReadOutcome(records, error) == ReadFeed(rows)
  {
    records := [];
    var i := 0;
    while i < |rows|
      invariant 0 <= i <= |rows|
      invariant ReadFeed(rows) == ReadOutcome(records + ReadFeed(rows[i..]).records, ReadFeed(rows[i..]).error)
    {
      var row := rows[i];
      assert rows[i..][0] == row;
      if |row| != 5 {
        error := Some(MalformedMessage(row));
        return;
      }
      assert rows[i..][1..] == rows[i + 1..];
      assert records + ([FromFields(row)] + ReadFeed(rows[i + 1..]).records)
          == (records + [FromFields(row)]) + ReadFeed(rows[i + 1..]).records;
      records := records + [FromFields(row)];
      i := i + 1;
    }
    assert rows[i..] == [];
    error := None;
  }
}
