/**
 The failure formatter: one line of text per rejected record, the reason's
 message followed by the record's fields exactly as read, comma-separated.
 */
module Formatter {
  import opened Wrappers
  import opened Text
  import opened Geofeed

  /** `format_validation_error`: `"<reason>: <prefix>,<country>,<region>,<city>,<zip>"`. */
  function FormatValidationError(rec: GeoRecord, reason: Reason): string
  {
    Message(reason) + ": " + rec.prefix + "," + rec.country + "," + rec.region + "," + rec.city + "," + rec.zip
  }

  /** The text that starts every line for a reason. */
  function Header(reason: Reason): string
  {
    Message(reason) + ": "
  }

  /** The formatted line is the header followed by the record's fields joined with commas. */
  lemma FormatIsJoin(rec: GeoRecord, reason: Reason)
    ensures FormatValidationError(rec, reason) == Header(reason) + Join(Fields(rec), ',')
  {
    var sep := ',';
    assert [rec.city, rec.zip][1..] == [rec.zip];
    assert Join([rec.zip], sep) == rec.zip;
    var j4 := Join([rec.city, rec.zip], sep);
    assert j4 == rec.city + [sep] + rec.zip;
    assert [rec.region, rec.city, rec.zip][1..] == [rec.city, rec.zip];
    var j3 := Join([rec.region, rec.city, rec.zip], sep);
    assert j3 == rec.region + [sep] + j4;
    assert [rec.country, rec.region, rec.city, rec.zip][1..] == [rec.region, rec.city, rec.zip];
    var j2 := Join([rec.country, rec.region, rec.city, rec.zip], sep);
    assert j2 == rec.country + [sep] + j3;
    assert Fields(rec)[1..] == [rec.country, rec.region, rec.city, rec.zip];
    assert Join(Fields(rec), sep) == rec.prefix + [sep] + j2;
  }

  /** For a record read from a row, the line is the reason's message followed by the row's fields rejoined with commas. */
  lemma FormatIsRowText(row: seq<string>, reason: Reason)
    requires |row| == 5
    ensures FormatValidationError(FromFields(row), reason) == Message(reason) + ": " + Join(row, ',')
  {
    FormatIsJoin(FromFields(row), reason);
  }

  /** The line for the record `bad,US,,X,00000` rejected for its prefix. */
  lemma InvalidPrefixExample()
    ensures FormatValidationError(GeoRecord("bad", "US", "", "X", "00000"), InvalidPrefix)
         == "Invalid prefix: bad,US,,X,00000"
  {
  }

  /** What follows the header of `reason`, if the line starts with it. */
  function AfterHeader(line: string, reason: Reason): Option<string>
  {
    var h := Header(reason);
    if |h| <= |line| && line[..|h|] == h then Some(line[|h|..]) else None
  }

  /** The reason whose header the line starts with; the last one when none matches. */
  function LeadingReason(line: string): Reason
  {
    if AfterHeader(line, InvalidPrefix).Some? then InvalidPrefix
    else if AfterHeader(line, WrongCountryCode).Some? then WrongCountryCode
    else WrongRegionCode
  }

  /** Reads a failure line back into its reason and record; the inverse of the formatter. */
  function ParseFailureLine(line: string): Option<(Reason, GeoRecord)>
  {
    var reason := LeadingReason(line);
    match AfterHeader(line, reason)
    case None => None
    case Some(body) =>
      var fields := Split(body, ',');
      if |fields| == 5 then Some((reason, FromFields(fields))) else None
  }

  /** A line that starts with one reason's header does not start with another's. */
  lemma HeadersExclusive(line: string, a: Reason, b: Reason)
    requires AfterHeader(line, a).Some?
    requires a != b
    ensures AfterHeader(line, b).None?
  {
    var ha, hb := Header(a), Header(b);
    var i := if a == InvalidPrefix || b == InvalidPrefix then 0 else 6;
    assert ha[i] != hb[i];
    assert line[i] == ha[i];
  }

  /** Formatting then parsing gives back reason and record whenever no field holds a comma. */
  lemma FormatRoundTrip(rec: GeoRecord, reason: Reason)
    requires NoSeparator(Fields(rec), ',')
    ensures ParseFailureLine(FormatValidationError(rec, reason)) == Some((reason, rec))
  {
    var line := FormatValidationError(rec, reason);
    var body := Join(Fields(rec), ',');
    FormatIsJoin(rec, reason);
    assert line[..|Header(reason)|] == Header(reason);
    assert line[|Header(reason)|..] == body;
    assert AfterHeader(line, reason) == Some(body);
    if reason != InvalidPrefix { HeadersExclusive(line, reason, InvalidPrefix); }
    if reason != WrongCountryCode { HeadersExclusive(line, reason, WrongCountryCode); }
    SplitJoin(Fields(rec), ',');
  }

  /** Without that assumption the line is ambiguous: two different records can print alike. */
  lemma CommaMakesLinesAmbiguous()
    ensures var a, b := GeoRecord("p", "US", "", "a,b", "1"), GeoRecord("p", "US", "", "a", "b,1");
      a != b && FormatValidationError(a, InvalidPrefix) == FormatValidationError(b, InvalidPrefix)
  {
  }
}
