# rfc8025-validator, modelled in Dafny

A model of `rfc8025_validator.py`, a small checker for self-published IP
geolocation feeds. The script's docstring calls the format "RFC8025". Each
feed row has the five columns of section 2.1.1 of RFC 8805: prefix, country,
region, city and postal code. The script checks every row against a
reference table of ISO 3166-1 country codes and ISO 3166-2 region codes. It
prints one line for each rejected row and exits with status 1 when anything
was printed.

The model follows the script's pieces, one module each:

- `Geofeed` (geofeed.dfy): the record, the three rejection reasons and their messages.
- `ReferenceIndex` (reference_index.dfy): `read_ip2location_data`. `BuildIndex` is a
  fold over the table rows; `ReadIp2LocationData` is the loop, with a map
  accumulator. `IndexOfPairs(Pairs(rows))` is a reference definition that
  does not depend on row order, and the two are proved equal.
- `FeedReader` (feed_reader.dfy): `read_geolocation_data`. `ReadFeed` gives the
  records read and the fatal error, if any; `ReadGeolocationData` is the loop.
- `Validator` (validator.dfy): `validate`, as a function that returns the
  first failing rule's reason, or `None`.
- `Formatter` (formatter.dfy): `format_validation_error`, plus a parser that
  reads a failure line back. That parser is the formatter's inverse when no
  field contains a comma.
- `Driver` (driver.dfy): the loop of `main` and its exit status. `Report` is
  the result once the index is loaded; `Run` is the whole program;
  `ProcessFeed` and `Execute` are the loops, proved equal to them.
- `Text` (text.dfy) and `Wrappers` (wrappers.dfy): `Join`/`Split` on one
  separator character, and `Option`.

Python's exceptions become values. A failed index load is `None`. A malformed
feed row ends the read with "the records so far plus an error message". A
rejected record carries `Some(reason)`. Whether `ipaddress.ip_network`
accepts a prefix is the parameter `isNetwork: string -> bool`. Every
operation is a function of its inputs, so running the validator twice on the
same feed and index gives the same output.

The code calls `ip_network` with its defaults (`strict=True`) at line 85.
That call accepts a bare address as a /32 or /128 network and rejects host
bits set beyond the prefix length. The model leaves this verdict to
`isNetwork`.

## Model

| member | source | states |
|---|---|---|
| `Geofeed.Message` | rfc8025_validator.py:87-102 | the message each reason is raised with: "Invalid prefix", "Wrong country code", "Wrong region code" |
| `Text.Join` | rfc8025_validator.py:66 | `",".join(row)`: the fields with one separator between neighbours |
| `ReferenceIndex.BuildIndex` | rfc8025_validator.py:42-48 | the fold of `setdefault(row[0], set()).add(row[2])` over the rows in order, with no index once a row lacks column 2 |
| `FeedReader.MalformedMessage` | rfc8025_validator.py:66-67 | "Malformatted record: " followed by the row's fields rejoined with commas |
| `FeedReader.ReadFeed` | rfc8025_validator.py:64-70 | the records yielded, in order, up to the first row without 5 fields, and the error raised there |
| `Formatter.FormatValidationError` | rfc8025_validator.py:120-124 | `format_validation_error`: the reason's message, ": ", then the five fields separated by commas |
| `Driver.Report` | rfc8025_validator.py:136-153 | with the index loaded: the failure lines of the records read, then the read error's message if any; status 1 iff a line was printed |
| `Driver.Run` | rfc8025_validator.py:133-153 | the whole program: nothing printed and status 1 when the index fails to load, otherwise `Report` |
| `Geofeed.FromFields` | rfc8025_validator.py:69-70 | a five-field row maps positionally onto prefix, country, region, city, zip; the record's fields are exactly the row, empty strings included |
| `ReferenceIndex.AddPair` | rfc8025_validator.py:46 | `setdefault(country, set()).add(region)`: adds the country as a key, adds the region to that country's set, and leaves every other country unchanged |
| `ReferenceIndex.IndexOfPairsMembership` | rfc8025_validator.py:39-40 | in the index a set of (country, region) pairs determines: a country is a key iff some pair names it, and a region is in its set iff that pair occurs |
| `ReferenceIndex.BuildIndexContents` | rfc8025_validator.py:42-48 | a table whose rows all have column 2 loads, to exactly the index of its (column 0, column 2) pairs |
| `ReferenceIndex.BuildIndexFails` | rfc8025_validator.py:45-46 | the load fails iff some row has fewer than 3 columns; no partial index is returned |
| `ReferenceIndex.IndexMembership` | rfc8025_validator.py:42-48 | the keys are exactly the column-0 values that occur; `index[c]` holds exactly the column-2 values of the rows whose column 0 is `c` |
| `ReferenceIndex.BuildIndexSameRows` | rfc8025_validator.py:45-46 | two tables with the same rows, in any order and with any repetition, load to the same result |
| `ReferenceIndex.BuildIndexPermutation` | rfc8025_validator.py:45-46 | a permutation of the table loads to the same result |
| `ReferenceIndex.BuildIndexDuplicate` | rfc8025_validator.py:46 | repeating a row changes nothing |
| `ReferenceIndex.ReadIp2LocationData` | rfc8025_validator.py:42-48 | the loop with a map accumulator returns the fold's result: the index, or nothing at the first short row |
| `FeedReader.ReadFeedSpec` | rfc8025_validator.py:64-70 | the records are the first rows, each mapped positionally and in order; the read fails iff some row does not have 5 fields; the first such row sits right after the records, and the error is "Malformatted record: " plus that row rejoined with commas; with no error, every row gave a record |
| `FeedReader.ReadFeedIgnoresRest` | rfc8025_validator.py:64-67 | once the read has failed, appending rows changes nothing: no later row is read |
| `FeedReader.ReadFeedAppend` | rfc8025_validator.py:64-70 | after a clean read of some rows, reading on yields their records followed by those of the rows after them |
| `FeedReader.ReadGeolocationData` | rfc8025_validator.py:64-70 | the reader loop yields exactly the records and the error of `ReadFeed` |
| `Validator.AllRegions` | rfc8025_validator.py:99 | the union of all countries' region sets: a region is in it iff some country of the index has it |
| `Validator.Validate` | rfc8025_validator.py:84-102 | "Invalid prefix" iff the prefix is not a network, whatever the other fields are; "Wrong country code" iff the prefix is valid and a non-empty country is not a key; "Wrong region code" iff both pass and a non-empty region is neither in the country's set nor, with no country, in any country's set; no reason iff all three rules pass |
| `Validator.PrefixOnlyIsValid` | rfc8025_validator.py:89-102 | a valid prefix with empty country and empty region is always valid |
| `Validator.RegionFallback` | rfc8025_validator.py:95-101 | with no country given, a region owned by some country of the index is accepted, and it is also accepted with that owner as the country |
| `Validator.UsExamples` | rfc8025_validator.py:84-102 | on the index `{"US": {"CA","NY"}}`: US/CA valid, US/TX wrong region, ZZ wrong country, no country/CA valid, no country/ZZ-NONE wrong region |
| `Formatter.FormatIsJoin` | rfc8025_validator.py:120-124 | the line is the reason's message, ": ", then the five fields joined with commas |
| `Formatter.FormatIsRowText` | rfc8025_validator.py:120-124 | for a record read from a row, the line is the reason's message, ": ", then the row's fields rejoined with commas |
| `Formatter.InvalidPrefixExample` | rfc8025_validator.py:120-124 | ("Invalid prefix", bad,US,,X,00000) formats as exactly "Invalid prefix: bad,US,,X,00000" |
| `Formatter.FormatRoundTrip` | rfc8025_validator.py:120-124 | when no field holds a comma, parsing the line gives back the reason and the record |
| `Formatter.CommaMakesLinesAmbiguous` | rfc8025_validator.py:120-124 | with commas inside fields, two different records print the same line (the formatter escapes nothing) |
| `Driver.FailureLines` | rfc8025_validator.py:138-144 | keeps the rejected records in input order and formats each with its reason; at most one line per record |
| `Driver.FailureLinesEmpty` | rfc8025_validator.py:138-144 | no lines iff every record passes validation |
| `Driver.FailureLinesAppend` | rfc8025_validator.py:138-144 | the output for consecutive records is the output of each, in input order |
| `Driver.ReportExitCode` | rfc8025_validator.py:136-153 | the status is 0 or 1, and it is 0 iff every feed row has 5 fields and every record passes all three rules |
| `Driver.ReportStopsAtFatal` | rfc8025_validator.py:137-148 | after a malformed row, later rows change neither output nor status, and the status is 1 |
| `Driver.ReportOrder` | rfc8025_validator.py:138-143 | after a clean read of some rows, the output of later rows comes after the failure lines of those rows |
| `Driver.ParisExample` | rfc8025_validator.py:136-148 | index `{"FR": {"75"}}` and three rows: the output is exactly the wrong-region line of the second row, then the invalid-prefix line of the third, with status 1 |
| `Driver.ParisRegionLine` | rfc8025_validator.py:120-124 | the exact text of the wrong-region line in that example |
| `Driver.RunLoadFailure` | rfc8025_validator.py:133-134 | a reference row with fewer than 3 columns aborts the run before any record is validated: nothing printed, status 1 |
| `Driver.ProcessFeed` | rfc8025_validator.py:136-153 | the loop of `main` prints one formatted line per rejected record in order, then the read error if any, and sets the status to 1 iff it printed something |
| `Driver.Execute` | rfc8025_validator.py:127-153 | `main` loads the index, then processes the feed, with the result `Run` gives |

## Left out

- CSV parsing: `csv.reader` quoting and dialect rules belong to the library. Rows arrive already split, as `seq<seq<string>>`. `csv.Error` on malformed quoting is not modelled.
- Network parsing: `ipaddress.ip_network` is library code. Its verdict is the parameter `isNetwork`; no CIDR parser is written.
- I/O: opening the reference file and its default name, reading standard input, `print`, `sys.stdout.flush` and `sys.exit` are not modelled. Output is the returned line sequence; the status is an integer.
- Uncaught load error: when the reference table has a short row, the `IndexError` is not caught. Python then writes a traceback to standard error and exits with status 1. The model returns no lines and status 1; it does not distinguish this from the caught errors.
- Laziness: the reader is a generator pulled by `main`'s loop. The model reads all records first and then validates them. The output and its order are the same, because a read error comes after every record yielded before it.
