/**
 The entities of a self-published geolocation feed (the five-column entry of
 section 2.1.1 of RFC 8805): one record per IP prefix, and the reasons a
 record can be rejected for.
 */
module Geofeed {

  /** One feed entry: the prefix, ISO 3166-1 alpha-2 country, ISO 3166-2 region, city and postal code. */
  datatype GeoRecord = GeoRecord(prefix: string, country: string, region: string, city: string, zip: string)

  /** The record's fields in column order. */
  function Fields(rec: GeoRecord): (fields: seq<string>)
    ensures |fields| == 5
  {
    [rec.prefix, rec.country, rec.region, rec.city, rec.zip]
  }

  /** A five-field row mapped positionally onto a record; field values are kept verbatim. */
  function FromFields(row: seq<string>): (rec: GeoRecord)
    requires |row| == 5
    ensures Fields(rec) == row
  {
    GeoRecord(row[0], row[1], row[2], row[3], row[4])
  }

  /** The three validation failures, each raised with a fixed message. */
  datatype Reason = InvalidPrefix | WrongCountryCode | WrongRegionCode

  /** The text of the error raised for a reason. */
  function Message(reason: Reason): string
  {
    match reason
    case InvalidPrefix => "Invalid prefix"
    case WrongCountryCode => "Wrong country code"
    case WrongRegionCode => "Wrong region code"
  }
}
