/**
 The validator: three rules applied in order to one record against the
 reference index, stopping at the first that fails. Whether a prefix is a
 valid IPv4 or IPv6 network is decided by `isNetwork`, which stands for the
 network parser the rules rely on.
 */
module Validator {
  import opened Wrappers
  import opened Geofeed
  import opened ReferenceIndex

  /** Every region code of every country: the fallback when no country is given. */
  function AllRegions(idx: Index): (regions: set<string>)
    ensures forall rg :: rg in regions <==> exists c :: c in idx && rg in idx[c]
  {
    set c, rg | c in idx && rg in idx[c] :: rg
  }

  /** Rule 2 passes: the country is unspecified, or it is a key of the index. */
  predicate CountryKnown(rec: GeoRecord, idx: Index)
  {
    rec.country == "" || rec.country in idx
  }

  /**
   Rule 3 passes: the region is unspecified, or it belongs to the given
   country, or, with no country given, to some country of the index.
   */
  predicate RegionKnown(rec: GeoRecord, idx: Index)
  {
    || rec.region == ""
    || (rec.country != "" && rec.country in idx && rec.region in idx[rec.country])
    || (rec.country == "" && exists c :: c in idx && rec.region in idx[c])
  }

  /** `validate`: the reason of the first rule the record fails, or None when it passes all three. */
  function Validate(rec: GeoRecord, idx: Index, isNetwork: string -> bool): (r: Option<Reason>)
    ensures r == Some(InvalidPrefix) <==> !isNetwork(rec.prefix)
    ensures r == Some(WrongCountryCode) <==> isNetwork(rec.prefix) && !CountryKnown(rec, idx)
    ensures r == Some(WrongRegionCode) <==>
      isNetwork(rec.prefix) && CountryKnown(rec, idx) && !RegionKnown(rec, idx)
    ensures r == None <==> isNetwork(rec.prefix) && CountryKnown(rec, idx) && RegionKnown(rec, idx)
  {
    if !isNetwork(rec.prefix) then Some(InvalidPrefix)
    else if rec.country != "" && rec.country !in idx then Some(WrongCountryCode)
    else if rec.region != "" then
      // The country rule has already made `idx[rec.country]` a valid lookup.
      var regions := if rec.country != "" then idx[rec.country] else AllRegions(idx);
      if rec.region !in regions then Some(WrongRegionCode) else None
    else None
  }

  /** A valid prefix with neither country nor region is always valid. */
  lemma PrefixOnlyIsValid(rec: GeoRecord, idx: Index, isNetwork: string -> bool)
    requires isNetwork(rec.prefix) && rec.country == "" && rec.region == ""
    ensures Validate(rec, idx, isNetwork) == None
  {
  }

  /**
   The fallback: with no country given, a region of any one
   country passes, even when another country would not accept it.
   */
  lemma RegionFallback(rec: GeoRecord, idx: Index, isNetwork: string -> bool, owner: string)
    requires isNetwork(rec.prefix) && rec.country == ""
    requires owner in idx && rec.region in idx[owner]
    ensures Validate(rec, idx, isNetwork) == None
    ensures Validate(rec.(country := owner), idx, isNetwork) == None
  {
  }

  /** The rules in action on the index `{"US": {"CA", "NY"}}`. */
  lemma UsExamples(isNetwork: string -> bool, p: string)
    requires isNetwork(p)
    ensures var idx: Index := map["US" := {"CA", "NY"}];
      && Validate(GeoRecord(p, "US", "CA", "", ""), idx, isNetwork) == None
      && Validate(GeoRecord(p, "US", "TX", "", ""), idx, isNetwork) == Some(WrongRegionCode)
      && Validate(GeoRecord(p, "ZZ", "CA", "", ""), idx, isNetwork) == Some(WrongCountryCode)
      && Validate(GeoRecord(p, "", "CA", "", ""), idx, isNetwork) == None
      && Validate(GeoRecord(p, "", "ZZ-NONE", "", ""), idx, isNetwork) == Some(WrongRegionCode)
  {
    var idx: Index := map["US" := {"CA", "NY"}];
    assert "US" in idx && "CA" in idx["US"];
    assert forall c | c in idx :: c == "US";
  }
}
