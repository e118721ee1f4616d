/**
 The reference index loader: folds the rows of the ISO 3166-2 reference table
 into a map from country code to the set of its region codes, taking column 0
 as the country and column 2 as the region of every row.
 */
module ReferenceIndex {
  import opened Wrappers

  /** Country code to the set of region codes valid within that country. */
  type Index = map<string, set<string>>

  /** True when every row has the columns 0 and 2 the loader reads. */
  predicate WellFormed(rows: seq<seq<string>>)
  {
    forall i | 0 <= i < |rows| :: |rows[i]| >= 3
  }

  /** `records.setdefault(country, set()).add(region)`. */
  function AddPair(idx: Index, country: string, region: string): (r: Index)
    ensures r.Keys == idx.Keys + {country}
    ensures r[country] == (if country in idx then idx[country] else {}) + {region}
    ensures forall c | c in idx && c != country :: r[c] == idx[c]
  {
    idx[country := (if country in idx then idx[country] else {}) + {region}]
  }

  /** The loop's result after all rows: no index at all once any row is too short. */
  function BuildIndex(rows: seq<seq<string>>): Option<Index>
  {
    if |rows| == 0 then Some(map[])
    else
      var row := rows[|rows| - 1];
      match BuildIndex(rows[..|rows| - 1])
      case None => None
      case Some(idx) => if |row| < 3 then None else Some(AddPair(idx, row[0], row[2]))
  }

  /** The (country, region) pairs the rows contribute. */
  function Pairs(rows: seq<seq<string>>): set<(string, string)>
  {
    set i | 0 <= i < |rows| && |rows[i]| >= 3 :: (rows[i][0], rows[i][2])
  }

  /** The countries the pairs mention. */
  function CountriesOf(pairs: set<(string, string)>): set<string>
  {
    set p | p in pairs :: p.0
  }

  /** The regions the pairs give a country. */
  function RegionsOf(pairs: set<(string, string)>, c: string): set<string>
  {
    set p | p in pairs && p.0 == c :: p.1
  }

  /** The index determined by a set of pairs alone: a reference definition independent of row order. */
  function IndexOfPairs(pairs: set<(string, string)>): Index
  {
    map c | c in CountriesOf(pairs) :: RegionsOf(pairs, c)
  }

  /** A country is a key iff some pair names it, and a region is in its set iff that pair occurs. */
  lemma IndexOfPairsMembership(pairs: set<(string, string)>, c: string, rg: string)
    ensures c in IndexOfPairs(pairs) <==> exists x :: (c, x) in pairs
    ensures c in IndexOfPairs(pairs) ==> (rg in IndexOfPairs(pairs)[c] <==> (c, rg) in pairs)
  {
  }

  /** Pairs of rows extended by one well-formed row. */
  lemma PairsSnoc(rows: seq<seq<string>>, row: seq<string>)
    requires |row| >= 3
    ensures Pairs(rows + [row]) == Pairs(rows) + {(row[0], row[2])}
  {
    var s := rows + [row];
    forall p | p in Pairs(s) ensures p in Pairs(rows) + {(row[0], row[2])} {
      var i :| 0 <= i < |s| && |s[i]| >= 3 && p == (s[i][0], s[i][2]);
      if i < |rows| { assert s[i] == rows[i]; }
    }
    forall p | p in Pairs(rows) ensures p in Pairs(s) {
      var i :| 0 <= i < |rows| && |rows[i]| >= 3 && p == (rows[i][0], rows[i][2]);
      assert s[i] == rows[i];
    }
    assert s[|rows|] == row;
  }

  /** One more pair adds its country. */
  lemma CountriesOfAdd(pairs: set<(string, string)>, c: string, rg: string)
    ensures CountriesOf(pairs + {(c, rg)}) == CountriesOf(pairs) + {c}
  {
  }

  /** One more pair adds its region to its own country only. */
  lemma RegionsOfAdd(pairs: set<(string, string)>, c: string, rg: string, k: string)
    ensures RegionsOf(pairs + {(c, rg)}, k) == RegionsOf(pairs, k) + (if k == c then {rg} else {})
  {
  }

  /** Adding one pair to the pair set is one `setdefault(...).add(...)` step. */
  lemma IndexOfPairsAdd(pairs: set<(string, string)>, c: string, rg: string)
    ensures IndexOfPairs(pairs + {(c, rg)}) == AddPair(IndexOfPairs(pairs), c, rg)
  {
    var before := IndexOfPairs(pairs);
    var l := IndexOfPairs(pairs + {(c, rg)});
    var r := AddPair(before, c, rg);
    CountriesOfAdd(pairs, c, rg);
    assert l.Keys == CountriesOf(pairs + {(c, rg)});
    assert before.Keys == CountriesOf(pairs);
    forall k | k in l ensures l[k] == r[k] {
      RegionsOfAdd(pairs, c, rg, k);
      assert l[k] == RegionsOf(pairs + {(c, rg)}, k);
      if k in before {
        assert before[k] == RegionsOf(pairs, k);
      } else {
        assert RegionsOf(pairs, k) == {};
      }
    }
  }

  /** A well-formed table loads, and its index is the one its pairs determine. */
  lemma {:induction false} BuildIndexContents(rows: seq<seq<string>>)
    requires WellFormed(rows)
    ensures BuildIndex(rows) == Some(IndexOfPairs(Pairs(rows)))
  {
    if |rows| == 0 {
      assert Pairs(rows) == {};
      assert IndexOfPairs({}) == map[];
    } else {
      var init, row := rows[..|rows| - 1], rows[|rows| - 1];
      assert WellFormed(init) by {
        forall i | 0 <= i < |init| ensures |init[i]| >= 3 { assert init[i] == rows[i]; }
      }
      BuildIndexContents(init);
      var idx := IndexOfPairs(Pairs(init));
      assert BuildIndex(rows) == Some(AddPair(idx, row[0], row[2]));
      assert Pairs(rows) == Pairs(init) + {(row[0], row[2])} by {
        assert rows == init + [row];
        PairsSnoc(init, row);
      }
      IndexOfPairsAdd(Pairs(init), row[0], row[2]);
    }
  }

  /** The load fails exactly when some row lacks column 2; there is no partial index. */
  lemma {:induction false} BuildIndexFails(rows: seq<seq<string>>)
    ensures BuildIndex(rows).None? <==> exists i | 0 <= i < |rows| :: |rows[i]| < 3
  {
    if |rows| > 0 {
      var init := rows[..|rows| - 1];
      BuildIndexFails(init);
      if exists i | 0 <= i < |init| :: |init[i]| < 3 {
        var i :| 0 <= i < |init| && |init[i]| < 3;
        assert rows[i] == init[i];
      }
      if exists i | 0 <= i < |rows| :: |rows[i]| < 3 {
        var i :| 0 <= i < |rows| && |rows[i]| < 3;
        if i < |init| { assert init[i] == rows[i]; }
      }
    }
  }

  /**
   The index in terms of the table: the keys are exactly the countries that
   occur in column 0, and a country's set is exactly the column-2 values of
   its rows.
   */
  lemma IndexMembership(rows: seq<seq<string>>, c: string, rg: string)
    requires WellFormed(rows)
    ensures BuildIndex(rows).Some?
    ensures c in BuildIndex(rows).value <==> exists i | 0 <= i < |rows| :: rows[i][0] == c
    ensures c in BuildIndex(rows).value ==>
      (rg in BuildIndex(rows).value[c] <==> exists i | 0 <= i < |rows| :: rows[i][0] == c && rows[i][2] == rg)
  {
    BuildIndexContents(rows);
    IndexOfPairsMembership(Pairs(rows), c, rg);
    var idx := BuildIndex(rows).value;
    if c in idx {
      var x :| (c, x) in Pairs(rows);
      var i :| 0 <= i < |rows| && |rows[i]| >= 3 && (c, x) == (rows[i][0], rows[i][2]);
      if rg in idx[c] {
        var j :| 0 <= j < |rows| && |rows[j]| >= 3 && (c, rg) == (rows[j][0], rows[j][2]);
      }
      if exists j | 0 <= j < |rows| :: rows[j][0] == c && rows[j][2] == rg {
        var j :| 0 <= j < |rows| && rows[j][0] == c && rows[j][2] == rg;
        assert (rows[j][0], rows[j][2]) in Pairs(rows);
      }
    }
    if exists i | 0 <= i < |rows| :: rows[i][0] == c {
      var i :| 0 <= i < |rows| && rows[i][0] == c;
      assert (rows[i][0], rows[i][2]) in Pairs(rows);
    }
  }

  /** Reordering the table, or repeating its rows any number of times, leaves the result unchanged. */
  lemma BuildIndexSameRows(rows1: seq<seq<string>>, rows2: seq<seq<string>>)
    requires forall row | row in rows1 :: row in rows2
    requires forall row | row in rows2 :: row in rows1
    ensures BuildIndex(rows1) == BuildIndex(rows2)
  {
    BuildIndexFails(rows1);
    BuildIndexFails(rows2);
    if WellFormed(rows1) {
      assert WellFormed(rows2) by {
        forall j | 0 <= j < |rows2| ensures |rows2[j]| >= 3 {
          assert rows2[j] in rows2;
          var i :| 0 <= i < |rows1| && rows1[i] == rows2[j];
        }
      }
      BuildIndexContents(rows1);
      BuildIndexContents(rows2);
      forall p | p in Pairs(rows1) ensures p in Pairs(rows2) {
        var i :| 0 <= i < |rows1| && |rows1[i]| >= 3 && p == (rows1[i][0], rows1[i][2]);
        assert rows1[i] in rows1;
        var j :| 0 <= j < |rows2| && rows2[j] == rows1[i];
      }
      forall p | p in Pairs(rows2) ensures p in Pairs(rows1) {
        var j :| 0 <= j < |rows2| && |rows2[j]| >= 3 && p == (rows2[j][0], rows2[j][2]);
        assert rows2[j] in rows2;
        var i :| 0 <= i < |rows1| && rows1[i] == rows2[j];
      }
      assert Pairs(rows1) == Pairs(rows2);
    } else {
      var i :| 0 <= i < |rows1| && |rows1[i]| < 3;
      assert rows1[i] in rows1;
      var j :| 0 <= j < |rows2| && rows2[j] == rows1[i];
    }
  }

  /** A permutation of the table loads to the same index. */
  lemma BuildIndexPermutation(rows1: seq<seq<string>>, rows2: seq<seq<string>>)
    requires multiset(rows1) == multiset(rows2)
    ensures BuildIndex(rows1) == BuildIndex(rows2)
  {
    forall row | row in rows1 ensures row in rows2 {
      assert row in multiset(rows1);
    }
    forall row | row in rows2 ensures row in rows1 {
      assert row in multiset(rows2);
    }
    BuildIndexSameRows(rows1, rows2);
  }

  /** A repeated row adds nothing. */
  lemma BuildIndexDuplicate(rows: seq<seq<string>>, k: nat)
    requires k < |rows|
    ensures BuildIndex(rows + [rows[k]]) == BuildIndex(rows)
  {
    var s := rows + [rows[k]];
    forall row | row in s ensures row in rows {
      var i :| 0 <= i < |s| && s[i] == row;
      if i < |rows| { assert s[i] == rows[i]; }
    }
    forall row | row in rows ensures row in s {
      var i :| 0 <= i < |rows| && rows[i] == row;
      assert s[i] == rows[i];
    }
    BuildIndexSameRows(s, rows);
  }

  /** `read_ip2location_data`: one pass over the table with a map accumulator. */
  method ReadIp2LocationData(rows: seq<seq<string>>) returns (r: Option<Index>)
    ensures r == BuildIndex(rows)
  {
    var records: Index := map[];
    var i := 0;
    while i < |rows|
      invariant 0 <= i <= |rows|
      invariant BuildIndex(rows[..i]) == Some(records)
    {
      var row := rows[i];
      assert rows[..i + 1][..i] == rows[..i];
      if |row| < 3 {
        // `row[2]` raises and the half-built dictionary is discarded.
        assert rows[..i + 1][i] == row;
        BuildIndexFails(rows);
        return None;
      }
      records := AddPair(records, row[0], row[2]);
      i := i + 1;
    }
    assert rows[..i] == rows;
    r := Some(records);
  }
}
