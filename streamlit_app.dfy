/** The selection rules of the dashboard: the schema check on load, the biome
    option list, the row filter, the top-N cut and the opacity buckets of
    the map. The widgets, the map and the quantile computation are not part
    of the model; their outputs are parameters. */
module Dashboard {
  import opened Wrappers
  import opened TextOrder

  /** One row of the metric table as the dashboard reads it. The label may
      be null in the file; the numeric columns are taken as present. */
  datatype HexRecord = HexRecord(h3: string, roadLengthKm: real, dominantBiome: Option<string>,
                                 biomeAreaPct: real, exposureScore: real)

  // ---------------------------------------------------------------------
  // Schema check
  // ---------------------------------------------------------------------

  const ExpectedColumns: set<string> := {"h3", "road_length_km", "dominant_biome", "biome_area_pct", "exposure_score"}

  /** The `ValueError` of the schema check, carrying the missing columns. */
  datatype SchemaError = MissingColumns(missing: set<string>)

  /** `load_hexes`: the table unchanged when every expected column is
      present, otherwise an error naming exactly the absent ones. */
  function LoadHexes(columns: set<string>, rows: seq<HexRecord>): (r: Result<seq<HexRecord>, SchemaError>)
    ensures r.Success? <==> ExpectedColumns <= columns
    ensures r.Success? ==> r.value == rows
    ensures r.Failure? ==> r.error.missing != {}
    ensures r.Failure? ==> forall c :: c in r.error.missing <==> c in ExpectedColumns && c !in columns
  {
    var missing := ExpectedColumns - columns;
    if missing != {} then Failure(MissingColumns(missing))
    else
      assert ExpectedColumns <= columns by {
        forall c | c in ExpectedColumns ensures c in columns {
          assert c !in missing;
        }
      }
      Success(rows)
  }

  // ---------------------------------------------------------------------
  // Biome options
  // ---------------------------------------------------------------------

  predicate StrictlySorted(s: seq<string>)
  {
    forall i, j :: 0 <= i < j < |s| ==> Less(s[i], s[j])
  }

  /** Inserts `x` into a strictly sorted list unless it is already there. */
  function InsertUnique(x: string, s: seq<string>): (r: seq<string>)
    requires StrictlySorted(s)
    ensures StrictlySorted(r)
    ensures forall y :: y in r <==> y == x || y in s
    decreases |s|
  {
    if s == [] then [x]
    else if x == s[0] then s
    else if Less(x, s[0]) then
      assert forall j :: 0 <= j < |s| ==> Less(x, s[j]) by {
        forall j | 0 < j < |s| ensures Less(x, s[j]) {
          LessTransitive(x, s[0], s[j]);
        }
      }
      [x] + s
    else
      LessTotal(x, s[0]);
      var tail := InsertUnique(x, s[1..]);
      assert forall y :: y in s <==> y == s[0] || y in s[1..] by {
        assert s == [s[0]] + s[1..];
      }
      assert forall j :: 0 <= j < |tail| ==> Less(s[0], tail[j]) by {
        forall j | 0 <= j < |tail| ensures Less(s[0], tail[j]) {
          assert tail[j] in tail;
          if tail[j] != x {
            var k :| 0 <= k < |s[1..]| && s[1..][k] == tail[j];
            assert s[k + 1] == tail[j];
          }
        }
      }
      [s[0]] + tail
  }

  /** The non-null labels of the rows, in row order (`dropna`): a label is
      listed iff some row carries it, and no more labels than rows. */
  function NonNullBiomes(rows: seq<HexRecord>): (bs: seq<string>)
    ensures |bs| <= |rows|
    ensures forall b :: b in bs <==> exists r :: r in rows && r.dominantBiome == Some(b)
  {
    if rows == [] then []
    else
      assert forall r :: r in rows <==> r == rows[0] || r in rows[1..];
      (if rows[0].dominantBiome.Some? then [rows[0].dominantBiome.value] else []) + NonNullBiomes(rows[1..])
  }

  /** `sorted(set(xs))`: the distinct values, ascending. */
  function SortedUnique(xs: seq<string>): (r: seq<string>)
    ensures StrictlySorted(r)
    ensures forall y :: y in r <==> y in xs
  {
    if xs == [] then []
    else
      assert forall y :: y in xs <==> y == xs[0] || y in xs[1..] by {
        assert xs == [xs[0]] + xs[1..];
      }
      InsertUnique(xs[0], SortedUnique(xs[1..]))
  }

  /** The biome option list: every non-null label of the table exactly once,
      in ascending order. */
  function BiomeOptions(rows: seq<HexRecord>): (opts: seq<string>)
    ensures StrictlySorted(opts)
    ensures forall b :: b in opts <==> exists r :: r in rows && r.dominantBiome == Some(b)
  {
    SortedUnique(NonNullBiomes(rows))
  }

  /** A strictly sorted list holds no value twice. */
  lemma StrictlySortedDistinct(s: seq<string>, i: nat, j: nat)
    requires StrictlySorted(s) && i < j < |s|
    ensures s[i] != s[j]
  {
    LessIrreflexive(s[i]);
  }

  // ---------------------------------------------------------------------
  // Row filter
  // ---------------------------------------------------------------------

  /** The three predicates of the filter mask. A null label is never among
      the selected ones. */
  predicate Passes(r: HexRecord, selected: seq<string>, minRoad: real, minExposure: real)
  {
    && r.dominantBiome.Some? && r.dominantBiome.value in selected
    && r.roadLengthKm >= minRoad
    && r.exposureScore >= minExposure
  }

  /** `a` is `b` with some rows left out, the rest in their order. */
  predicate IsSubsequence(a: seq<HexRecord>, b: seq<HexRecord>)
    decreases |b|
  {
    if a == [] then true
    else if b == [] then false
    else if a[0] == b[0] then IsSubsequence(a[1..], b[1..])
    else IsSubsequence(a, b[1..])
  }

  /** The boolean-mask filter: every row it keeps is a passing row of the
      table, and it keeps no more rows than the table has. */
  function FilterRows(rows: seq<HexRecord>, selected: seq<string>, minRoad: real, minExposure: real)
    : (kept: seq<HexRecord>)
    ensures |kept| <= |rows|
    ensures forall x :: x in kept ==> x in rows && Passes(x, selected, minRoad, minExposure)
  {
    if rows == [] then []
    else (if Passes(rows[0], selected, minRoad, minExposure) then [rows[0]] else [])
         + FilterRows(rows[1..], selected, minRoad, minExposure)
  }

  /** The filter keeps exactly the passing rows, each as often as it occurs,
      in table order. */
  lemma {:induction false} FilterRowsSpec(rows: seq<HexRecord>, selected: seq<string>, minRoad: real, minExposure: real)
    ensures forall x :: multiset(FilterRows(rows, selected, minRoad, minExposure))[x]
                        == if Passes(x, selected, minRoad, minExposure) then multiset(rows)[x] else 0
    ensures IsSubsequence(FilterRows(rows, selected, minRoad, minExposure), rows)
  {
    if rows != [] {
      FilterRowsSpec(rows[1..], selected, minRoad, minExposure);
      assert rows == [rows[0]] + rows[1..];
      var tail := FilterRows(rows[1..], selected, minRoad, minExposure);
      if Passes(rows[0], selected, minRoad, minExposure) {
        assert ([rows[0]] + tail)[1..] == tail;
        assert ([rows[0]] + tail)[0] == rows[0];
      } else {
        assert [] + tail == tail;
        SubsequenceSkip(tail, rows);
      }
    }
  }

  /** Dropping a row of `b` in front keeps `a` a subsequence. This lemma
      and the next one prove each other by induction on `b`. */
  lemma {:induction false} SubsequenceSkip(a: seq<HexRecord>, b: seq<HexRecord>)
    requires b != [] && IsSubsequence(a, b[1..])
    ensures IsSubsequence(a, b)
    decreases |b|, 0
  {
    if a != [] && a[0] == b[0] {
      SubsequenceDropHead(a, b[1..]);
    }
  }

  lemma {:induction false} SubsequenceDropHead(a: seq<HexRecord>, b: seq<HexRecord>)
    requires a != [] && IsSubsequence(a, b)
    ensures IsSubsequence(a[1..], b)
    decreases |b|, 1
  {
    assert b != [];
    if a[0] != b[0] {
      SubsequenceDropHead(a, b[1..]);
    }
    SubsequenceSkip(a[1..], b);
  }

  // ---------------------------------------------------------------------
  // Top N by exposure
  // ---------------------------------------------------------------------

  predicate SortedByScoreDesc(s: seq<HexRecord>)
  {
    forall i, j :: 0 <= i < j < |s| ==> s[i].exposureScore >= s[j].exposureScore
  }

  /** Inserts `x` after every row whose score is at least its own. */
  function InsertByScore(x: HexRecord, s: seq<HexRecord>): seq<HexRecord>
  {
    if s == [] then [x]
    else if s[0].exposureScore >= x.exposureScore then [s[0]] + InsertByScore(x, s[1..])
    else [x] + s
  }

  lemma {:induction false} InsertByScoreMultiset(x: HexRecord, s: seq<HexRecord>)
    ensures multiset(InsertByScore(x, s)) == multiset(s) + multiset{x}
  {
    if s != [] {
      assert s == [s[0]] + s[1..];
      if s[0].exposureScore >= x.exposureScore {
        InsertByScoreMultiset(x, s[1..]);
      }
    }
  }

  /** A bound holding for `x` and for every row of `s` holds for every row
      of the result. */
  lemma {:induction false} InsertByScoreBound(x: HexRecord, s: seq<HexRecord>, bound: real)
    requires x.exposureScore <= bound
    requires forall i :: 0 <= i < |s| ==> s[i].exposureScore <= bound
    ensures forall i :: 0 <= i < |InsertByScore(x, s)| ==> InsertByScore(x, s)[i].exposureScore <= bound
  {
    if s != [] && s[0].exposureScore >= x.exposureScore {
      InsertByScoreBound(x, s[1..], bound);
    }
  }

  lemma {:induction false} InsertByScoreSorted(x: HexRecord, s: seq<HexRecord>)
    requires SortedByScoreDesc(s)
    ensures SortedByScoreDesc(InsertByScore(x, s))
  {
    if s != [] && s[0].exposureScore >= x.exposureScore {
      var tail := InsertByScore(x, s[1..]);
      InsertByScoreSorted(x, s[1..]);
      InsertByScoreBound(x, s[1..], s[0].exposureScore);
      var r := [s[0]] + tail;
      forall i, j | 0 <= i < j < |r| ensures r[i].exposureScore >= r[j].exposureScore {
        if i > 0 {
          assert r[i] == tail[i - 1] && r[j] == tail[j - 1];
        } else {
          assert r[j] == tail[j - 1];
        }
      }
    }
  }

  /** A sort by descending score (insertion puts a row after all rows of
      equal score). */
  function SortByScoreDesc(rows: seq<HexRecord>): (r: seq<HexRecord>)
    ensures |r| == |rows|
    ensures SortedByScoreDesc(r)
    ensures multiset(r) == multiset(rows)
    decreases |rows|
  {
    if rows == [] then []
    else
      var init := rows[..|rows| - 1];
      var last := rows[|rows| - 1];
      assert rows == init + [last];
      var sortedInit := SortByScoreDesc(init);
      InsertByScoreMultiset(last, sortedInit);
      InsertByScoreSorted(last, sortedInit);
      assert |InsertByScore(last, sortedInit)| == |multiset(InsertByScore(last, sortedInit))|;
      InsertByScore(last, sortedInit)
  }

  /** `nlargest(n, "exposure_score")`: `n` rows of the table in descending
      score, none of them outscored by a row left out. */
  function NLargest(rows: seq<HexRecord>, n: nat): (top: seq<HexRecord>)
    requires n <= |rows|
    ensures |top| == n
    ensures SortedByScoreDesc(top)
    ensures multiset(top) <= multiset(rows)
    ensures forall x, y :: x in multiset(top) && y in multiset(rows) - multiset(top) ==>
              x.exposureScore >= y.exposureScore
  {
    var sorted := SortByScoreDesc(rows);
    SplitSorted(sorted, n);
    sorted[..n]
  }

  /** Cutting a descending list: the front part is what remains of the whole
      after the back part is removed, and scores no lower than it. */
  lemma SplitSorted(s: seq<HexRecord>, n: nat)
    requires SortedByScoreDesc(s) && n <= |s|
    ensures multiset(s[..n]) <= multiset(s)
    ensures multiset(s) - multiset(s[..n]) == multiset(s[n..])
    ensures forall x, y :: x in s[..n] && y in s[n..] ==> x.exposureScore >= y.exposureScore
  {
    assert s == s[..n] + s[n..];
    forall x, y | x in s[..n] && y in s[n..] ensures x.exposureScore >= y.exposureScore {
      var i :| 0 <= i < n && s[..n][i] == x;
      var j :| 0 <= j < |s| - n && s[n..][j] == y;
      assert s[i] == x && s[n + j] == y;
    }
  }

  /** The top-N rule: with `topN > 0` and more rows than that, exactly `topN`
      rows are kept, drawn from the filtered rows, and none of the dropped
      rows scores higher than a kept one; otherwise nothing changes. */
  function TopN(filtered: seq<HexRecord>, topN: int): (out: seq<HexRecord>)
    ensures topN > 0 && |filtered| > topN ==> |out| == topN
    ensures !(topN > 0 && |filtered| > topN) ==> out == filtered
    ensures multiset(out) <= multiset(filtered)
    ensures forall x, y :: x in multiset(out) && y in multiset(filtered) - multiset(out) ==>
              x.exposureScore >= y.exposureScore
  {
    if topN > 0 && |filtered| > topN then
      NLargest(filtered, topN)
    else
      filtered
  }

  /** The rows shown: filter, then top N. They are rows of the table that
      pass all three predicates, and no row is shown more often than the
      table holds it. */
  function ShownRows(hexes: seq<HexRecord>, selected: seq<string>, minRoad: real, minExposure: real, topN: int)
    : (out: seq<HexRecord>)
    ensures multiset(out) <= multiset(hexes)
    ensures forall x :: x in out ==> Passes(x, selected, minRoad, minExposure)
  {
    var filtered := FilterRows(hexes, selected, minRoad, minExposure);
    var out := TopN(filtered, topN);
    ShownRowsFacts(hexes, filtered, out, selected, minRoad, minExposure);
    out
  }

  lemma ShownRowsFacts(hexes: seq<HexRecord>, filtered: seq<HexRecord>, out: seq<HexRecord>,
                       selected: seq<string>, minRoad: real, minExposure: real)
    requires filtered == FilterRows(hexes, selected, minRoad, minExposure)
    requires multiset(out) <= multiset(filtered)
    ensures multiset(out) <= multiset(hexes)
    ensures forall x :: x in out ==> Passes(x, selected, minRoad, minExposure)
  {
    FilterRowsSpec(hexes, selected, minRoad, minExposure);
    forall x ensures multiset(out)[x] <= multiset(hexes)[x] {
      assert multiset(out)[x] <= multiset(filtered)[x];
    }
    forall x | x in out ensures Passes(x, selected, minRoad, minExposure) {
      assert multiset(out)[x] > 0;
      assert multiset(out)[x] <= multiset(filtered)[x];
    }
  }

  /** With the default widget values (every option selected, both minimums
      0) and non-negative metrics, the filter keeps exactly the rows with a
      non-null label. */
  lemma DefaultFilterKeepsLabelledRows(hexes: seq<HexRecord>)
    requires forall r :: r in hexes ==> r.roadLengthKm >= 0.0 && r.exposureScore >= 0.0
    ensures forall x :: multiset(FilterRows(hexes, BiomeOptions(hexes), 0.0, 0.0))[x]
                        == if x.dominantBiome.Some? then multiset(hexes)[x] else 0
  {
    FilterRowsSpec(hexes, BiomeOptions(hexes), 0.0, 0.0);
    forall x: HexRecord | x.dominantBiome.Some? && x in hexes
      ensures Passes(x, BiomeOptions(hexes), 0.0, 0.0)
    {
    }
  }

  // ---------------------------------------------------------------------
  // Map styling
  // ---------------------------------------------------------------------

  datatype Style = Style(weight: real, fillOpacity: real)

  /** The five buckets, from lowest to highest scores. */
  const Styles: seq<Style> := [Style(0.3, 0.15), Style(0.3, 0.30), Style(0.4, 0.45), Style(0.5, 0.60), Style(0.6, 0.75)]

  /** `feat["properties"].get("exposure_score", 0.0) or 0.0`: a missing or
      null value reads as 0. */
  function ScoreOf(properties: map<string, Option<real>>): (v: real)
    ensures "exposure_score" in properties && properties["exposure_score"].Some? ==>
              v == properties["exposure_score"].value
    ensures !("exposure_score" in properties && properties["exposure_score"].Some?) ==> v == 0.0
  {
    if "exposure_score" in properties then
      match properties["exposure_score"]
      case Some(x) => x
      case None => 0.0
    else 0.0
  }

  /** The first bucket whose threshold is at least `v`, or the last bucket. */
  function Bucket(v: real, q: seq<real>): (b: nat)
    requires |q| == 4
    ensures b < |Styles|
    ensures b < 4 ==> v <= q[b]
    ensures forall j :: 0 <= j < b && j < 4 ==> v > q[j]
  {
    if v <= q[0] then 0
    else if v <= q[1] then 1
    else if v <= q[2] then 2
    else if v <= q[3] then 3
    else 4
  }

  /** `style_fn`: the fill opacity steps by 0.15 from one bucket to the
      next, the line weight stays between 0.3 and 0.6, a score above every
      threshold gets the strongest style and one at or below the first
      threshold the faintest. */
  function StyleFn(properties: map<string, Option<real>>, q: seq<real>): (st: Style)
    requires |q| == 4
    ensures st.fillOpacity == 0.15 * (Bucket(ScoreOf(properties), q) as real + 1.0)
    ensures 0.3 <= st.weight <= 0.6
    ensures (forall j :: 0 <= j < 4 ==> ScoreOf(properties) > q[j]) ==> st == Style(0.6, 0.75)
    ensures ScoreOf(properties) <= q[0] ==> st == Style(0.3, 0.15)
  {
    Styles[Bucket(ScoreOf(properties), q)]
  }

  predicate Ascending(q: seq<real>)
  {
    forall i, j :: 0 <= i < j < |q| ==> q[i] <= q[j]
  }

  /** With ascending thresholds, a higher score never gets a lower bucket. */
  lemma BucketMonotone(v1: real, v2: real, q: seq<real>)
    requires |q| == 4 && Ascending(q) && v1 <= v2
    ensures Bucket(v1, q) <= Bucket(v2, q)
  {
  }

  /** With ascending thresholds, opacity and line weight never decrease as
      the score grows. */
  lemma StyleMonotone(p1: map<string, Option<real>>, p2: map<string, Option<real>>, q: seq<real>)
    requires |q| == 4 && Ascending(q) && ScoreOf(p1) <= ScoreOf(p2)
    ensures StyleFn(p1, q).fillOpacity <= StyleFn(p2, q).fillOpacity
    ensures StyleFn(p1, q).weight <= StyleFn(p2, q).weight
  {
    BucketMonotone(ScoreOf(p1), ScoreOf(p2), q);
  }

  /** A feature without a score, or with a null score, is styled like a
      feature scoring 0. */
  lemma MissingScoreStyledAsZero(p: map<string, Option<real>>, q: seq<real>)
    requires |q| == 4
    requires "exposure_score" !in p || p["exposure_score"] == None
    ensures StyleFn(p, q) == StyleFn(map["exposure_score" := Some(0.0)], q)
  {
  }
}
