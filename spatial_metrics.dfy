/** The metric pipeline of the exposure project: clipped road segments and
    clipped biome fragments, already intersected with the hexagon grid and
    measured in a metric coordinate system, are aggregated into one record
    per hexagon (road length, dominant biome, its area share, and the
    exposure score).

    The overlay, the length and area computations and the reprojection are
    done by the geometry libraries; their results arrive here as values. */
module SpatialMetrics {
  import opened Wrappers
  import opened TextOrder

  /** An H3 cell index, as the string stored in the `h3` column. */
  type CellId = string

  // ---------------------------------------------------------------------
  // Choosing the biome label column
  // ---------------------------------------------------------------------

  /** The accepted names of the biome label column, in priority order. */
  const BiomeNameAliases: seq<string> := ["BIOMA", "Bioma", "NOME", "NOME_BIO", "BIO_NOME", "NM_BIOMA"]

  const NoBiomeColumn: string := "No biome name column found in biomes layer."

  /** The first alias, in priority order, that names a column of the biome
      layer; a `ValueError` when none does. */
  method PickBiomeNameCol(columns: seq<string>) returns (r: Result<string, string>)
    ensures r.Success? <==> exists a :: a in BiomeNameAliases && a in columns
    ensures r.Success? ==>
              exists i :: 0 <= i < |BiomeNameAliases| && BiomeNameAliases[i] == r.value && r.value in columns &&
                          forall j :: 0 <= j < i ==> BiomeNameAliases[j] !in columns
    ensures r.Failure? ==> r.error == NoBiomeColumn
  {
    for i := 0 to |BiomeNameAliases|
      invariant forall j :: 0 <= j < i ==> BiomeNameAliases[j] !in columns
    {
      var c := BiomeNameAliases[i];
      if c in columns {
        return Success(c);
      }
    }
    return Failure(NoBiomeColumn);
  }

  // ---------------------------------------------------------------------
  // Road length per cell
  // ---------------------------------------------------------------------

  /** One road piece produced by intersecting the road layer with the grid:
      the cell it lies in and its length in metres. */
  datatype Segment = Segment(h3: CellId, lengthM: real)

  function SegmentCells(segs: seq<Segment>): set<CellId>
  {
    set s | s in segs :: s.h3
  }

  /** Reference definition: total length, in metres, of the segments in `c`. */
  function CellLengthM(segs: seq<Segment>, c: CellId): real
  {
    if segs == [] then 0.0
    else (if segs[0].h3 == c then segs[0].lengthM else 0.0) + CellLengthM(segs[1..], c)
  }

  lemma {:induction false} CellLengthMAbsent(segs: seq<Segment>, c: CellId)
    requires c !in SegmentCells(segs)
    ensures CellLengthM(segs, c) == 0.0
  {
    if segs != [] {
      assert SegmentCells(segs[1..]) <= SegmentCells(segs) by {
        forall s | s in segs[1..] ensures s in segs { }
      }
      CellLengthMAbsent(segs[1..], c);
    }
  }

  lemma {:induction false} CellLengthMNonNegative(segs: seq<Segment>, c: CellId)
    requires forall s :: s in segs ==> s.lengthM >= 0.0
    ensures CellLengthM(segs, c) >= 0.0
  {
    if segs != [] {
      assert segs[0] in segs;
      CellLengthMNonNegative(segs[1..], c);
    }
  }

  /** The `seg_len_km` column: a segment's length in kilometres. */
  function SegLenKm(s: Segment): (km: real)
    ensures km * 1000.0 == s.lengthM
    ensures s.lengthM >= 0.0 ==> km >= 0.0
  {
    s.lengthM / 1000.0
  }

  /** `groupby("h3")["seg_len_km"].sum()`: an entry for exactly the cells
      that hold a segment, holding their total length in kilometres. */
  function RoadLengthKm(segs: seq<Segment>): (m: map<CellId, real>)
    ensures m.Keys == SegmentCells(segs)
    ensures forall c :: c in m ==> m[c] == CellLengthM(segs, c) / 1000.0
    decreases |segs|
  {
    if segs == [] then map[]
    else
      var m0 := RoadLengthKm(segs[1..]);
      var s := segs[0];
      assert SegmentCells(segs) == SegmentCells(segs[1..]) + {s.h3} by {
        assert forall t :: t in segs <==> t == s || t in segs[1..];
      }
      if s.h3 in m0 then m0[s.h3 := m0[s.h3] + SegLenKm(s)]
      else
        CellLengthMAbsent(segs[1..], s.h3);
        m0[s.h3 := SegLenKm(s)]
  }

  // ---------------------------------------------------------------------
  // Biome area per (cell, biome)
  // ---------------------------------------------------------------------

  /** One biome piece produced by intersecting the biome layer with the grid:
      its cell, its value in the chosen biome label column (`None` when the
      value is null; see `LabelPieces`) and its area in square metres. */
  datatype Fragment = Fragment(h3: CellId, biome: Option<string>, areaM2: real)

  /** A group key of the biome aggregation: (cell, biome). */
  type PairKey = (CellId, string)

  /** The order pandas sorts group keys in: by cell, then by biome. */
  predicate KeyLess(a: PairKey, b: PairKey)
  {
    Less(a.0, b.0) || (a.0 == b.0 && Less(a.1, b.1))
  }

  lemma KeyLessIrreflexive(a: PairKey)
    ensures !KeyLess(a, a)
  {
    LessIrreflexive(a.0);
    LessIrreflexive(a.1);
  }

  lemma KeyLessTransitive(a: PairKey, b: PairKey, c: PairKey)
    requires KeyLess(a, b) && KeyLess(b, c)
    ensures KeyLess(a, c)
  {
    if Less(a.0, b.0) && Less(b.0, c.0) {
      LessTransitive(a.0, b.0, c.0);
    } else if a.0 == b.0 && b.0 == c.0 {
      LessTransitive(a.1, b.1, c.1);
    }
  }

  lemma KeyLessTotal(a: PairKey, b: PairKey)
    requires a != b
    ensures KeyLess(a, b) || KeyLess(b, a)
  {
    if a.0 != b.0 {
      LessTotal(a.0, b.0);
    } else {
      LessTotal(a.1, b.1);
    }
  }

  /** The (cell, biome) pairs of the fragments whose biome is not null. */
  function LabelledPairs(frags: seq<Fragment>): set<PairKey>
  {
    set f | f in frags && f.biome.Some? :: (f.h3, f.biome.value)
  }

  /** The cells that hold at least one fragment with a non-null biome. */
  function LabelledCells(frags: seq<Fragment>): set<CellId>
  {
    set f | f in frags && f.biome.Some? :: f.h3
  }

  /** Reference definition: total area of the fragments of biome `k.1` in cell `k.0`. */
  function PairAreaM2(frags: seq<Fragment>, k: PairKey): real
  {
    if frags == [] then 0.0
    else (if frags[0].h3 == k.0 && frags[0].biome == Some(k.1) then frags[0].areaM2 else 0.0)
         + PairAreaM2(frags[1..], k)
  }

  /** One row of the grouped biome areas. */
  datatype AreaSum = AreaSum(h3: CellId, biome: string, areaM2: real)

  function KeyOf(r: AreaSum): PairKey
  {
    (r.h3, r.biome)
  }

  function RowKeys(rows: seq<AreaSum>): set<PairKey>
  {
    set r | r in rows :: KeyOf(r)
  }

  /** Rows strictly ascending by key, hence one row per key. */
  predicate KeySorted(rows: seq<AreaSum>)
  {
    forall i, j :: 0 <= i < j < |rows| ==> KeyLess(KeyOf(rows[i]), KeyOf(rows[j]))
  }

  /** Total area the rows record for key `k`. */
  function RowsAreaM2(rows: seq<AreaSum>, k: PairKey): real
  {
    if rows == [] then 0.0
    else (if KeyOf(rows[0]) == k then rows[0].areaM2 else 0.0) + RowsAreaM2(rows[1..], k)
  }

  lemma {:induction false} RowsAreaM2Absent(rows: seq<AreaSum>, k: PairKey)
    requires k !in RowKeys(rows)
    ensures RowsAreaM2(rows, k) == 0.0
  {
    if rows != [] {
      assert rows[0] in rows;
      assert RowKeys(rows[1..]) <= RowKeys(rows) by {
        forall r | r in rows[1..] ensures r in rows { }
      }
      RowsAreaM2Absent(rows[1..], k);
    }
  }

  lemma RowKeysCons(r: AreaSum, rows: seq<AreaSum>)
    ensures RowKeys([r] + rows) == {KeyOf(r)} + RowKeys(rows)
  {
    assert forall t :: t in [r] + rows <==> t == r || t in rows;
  }

  /** In key-sorted rows, a row's area is the whole area recorded for its key. */
  lemma {:induction false} SortedRowArea(rows: seq<AreaSum>, i: nat)
    requires KeySorted(rows) && i < |rows|
    ensures RowsAreaM2(rows, KeyOf(rows[i])) == rows[i].areaM2
  {
    var rest := rows[1..];
    assert KeySorted(rest) by {
      forall a, b | 0 <= a < b < |rest| ensures KeyLess(KeyOf(rest[a]), KeyOf(rest[b])) {
        assert rest[a] == rows[a + 1] && rest[b] == rows[b + 1];
      }
    }
    if i == 0 {
      if KeyOf(rows[0]) in RowKeys(rest) {
        var r :| r in rest && KeyOf(r) == KeyOf(rows[0]);
        var j :| 0 <= j < |rest| && rest[j] == r;
        assert rows[j + 1] == r;
        KeyLessIrreflexive(KeyOf(rows[0]));
      }
      RowsAreaM2Absent(rest, KeyOf(rows[0]));
    } else {
      assert KeyLess(KeyOf(rows[0]), KeyOf(rows[i]));
      KeyLessIrreflexive(KeyOf(rows[0]));
      assert rest[i - 1] == rows[i];
      SortedRowArea(rest, i - 1);
    }
  }

  /** A key below the first key of sorted rows is below every key. */
  lemma KeyBelowAll(k: PairKey, rows: seq<AreaSum>)
    requires KeySorted(rows) && rows != [] && KeyLess(k, KeyOf(rows[0]))
    ensures forall j :: 0 <= j < |rows| ==> KeyLess(k, KeyOf(rows[j]))
  {
    forall j | 0 < j < |rows| ensures KeyLess(k, KeyOf(rows[j])) {
      KeyLessTransitive(k, KeyOf(rows[0]), KeyOf(rows[j]));
    }
  }

  lemma KeySortedTail(rows: seq<AreaSum>)
    requires KeySorted(rows) && rows != []
    ensures KeySorted(rows[1..])
  {
    var rest := rows[1..];
    forall x, y | 0 <= x < y < |rest| ensures KeyLess(KeyOf(rest[x]), KeyOf(rest[y])) {
      assert rest[x] == rows[x + 1] && rest[y] == rows[y + 1];
    }
  }

  lemma KeySortedCons(r: AreaSum, rows: seq<AreaSum>)
    requires KeySorted(rows)
    requires forall j :: 0 <= j < |rows| ==> KeyLess(KeyOf(r), KeyOf(rows[j]))
    ensures KeySorted([r] + rows)
  {
    var out := [r] + rows;
    forall x, y | 0 <= x < y < |out| ensures KeyLess(KeyOf(out[x]), KeyOf(out[y])) {
      assert out[y] == rows[y - 1];
      if x > 0 {
        assert out[x] == rows[x - 1];
      }
    }
  }

  /** Adds area `a` to key `k`, inserting a new row in key order when the
      key is new: one step of the grouped sum. */
  function AddArea(rows: seq<AreaSum>, k: PairKey, a: real): seq<AreaSum>
    decreases |rows|
  {
    if rows == [] then [AreaSum(k.0, k.1, a)]
    else if KeyOf(rows[0]) == k then [AreaSum(k.0, k.1, rows[0].areaM2 + a)] + rows[1..]
    else if KeyLess(k, KeyOf(rows[0])) then [AreaSum(k.0, k.1, a)] + rows
    else [rows[0]] + AddArea(rows[1..], k, a)
  }

  lemma {:induction false} AddAreaKeys(rows: seq<AreaSum>, k: PairKey, a: real)
    ensures RowKeys(AddArea(rows, k, a)) == RowKeys(rows) + {k}
    decreases |rows|
  {
    if rows == [] {
      RowKeysCons(AreaSum(k.0, k.1, a), []);
    } else if KeyOf(rows[0]) == k {
      RowKeysCons(rows[0], rows[1..]);
      RowKeysCons(AreaSum(k.0, k.1, rows[0].areaM2 + a), rows[1..]);
      assert rows == [rows[0]] + rows[1..];
    } else if KeyLess(k, KeyOf(rows[0])) {
      RowKeysCons(AreaSum(k.0, k.1, a), rows);
    } else {
      AddAreaKeys(rows[1..], k, a);
      RowKeysCons(rows[0], rows[1..]);
      RowKeysCons(rows[0], AddArea(rows[1..], k, a));
      assert rows == [rows[0]] + rows[1..];
    }
  }

  lemma {:induction false} AddAreaTotals(rows: seq<AreaSum>, k: PairKey, a: real, k': PairKey)
    ensures RowsAreaM2(AddArea(rows, k, a), k') == RowsAreaM2(rows, k') + (if k' == k then a else 0.0)
    decreases |rows|
  {
    if rows == [] {
      assert [AreaSum(k.0, k.1, a)][1..] == [];
    } else if KeyOf(rows[0]) == k {
      assert ([AreaSum(k.0, k.1, rows[0].areaM2 + a)] + rows[1..])[1..] == rows[1..];
    } else if KeyLess(k, KeyOf(rows[0])) {
      assert ([AreaSum(k.0, k.1, a)] + rows)[1..] == rows;
    } else {
      AddAreaTotals(rows[1..], k, a, k');
      assert ([rows[0]] + AddArea(rows[1..], k, a))[1..] == AddArea(rows[1..], k, a);
    }
  }

  lemma {:induction false} AddAreaSorted(rows: seq<AreaSum>, k: PairKey, a: real)
    requires KeySorted(rows)
    ensures KeySorted(AddArea(rows, k, a))
    decreases |rows|
  {
    if rows == [] {
    } else if KeyOf(rows[0]) == k {
      var rest := rows[1..];
      KeySortedTail(rows);
      forall j | 0 <= j < |rest| ensures KeyLess(k, KeyOf(rest[j])) {
        assert rest[j] == rows[j + 1];
      }
      KeySortedCons(AreaSum(k.0, k.1, rows[0].areaM2 + a), rest);
    } else if KeyLess(k, KeyOf(rows[0])) {
      KeyBelowAll(k, rows);
      KeySortedCons(AreaSum(k.0, k.1, a), rows);
    } else {
      var rest := rows[1..];
      KeyLessTotal(k, KeyOf(rows[0]));
      KeySortedTail(rows);
      AddAreaSorted(rest, k, a);
      AddAreaKeys(rest, k, a);
      var tail := AddArea(rest, k, a);
      forall j | 0 <= j < |tail| ensures KeyLess(KeyOf(rows[0]), KeyOf(tail[j])) {
        assert tail[j] in tail;
        assert KeyOf(tail[j]) in RowKeys(tail);
        if KeyOf(tail[j]) != k {
          var r :| r in rest && KeyOf(r) == KeyOf(tail[j]);
          var x :| 0 <= x < |rest| && rest[x] == r;
          assert rows[x + 1] == r;
        }
      }
      KeySortedCons(rows[0], tail);
    }
  }

  /** `groupby(["h3", biome])["area_m2"].sum()`: one row per distinct
      (cell, non-null biome) pair, in key order, holding the pair's total
      area. Fragments whose biome is null form no group. */
  function GroupAreaM2(frags: seq<Fragment>): (rows: seq<AreaSum>)
    ensures KeySorted(rows)
    ensures RowKeys(rows) == LabelledPairs(frags)
    ensures forall k :: RowsAreaM2(rows, k) == PairAreaM2(frags, k)
    decreases |frags|
  {
    if frags == [] then []
    else
      var rest := GroupAreaM2(frags[1..]);
      var f := frags[0];
      assert forall t :: t in frags <==> t == f || t in frags[1..];
      if f.biome.None? then
        assert LabelledPairs(frags) == LabelledPairs(frags[1..]);
        rest
      else
        var k := (f.h3, f.biome.value);
        assert LabelledPairs(frags) == LabelledPairs(frags[1..]) + {k};
        AddAreaSorted(rest, k, f.areaM2);
        AddAreaKeys(rest, k, f.areaM2);
        assert forall k' :: RowsAreaM2(AddArea(rest, k, f.areaM2), k') == PairAreaM2(frags, k') by {
          forall k' ensures RowsAreaM2(AddArea(rest, k, f.areaM2), k') == PairAreaM2(frags, k') {
            AddAreaTotals(rest, k, f.areaM2, k');
          }
        }
        AddArea(rest, k, f.areaM2)
  }

  /** The hexagon area table covers every fragment's cell with a positive
      area: the overlay only produces fragments of the grid's own cells. */
  predicate HexAreasCover(frags: seq<Fragment>, hexArea: map<CellId, real>)
  {
    forall f :: f in frags ==> f.h3 in hexArea && hexArea[f.h3] > 0.0
  }

  /** Reference definition of a pair's share of its cell, in percent. */
  function PairPct(frags: seq<Fragment>, hexArea: map<CellId, real>, k: PairKey): real
    requires k.0 in hexArea && hexArea[k.0] > 0.0
  {
    PairAreaM2(frags, k) / hexArea[k.0] * 100.0
  }

  /** One row of `bio_area` after the merge with the hexagon areas. */
  datatype BioShare = BioShare(h3: CellId, biome: string, areaM2: real, hexAreaM2: real, biomeAreaPct: real)

  function ShareKey(s: BioShare): PairKey
  {
    (s.h3, s.biome)
  }

  lemma LabelledPairCovered(frags: seq<Fragment>, hexArea: map<CellId, real>, k: PairKey)
    requires HexAreasCover(frags, hexArea) && k in LabelledPairs(frags)
    ensures k.0 in hexArea && hexArea[k.0] > 0.0
  {
    var f :| f in frags && f.biome.Some? && (f.h3, f.biome.value) == k;
  }

  /** `bio_area`: the grouped areas merged with the hexagon area table, with
      the `biome_area_pct` column. One row per distinct (cell, biome) pair;
      each row carries the pair's total area and its share of the cell. */
  function BioArea(frags: seq<Fragment>, hexArea: map<CellId, real>): (shares: seq<BioShare>)
    requires HexAreasCover(frags, hexArea)
    ensures forall i, j :: 0 <= i < j < |shares| ==> KeyLess(ShareKey(shares[i]), ShareKey(shares[j]))
    ensures forall i, j :: 0 <= i < j < |shares| ==> ShareKey(shares[i]) != ShareKey(shares[j])
    ensures (set s | s in shares :: ShareKey(s)) == LabelledPairs(frags)
    ensures forall s :: s in shares ==>
              && s.h3 in hexArea && hexArea[s.h3] > 0.0
              && s.areaM2 == PairAreaM2(frags, ShareKey(s))
              && s.hexAreaM2 == hexArea[s.h3]
              && s.biomeAreaPct == PairPct(frags, hexArea, ShareKey(s))
  {
    var sums := GroupAreaM2(frags);
    assert forall i :: 0 <= i < |sums| ==> sums[i].h3 in hexArea && hexArea[sums[i].h3] > 0.0 by {
      forall i | 0 <= i < |sums| ensures sums[i].h3 in hexArea && hexArea[sums[i].h3] > 0.0 {
        assert sums[i] in sums;
        LabelledPairCovered(frags, hexArea, KeyOf(sums[i]));
      }
    }
    var shares := seq(|sums|, i requires 0 <= i < |sums| && sums[i].h3 in hexArea && hexArea[sums[i].h3] > 0.0 =>
                     BioShare(sums[i].h3, sums[i].biome, sums[i].areaM2, hexArea[sums[i].h3],
                              sums[i].areaM2 / hexArea[sums[i].h3] * 100.0));
    assert forall i, j :: 0 <= i < j < |shares| ==> ShareKey(shares[i]) != ShareKey(shares[j]) by {
      forall i, j | 0 <= i < j < |shares| ensures ShareKey(shares[i]) != ShareKey(shares[j]) {
        assert KeyLess(KeyOf(sums[i]), KeyOf(sums[j]));
        KeyLessIrreflexive(KeyOf(sums[i]));
      }
    }
    assert (set s | s in shares :: ShareKey(s)) == RowKeys(sums) by {
      forall k | k in RowKeys(sums) ensures k in (set s | s in shares :: ShareKey(s)) {
        var r :| r in sums && KeyOf(r) == k;
        var i :| 0 <= i < |sums| && sums[i] == r;
        assert shares[i] in shares;
      }
      forall s | s in shares ensures ShareKey(s) in RowKeys(sums) {
        var i :| 0 <= i < |shares| && shares[i] == s;
        assert sums[i] in sums;
      }
    }
    assert forall s :: s in shares ==> s.areaM2 == PairAreaM2(frags, ShareKey(s)) by {
      forall s | s in shares ensures s.areaM2 == PairAreaM2(frags, ShareKey(s)) {
        var i :| 0 <= i < |shares| && shares[i] == s;
        SortedRowArea(sums, i);
      }
    }
    shares
  }

  // ---------------------------------------------------------------------
  // Dominant biome per cell
  // ---------------------------------------------------------------------

  /** One row of the dominant-biome table: biome and share of the cell. */
  datatype Dominant = Dominant(biome: string, biomeAreaPct: real)

  /** Sort by cell and descending share, then keep the first row of each
      cell: one entry for every cell that has a share row. Among equal
      shares the earliest row wins. */
  function DominantBiome(shares: seq<BioShare>): (m: map<CellId, Dominant>)
    ensures m.Keys == (set s | s in shares :: s.h3)
    decreases |shares|
  {
    if shares == [] then map[]
    else
      var m0 := DominantBiome(shares[1..]);
      var s := shares[0];
      assert forall t :: t in shares <==> t == s || t in shares[1..];
      assert (set t | t in shares :: t.h3) == (set t | t in shares[1..] :: t.h3) + {s.h3};
      if s.h3 !in m0 || s.biomeAreaPct >= m0[s.h3].biomeAreaPct then m0[s.h3 := Dominant(s.biome, s.biomeAreaPct)]
      else m0
  }

  lemma {:induction false} DominantBiomeWitness(shares: seq<BioShare>)
    ensures forall c :: c in DominantBiome(shares) ==>
              exists s :: s in shares && s.h3 == c && Dominant(s.biome, s.biomeAreaPct) == DominantBiome(shares)[c]
  {
    if shares != [] {
      var rest := shares[1..];
      DominantBiomeWitness(rest);
      var m0 := DominantBiome(rest);
      var m := DominantBiome(shares);
      var s := shares[0];
      forall c | c in m
        ensures exists t :: t in shares && t.h3 == c && Dominant(t.biome, t.biomeAreaPct) == m[c]
      {
        if c == s.h3 && m[c] == Dominant(s.biome, s.biomeAreaPct) {
          assert s in shares;
        } else {
          assert c in m0 && m[c] == m0[c];
          var t :| t in rest && t.h3 == c && Dominant(t.biome, t.biomeAreaPct) == m0[c];
          assert t in shares;
        }
      }
    }
  }

  lemma {:induction false} DominantBiomeMax(shares: seq<BioShare>)
    ensures forall s :: s in shares ==>
              s.h3 in DominantBiome(shares) && s.biomeAreaPct <= DominantBiome(shares)[s.h3].biomeAreaPct
  {
    if shares != [] {
      var rest := shares[1..];
      DominantBiomeMax(rest);
      var m0 := DominantBiome(rest);
      var m := DominantBiome(shares);
      var s := shares[0];
      var updated := s.h3 !in m0 || s.biomeAreaPct >= m0[s.h3].biomeAreaPct;
      assert updated ==> m == m0[s.h3 := Dominant(s.biome, s.biomeAreaPct)];
      assert !updated ==> m == m0;
      forall t | t in shares
        ensures t.h3 in m && t.biomeAreaPct <= m[t.h3].biomeAreaPct
      {
        if t != s {
          assert t in rest;
          assert t.h3 in m0 && t.biomeAreaPct <= m0[t.h3].biomeAreaPct;
        }
      }
    }
  }

  /** The dominant-biome table has one entry per cell that has a share row;
      the entry is one of that cell's rows, and no row of the cell has a
      larger share. */
  lemma DominantBiomeSpec(shares: seq<BioShare>)
    ensures DominantBiome(shares).Keys == (set s | s in shares :: s.h3)
    ensures forall c :: c in DominantBiome(shares) ==>
              exists s :: s in shares && s.h3 == c && Dominant(s.biome, s.biomeAreaPct) == DominantBiome(shares)[c]
    ensures forall s :: s in shares ==>
              s.h3 in DominantBiome(shares) && s.biomeAreaPct <= DominantBiome(shares)[s.h3].biomeAreaPct
  {
    DominantBiomeWitness(shares);
    DominantBiomeMax(shares);
  }

  /** The rows of each cell come in strictly ascending biome order. */
  predicate BiomesAscendPerCell(shares: seq<BioShare>)
  {
    forall i, j :: 0 <= i < j < |shares| && shares[i].h3 == shares[j].h3 ==> Less(shares[i].biome, shares[j].biome)
  }

  lemma BiomesAscendTail(shares: seq<BioShare>)
    requires shares != [] && BiomesAscendPerCell(shares)
    ensures BiomesAscendPerCell(shares[1..])
  {
    var rest := shares[1..];
    forall i, j | 0 <= i < j < |rest| && rest[i].h3 == rest[j].h3 ensures Less(rest[i].biome, rest[j].biome) {
      assert rest[i] == shares[i + 1] && rest[j] == shares[j + 1];
    }
  }

  /** A tie for the largest share goes to the row that comes first. */
  predicate TieGoesToSmallest(shares: seq<BioShare>)
  {
    forall t :: t in shares && t.h3 in DominantBiome(shares) && t.biomeAreaPct == DominantBiome(shares)[t.h3].biomeAreaPct ==>
      !Less(t.biome, DominantBiome(shares)[t.h3].biome)
  }

  lemma TieBreakStep(shares: seq<BioShare>, t: BioShare)
    requires shares != [] && BiomesAscendPerCell(shares)
    requires t in shares && t.biomeAreaPct == DominantBiome(shares)[t.h3].biomeAreaPct
    requires t in shares[1..] && t.biomeAreaPct == DominantBiome(shares[1..])[t.h3].biomeAreaPct ==>
               !Less(t.biome, DominantBiome(shares[1..])[t.h3].biome)
    ensures !Less(t.biome, DominantBiome(shares)[t.h3].biome)
  {
    var rest := shares[1..];
    var m0 := DominantBiome(rest);
    var m := DominantBiome(shares);
    var s := shares[0];
    var updated := s.h3 !in m0 || s.biomeAreaPct >= m0[s.h3].biomeAreaPct;
    if t == s {
      if updated {
        LessIrreflexive(s.biome);
      } else {
        assert false;
      }
    } else {
      assert t in rest;
      if updated && t.h3 == s.h3 {
        var j :| 0 <= j < |rest| && rest[j] == t;
        assert shares[j + 1] == t;
        LessAsymmetric(s.biome, t.biome);
      } else {
        assert m[t.h3] == m0[t.h3];
      }
    }
  }

  /** When the rows of each cell come in ascending biome order, as the
      grouped table has them, a tie for the largest share goes to the
      smallest biome: no row of the cell with the winning share has a
      smaller biome than the entry. */
  lemma {:induction false} DominantTieBreak(shares: seq<BioShare>)
    requires BiomesAscendPerCell(shares)
    ensures TieGoesToSmallest(shares)
  {
    if shares != [] {
      BiomesAscendTail(shares);
      DominantTieBreak(shares[1..]);
      forall t | t in shares && t.h3 in DominantBiome(shares) && t.biomeAreaPct == DominantBiome(shares)[t.h3].biomeAreaPct
        ensures !Less(t.biome, DominantBiome(shares)[t.h3].biome)
      {
        TieBreakStep(shares, t);
      }
    }
  }

  // ---------------------------------------------------------------------
  // Final table
  // ---------------------------------------------------------------------

  /** One row of the output table. */
  datatype HexMetric = HexMetric(h3: CellId, roadLengthKm: real, dominantBiome: string, biomeAreaPct: real, exposureScore: real)

  const UnknownBiome: string := "Unknown"

  /** The `exposure_score` column: road length weighted by the biome share.
      It vanishes without road or without biome, equals the road length when
      the biome covers the whole cell, and is non-negative for non-negative
      inputs. */
  function ExposureScore(roadLengthKm: real, biomeAreaPct: real): (score: real)
    ensures roadLengthKm == 0.0 || biomeAreaPct == 0.0 ==> score == 0.0
    ensures biomeAreaPct == 100.0 ==> score == roadLengthKm
    ensures roadLengthKm >= 0.0 && biomeAreaPct >= 0.0 ==> score >= 0.0
  {
    roadLengthKm * (biomeAreaPct / 100.0)
  }

  /** Left merge of one hexagon row with the road and dominant-biome tables,
      the three `fillna` defaults and the `exposure_score` column. */
  function MergeRow(c: CellId, roadLen: map<CellId, real>, dominant: map<CellId, Dominant>): (r: HexMetric)
    ensures r.h3 == c
    ensures c in roadLen ==> r.roadLengthKm == roadLen[c]
    ensures c !in roadLen ==> r.roadLengthKm == 0.0
    ensures c in dominant ==> r.dominantBiome == dominant[c].biome && r.biomeAreaPct == dominant[c].biomeAreaPct
    ensures c !in dominant ==> r.dominantBiome == UnknownBiome && r.biomeAreaPct == 0.0
    ensures r.exposureScore == ExposureScore(r.roadLengthKm, r.biomeAreaPct)
  {
    var road := if c in roadLen then roadLen[c] else 0.0;
    var biome := if c in dominant then dominant[c].biome else UnknownBiome;
    var pct := if c in dominant then dominant[c].biomeAreaPct else 0.0;
    HexMetric(c, road, biome, pct, ExposureScore(road, pct))
  }

  /** The road length of an output row: the cell's total in km (0 when the
      cell has no segment). */
  predicate RoadMeetsSpec(r: HexMetric, c: CellId, segs: seq<Segment>)
  {
    r.roadLengthKm == CellLengthM(segs, c) / 1000.0
  }

  /** The biome columns of an output row: "Unknown" and 0 for a cell without
      labelled fragments, otherwise one of the cell's labels whose share is
      the largest, with that share; among labels of equal share, the
      smallest. */
  predicate BiomeMeetsSpec(r: HexMetric, c: CellId, hexArea: map<CellId, real>, frags: seq<Fragment>)
  {
    && (c !in LabelledCells(frags) ==> r.dominantBiome == UnknownBiome && r.biomeAreaPct == 0.0)
    && (c in LabelledCells(frags) ==>
          && (c, r.dominantBiome) in LabelledPairs(frags)
          && c in hexArea && hexArea[c] > 0.0
          && r.biomeAreaPct == PairPct(frags, hexArea, (c, r.dominantBiome))
          && (forall k :: k in LabelledPairs(frags) && k.0 == c ==> PairPct(frags, hexArea, k) <= r.biomeAreaPct)
          && (forall k :: k in LabelledPairs(frags) && k.0 == c && PairPct(frags, hexArea, k) == r.biomeAreaPct ==>
                !Less(k.1, r.dominantBiome)))
  }

  /** What the output row of cell `c` holds, in terms of the inputs alone. */
  predicate RowMeetsSpec(r: HexMetric, c: CellId, hexArea: map<CellId, real>, segs: seq<Segment>, frags: seq<Fragment>)
  {
    && r.h3 == c
    && RoadMeetsSpec(r, c, segs)
    && BiomeMeetsSpec(r, c, hexArea, frags)
    && r.exposureScore == ExposureScore(r.roadLengthKm, r.biomeAreaPct)
  }

  lemma ShareCellsAreLabelledCells(frags: seq<Fragment>, hexArea: map<CellId, real>)
    requires HexAreasCover(frags, hexArea)
    ensures (set s | s in BioArea(frags, hexArea) :: s.h3) == LabelledCells(frags)
  {
    var shares := BioArea(frags, hexArea);
    forall c | c in LabelledCells(frags) ensures c in (set s | s in shares :: s.h3) {
      var f :| f in frags && f.biome.Some? && f.h3 == c;
      assert (c, f.biome.value) in LabelledPairs(frags);
      var s :| s in shares && ShareKey(s) == (c, f.biome.value);
    }
    forall c | c in (set s | s in shares :: s.h3) ensures c in LabelledCells(frags) {
      var s :| s in shares && s.h3 == c;
      assert ShareKey(s) in LabelledPairs(frags);
      var f :| f in frags && f.biome.Some? && (f.h3, f.biome.value) == ShareKey(s);
    }
  }

  /** The dominant-biome table computed from the fragments, in terms of the
      fragments: an entry exactly for the cells with a labelled fragment,
      naming one of the cell's labels with the largest share. */
  lemma DominantFromFragments(c: CellId, hexArea: map<CellId, real>, frags: seq<Fragment>)
    requires HexAreasCover(frags, hexArea)
    ensures c in DominantBiome(BioArea(frags, hexArea)) <==> c in LabelledCells(frags)
    ensures c in LabelledCells(frags) ==>
              var d := DominantBiome(BioArea(frags, hexArea))[c];
              && (c, d.biome) in LabelledPairs(frags)
              && c in hexArea && hexArea[c] > 0.0
              && d.biomeAreaPct == PairPct(frags, hexArea, (c, d.biome))
              && forall k :: k in LabelledPairs(frags) && k.0 == c ==> PairPct(frags, hexArea, k) <= d.biomeAreaPct
  {
    var shares := BioArea(frags, hexArea);
    var dominant := DominantBiome(shares);
    DominantBiomeSpec(shares);
    ShareCellsAreLabelledCells(frags, hexArea);
    if c in LabelledCells(frags) {
      var f :| f in frags && f.biome.Some? && f.h3 == c;
      assert (c, f.biome.value) in LabelledPairs(frags);
      var s0 :| s0 in shares && ShareKey(s0) == (c, f.biome.value);
      assert c in dominant;
      var s :| s in shares && s.h3 == c && Dominant(s.biome, s.biomeAreaPct) == dominant[c];
      assert ShareKey(s) in LabelledPairs(frags);
      forall k | k in LabelledPairs(frags) && k.0 == c
        ensures PairPct(frags, hexArea, k) <= dominant[c].biomeAreaPct
      {
        var t :| t in shares && ShareKey(t) == k;
      }
    }
  }

  lemma BioAreaAscends(frags: seq<Fragment>, hexArea: map<CellId, real>)
    requires HexAreasCover(frags, hexArea)
    ensures BiomesAscendPerCell(BioArea(frags, hexArea))
  {
    var shares := BioArea(frags, hexArea);
    forall i, j | 0 <= i < j < |shares| && shares[i].h3 == shares[j].h3
      ensures Less(shares[i].biome, shares[j].biome)
    {
      assert KeyLess(ShareKey(shares[i]), ShareKey(shares[j]));
      LessIrreflexive(shares[i].h3);
    }
  }

  /** The code's tie-break, in terms of the fragments: of the biomes of a
      cell that share the largest share, the dominant one is the smallest. */
  lemma DominantTieFromFragments(c: CellId, hexArea: map<CellId, real>, frags: seq<Fragment>)
    requires HexAreasCover(frags, hexArea) && c in LabelledCells(frags)
    ensures c in DominantBiome(BioArea(frags, hexArea))
    ensures c in hexArea && hexArea[c] > 0.0
    ensures var d := DominantBiome(BioArea(frags, hexArea))[c];
            forall k :: k in LabelledPairs(frags) && k.0 == c && PairPct(frags, hexArea, k) == d.biomeAreaPct ==>
              !Less(k.1, d.biome)
  {
    var shares := BioArea(frags, hexArea);
    ShareCellsAreLabelledCells(frags, hexArea);
    var f :| f in frags && f.biome.Some? && f.h3 == c;
    var d := DominantBiome(shares)[c];
    BioAreaAscends(frags, hexArea);
    DominantTieBreak(shares);
    forall k | k in LabelledPairs(frags) && k.0 == c && PairPct(frags, hexArea, k) == d.biomeAreaPct
      ensures !Less(k.1, d.biome)
    {
      var t :| t in shares && ShareKey(t) == k;
    }
  }

  lemma MergeRowRoad(c: CellId, segs: seq<Segment>, dominant: map<CellId, Dominant>)
    ensures RoadMeetsSpec(MergeRow(c, RoadLengthKm(segs), dominant), c, segs)
  {
    if c !in RoadLengthKm(segs) {
      CellLengthMAbsent(segs, c);
    }
  }

  lemma MergeRowBiome(c: CellId, hexArea: map<CellId, real>, roadLen: map<CellId, real>, frags: seq<Fragment>)
    requires HexAreasCover(frags, hexArea)
    ensures BiomeMeetsSpec(MergeRow(c, roadLen, DominantBiome(BioArea(frags, hexArea))), c, hexArea, frags)
  {
    DominantFromFragments(c, hexArea, frags);
    if c in LabelledCells(frags) {
      DominantTieFromFragments(c, hexArea, frags);
    }
  }

  lemma MergeRowMeetsSpec(c: CellId, hexArea: map<CellId, real>, segs: seq<Segment>, frags: seq<Fragment>)
    requires HexAreasCover(frags, hexArea)
    ensures RowMeetsSpec(MergeRow(c, RoadLengthKm(segs), DominantBiome(BioArea(frags, hexArea))), c, hexArea, segs, frags)
  {
    var roadLen := RoadLengthKm(segs);
    var dominant := DominantBiome(BioArea(frags, hexArea));
    var r := MergeRow(c, roadLen, dominant);
    MergeRowRoad(c, segs, dominant);
    MergeRowBiome(c, hexArea, roadLen, frags);
  }

  /** The metric table: one row per input hexagon row, in input order, each
      row as `RowMeetsSpec` describes (total road length in km, or 0;
      a biome of largest share with that share, or "Unknown" and 0; and
      the exposure score). */
  function ComputeHexMetrics(hexes: seq<CellId>, hexArea: map<CellId, real>, segs: seq<Segment>, frags: seq<Fragment>)
    : (out: seq<HexMetric>)
    requires HexAreasCover(frags, hexArea)
    ensures |out| == |hexes|
    ensures forall i :: 0 <= i < |hexes| ==> RowMeetsSpec(out[i], hexes[i], hexArea, segs, frags)
  {
    var roadLen := RoadLengthKm(segs);
    var dominant := DominantBiome(BioArea(frags, hexArea));
    var out := seq(|hexes|, i requires 0 <= i < |hexes| => MergeRow(hexes[i], roadLen, dominant));
    assert forall i :: 0 <= i < |hexes| ==> RowMeetsSpec(out[i], hexes[i], hexArea, segs, frags) by {
      forall i | 0 <= i < |hexes| ensures RowMeetsSpec(out[i], hexes[i], hexArea, segs, frags) {
        MergeRowMeetsSpec(hexes[i], hexArea, segs, frags);
      }
    }
    out
  }

  // ---------------------------------------------------------------------
  // Properties of the output table
  // ---------------------------------------------------------------------

  /** A cell that no segment reaches gets road length 0 and hence score 0;
      a cell that no labelled fragment reaches gets "Unknown", share 0 and
      score 0. */
  lemma DefaultsForUntouchedCells(hexes: seq<CellId>, hexArea: map<CellId, real>, segs: seq<Segment>, frags: seq<Fragment>, i: nat)
    requires HexAreasCover(frags, hexArea) && i < |hexes|
    ensures var r := ComputeHexMetrics(hexes, hexArea, segs, frags)[i];
            && (hexes[i] !in SegmentCells(segs) ==> r.roadLengthKm == 0.0 && r.exposureScore == 0.0)
            && (hexes[i] !in LabelledCells(frags) ==>
                  r.dominantBiome == UnknownBiome && r.biomeAreaPct == 0.0 && r.exposureScore == 0.0)
  {
    if hexes[i] !in SegmentCells(segs) {
      CellLengthMAbsent(segs, hexes[i]);
    }
  }

  lemma {:induction false} PairAreaM2NonNegative(frags: seq<Fragment>, k: PairKey)
    requires forall f :: f in frags ==> f.areaM2 >= 0.0
    ensures PairAreaM2(frags, k) >= 0.0
  {
    if frags != [] {
      assert frags[0] in frags;
      PairAreaM2NonNegative(frags[1..], k);
    }
  }

  /** With non-negative lengths and areas, every road length, share and
      score of the output table is non-negative. */
  lemma MetricsNonNegative(hexes: seq<CellId>, hexArea: map<CellId, real>, segs: seq<Segment>, frags: seq<Fragment>, i: nat)
    requires HexAreasCover(frags, hexArea) && i < |hexes|
    requires forall s :: s in segs ==> s.lengthM >= 0.0
    requires forall f :: f in frags ==> f.areaM2 >= 0.0
    ensures var r := ComputeHexMetrics(hexes, hexArea, segs, frags)[i];
            r.roadLengthKm >= 0.0 && r.biomeAreaPct >= 0.0 && r.exposureScore >= 0.0
  {
    var r := ComputeHexMetrics(hexes, hexArea, segs, frags)[i];
    var c := hexes[i];
    assert RowMeetsSpec(r, c, hexArea, segs, frags);
    CellLengthMNonNegative(segs, c);
    NonNegativeShare(CellLengthM(segs, c), 1000.0);
    if c in LabelledCells(frags) {
      PairAreaM2NonNegative(frags, (c, r.dominantBiome));
      NonNegativeShare(PairAreaM2(frags, (c, r.dominantBiome)), hexArea[c]);
    }
  }

  lemma NonNegativeShare(a: real, h: real)
    requires a >= 0.0 && h > 0.0
    ensures a / h >= 0.0 && a / h * 100.0 >= 0.0
  {
  }

  /** Reference definition: total area of the labelled fragments of cell `c`. */
  function CellAreaM2(frags: seq<Fragment>, c: CellId): real
  {
    if frags == [] then 0.0
    else (if frags[0].h3 == c && frags[0].biome.Some? then frags[0].areaM2 else 0.0) + CellAreaM2(frags[1..], c)
  }

  lemma {:induction false} PairAreaAtMostCellArea(frags: seq<Fragment>, k: PairKey)
    requires forall f :: f in frags ==> f.areaM2 >= 0.0
    ensures PairAreaM2(frags, k) <= CellAreaM2(frags, k.0)
  {
    if frags != [] {
      assert frags[0] in frags;
      PairAreaAtMostCellArea(frags[1..], k);
    }
  }

  lemma ShareAtMostHundred(a: real, h: real)
    requires a <= h && h > 0.0
    ensures a / h * 100.0 <= 100.0
  {
    var q := a / h;
    assert q * h == a;
  }

  /** The share is not clamped; it stays within 100 only when the labelled
      fragments of the cell do not cover more than the cell's area (biome
      polygons that overlap one another break this). */
  lemma PctAtMostHundred(hexes: seq<CellId>, hexArea: map<CellId, real>, segs: seq<Segment>, frags: seq<Fragment>, i: nat)
    requires HexAreasCover(frags, hexArea) && i < |hexes|
    requires forall f :: f in frags ==> f.areaM2 >= 0.0
    requires hexes[i] in hexArea && CellAreaM2(frags, hexes[i]) <= hexArea[hexes[i]]
    ensures ComputeHexMetrics(hexes, hexArea, segs, frags)[i].biomeAreaPct <= 100.0
  {
    var r := ComputeHexMetrics(hexes, hexArea, segs, frags)[i];
    var c := hexes[i];
    if c in LabelledCells(frags) {
      PairAreaAtMostCellArea(frags, (c, r.dominantBiome));
      ShareAtMostHundred(PairAreaM2(frags, (c, r.dominantBiome)), hexArea[c]);
    }
  }

  /** Two overlapping fragments of one biome in one cell give a share above
      100 percent: the bound of the data model is not enforced by the code. */
  lemma PctMayExceedHundred()
    ensures var frags := [Fragment("c", Some("Mata"), 60.0), Fragment("c", Some("Mata"), 60.0)];
            ComputeHexMetrics(["c"], map["c" := 100.0], [], frags)[0].biomeAreaPct == 120.0
  {
    var frags := [Fragment("c", Some("Mata"), 60.0), Fragment("c", Some("Mata"), 60.0)];
    var hexArea := map["c" := 100.0];
    assert frags[0] in frags;
    assert "c" in LabelledCells(frags);
    assert LabelledPairs(frags) == {("c", "Mata")} by {
      assert forall f :: f in frags ==> f == frags[0];
    }
    assert PairAreaM2(frags, ("c", "Mata")) == 120.0;
  }

  /** One row of the biome overlay as the geometry library returns it: its
      cell, the values of the biome layer's attribute columns (`None` for a
      null value) and its area in square metres. */
  datatype BiomePiece = BiomePiece(h3: CellId, attrs: map<string, Option<string>>, areaM2: real)

  /** The overlay rows restricted to the chosen label column, as
      `biomes_m[[biome_col, "geometry"]]` restricts the layer before the
      overlay: each piece keeps its cell and area, and its biome is its value
      in that column. */
  function LabelPieces(pieces: seq<BiomePiece>, col: string): (frags: seq<Fragment>)
    ensures |frags| == |pieces|
    ensures forall i :: 0 <= i < |pieces| ==> frags[i].h3 == pieces[i].h3 && frags[i].areaM2 == pieces[i].areaM2
    ensures forall i :: 0 <= i < |pieces| && col in pieces[i].attrs ==> frags[i].biome == pieces[i].attrs[col]
    ensures forall i :: 0 <= i < |pieces| && col !in pieces[i].attrs ==> frags[i].biome == None
  {
    seq(|pieces|, i requires 0 <= i < |pieces| =>
      Fragment(pieces[i].h3, if col in pieces[i].attrs then pieces[i].attrs[col] else None, pieces[i].areaM2))
  }

  /** Every overlay row lies in a cell of the hexagon area table. */
  predicate PiecesCovered(pieces: seq<BiomePiece>, hexArea: map<CellId, real>)
  {
    forall p :: p in pieces ==> p.h3 in hexArea && hexArea[p.h3] > 0.0
  }

  lemma LabelPiecesCovered(pieces: seq<BiomePiece>, col: string, hexArea: map<CellId, real>)
    requires PiecesCovered(pieces, hexArea)
    ensures HexAreasCover(LabelPieces(pieces, col), hexArea)
  {
    var frags := LabelPieces(pieces, col);
    forall f | f in frags ensures f.h3 in hexArea && hexArea[f.h3] > 0.0 {
      var i :| 0 <= i < |frags| && frags[i] == f;
      assert pieces[i] in pieces;
    }
  }

  /** The pipeline's driver: the label column is chosen first; without one
      the run raises and produces no table. Otherwise the biome labels are
      the values of the first alias, in priority order, that names a column,
      and the table is the metric table for those labels. */
  method RunMetrics(biomeColumns: seq<string>, hexes: seq<CellId>, hexArea: map<CellId, real>,
                    segs: seq<Segment>, pieces: seq<BiomePiece>)
    returns (r: Result<seq<HexMetric>, string>)
    requires PiecesCovered(pieces, hexArea)
    ensures r.Failure? <==> forall a :: a in BiomeNameAliases ==> a !in biomeColumns
    ensures r.Failure? ==> r.error == NoBiomeColumn
    ensures r.Success? ==> |r.value| == |hexes|
    ensures r.Success? ==>
              exists i :: 0 <= i < |BiomeNameAliases| && BiomeNameAliases[i] in biomeColumns
                          && (forall j :: 0 <= j < i ==> BiomeNameAliases[j] !in biomeColumns)
                          && forall k :: 0 <= k < |hexes| ==>
                               RowMeetsSpec(r.value[k], hexes[k], hexArea, segs, LabelPieces(pieces, BiomeNameAliases[i]))
  {
    var col := PickBiomeNameCol(biomeColumns);
    if col.Failure? {
      return Failure(col.error);
    }
    var frags := LabelPieces(pieces, col.value);
    LabelPiecesCovered(pieces, col.value, hexArea);
    r := Success(ComputeHexMetrics(hexes, hexArea, segs, frags));
  }
}
