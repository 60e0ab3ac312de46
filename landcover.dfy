/**
 * Label rasters and the urban coverage of one year: the count of
 * "Built Area" pixels and the percentage they make of the raster.
 */
module LandCover {
  import opened Classes

  /** A squeezed single-band label raster, row by row. */
  type Grid = seq<seq<int>>

  /**
   * A percentage as the analysis computes it. Dividing by the size of an
   * empty raster gives NaN in numpy (a warning, not an exception).
   */
  datatype Percent = Pct(value: real) | NaN

  function Width(g: Grid): nat {
    if |g| == 0 then 0 else |g[0]|
  }

  /** A numpy 2-D array is rectangular: every row has the same width. */
  predicate IsGrid(g: Grid) {
    forall i :: 0 <= i < |g| ==> |g[i]| == Width(g)
  }

  /** Every pixel holds a code of the class catalog. */
  predicate InDomain(g: Grid) {
    forall i, j :: 0 <= i < |g| && 0 <= j < |g[i]| ==> IsLabel(g[i][j])
  }

  /** The pixels in row-major order, as numpy's flat view of the array. */
  function Flatten(g: Grid): seq<int> {
    if |g| == 0 then [] else g[0] + Flatten(g[1..])
  }

  /** The number of pixels, numpy's `size`. */
  function Size(g: Grid): nat {
    if |g| == 0 then 0 else |g[0]| + Size(g[1..])
  }

  /** The number of entries of `row` equal to `v`. */
  function CountRow(row: seq<int>, v: int): (n: nat)
    ensures n <= |row|
  {
    if |row| == 0 then 0
    else (if row[0] == v then 1 else 0) + CountRow(row[1..], v)
  }

  /** The number of pixels equal to `v`: `np.sum(g == v)`. */
  function Count(g: Grid, v: int): (n: nat)
    ensures n <= Size(g)
  {
    if |g| == 0 then 0 else CountRow(g[0], v) + Count(g[1..], v)
  }

  /** The number of urban pixels of a label raster. */
  function UrbanPixels(g: Grid): (n: nat)
    ensures n <= Size(g)
  {
    Count(g, BuiltArea)
  }

  /** The share of urban pixels, in percent: `urban_pixels / size * 100`. */
  function UrbanPercentage(g: Grid): (r: Percent)
    ensures r.NaN? <==> Size(g) == 0
    ensures r.Pct? ==> 0.0 <= r.value <= 100.0
  {
    if Size(g) == 0 then NaN
    else
      var u, n := UrbanPixels(g) as real, Size(g) as real;
      assert u / n <= 1.0;
      Pct(u / n * 100.0)
  }

  /**
   * The raster as written to and read back from an 8-bit GeoTIFF:
   * numpy's `astype(uint8)` keeps an integer modulo 256.
   */
  function ReEncode(g: Grid): (r: Grid)
    ensures |r| == |g| && forall i :: 0 <= i < |g| ==> |r[i]| == |g[i]|
    ensures forall i, j :: 0 <= i < |r| && 0 <= j < |r[i]| ==> 0 <= r[i][j] < 256
  {
    seq(|g|, i requires 0 <= i < |g| =>
      seq(|g[i]|, j requires 0 <= j < |g[i]| => g[i][j] % 256))
  }

  // ---------------------------------------------------------------------
  // Lemmas

  /** The size of a rectangular raster is rows times columns. */
  lemma {:induction false} SizeOfGrid(g: Grid)
    requires IsGrid(g)
    ensures Size(g) == |g| * Width(g)
  {
    if |g| > 0 {
      assert IsGrid(g[1..]) && (|g| > 1 ==> Width(g[1..]) == Width(g));
      SizeOfGrid(g[1..]);
    }
  }

  lemma {:induction false} CountRowIsMultiplicity(row: seq<int>, v: int)
    ensures CountRow(row, v) == multiset(row)[v]
  {
    if |row| > 0 {
      assert row == [row[0]] + row[1..];
      CountRowIsMultiplicity(row[1..], v);
    }
  }

  /**
   * The recursive count agrees with the multiplicity of `v` in the
   * flattened raster, and the size with the length of that flat view.
   */
  lemma {:induction false} CountIsMultiplicity(g: Grid, v: int)
    ensures Count(g, v) == multiset(Flatten(g))[v]
    ensures Size(g) == |Flatten(g)|
  {
    if |g| > 0 {
      CountRowIsMultiplicity(g[0], v);
      CountIsMultiplicity(g[1..], v);
    }
  }

  /** For a raster where exactly k of its N > 0 pixels are urban, the percentage is 100 k / N. */
  lemma UrbanPercentageOfCounts(g: Grid, k: nat, n: nat)
    requires multiset(Flatten(g))[BuiltArea] == k
    requires |Flatten(g)| == n > 0
    ensures UrbanPercentage(g) == Pct(k as real / n as real * 100.0)
  {
    CountIsMultiplicity(g, BuiltArea);
  }

  /** A raster every pixel of which is urban has coverage 100%. */
  lemma {:induction false} AllUrbanIsHundred(g: Grid)
    requires Size(g) > 0
    requires forall i, j :: 0 <= i < |g| && 0 <= j < |g[i]| ==> g[i][j] == BuiltArea
    ensures UrbanPercentage(g) == Pct(100.0)
  {
    assert UrbanPixels(g) == Size(g) by {
      CountIsMultiplicity(g, BuiltArea);
      FlattenAll(g, BuiltArea);
      SameValueMultiplicity(Flatten(g), BuiltArea);
    }
    WholeIsHundred(Size(g));
  }

  lemma WholeIsHundred(n: nat)
    requires n > 0
    ensures n as real / n as real * 100.0 == 100.0
  {
  }

  /** A raster without urban pixels has coverage 0%. */
  lemma {:induction false} NoUrbanIsZero(g: Grid)
    requires Size(g) > 0
    requires forall i, j :: 0 <= i < |g| && 0 <= j < |g[i]| ==> g[i][j] != BuiltArea
    ensures UrbanPercentage(g) == Pct(0.0)
  {
    CountIsMultiplicity(g, BuiltArea);
    FlattenNone(g, BuiltArea);
    assert BuiltArea !in multiset(Flatten(g));
  }

  lemma {:induction false} FlattenAll(g: Grid, v: int)
    requires forall i, j :: 0 <= i < |g| && 0 <= j < |g[i]| ==> g[i][j] == v
    ensures forall k :: 0 <= k < |Flatten(g)| ==> Flatten(g)[k] == v
  {
    if |g| > 0 {
      FlattenAll(g[1..], v);
    }
  }

  lemma {:induction false} FlattenNone(g: Grid, v: int)
    requires forall i, j :: 0 <= i < |g| && 0 <= j < |g[i]| ==> g[i][j] != v
    ensures v !in Flatten(g)
  {
    if |g| > 0 {
      FlattenNone(g[1..], v);
    }
  }

  lemma {:induction false} SameValueMultiplicity(s: seq<int>, v: int)
    requires forall k :: 0 <= k < |s| ==> s[k] == v
    ensures multiset(s)[v] == |s|
  {
    if |s| > 0 {
      assert s == [s[0]] + s[1..];
      SameValueMultiplicity(s[1..], v);
    }
  }

  /** Writing a label raster as 8 bits and reading it back changes nothing. */
  lemma ReEncodeKeepsLabels(g: Grid)
    requires InDomain(g)
    ensures ReEncode(g) == g
  {
    var r := ReEncode(g);
    forall i | 0 <= i < |g|
      ensures r[i] == g[i]
    {
      forall j | 0 <= j < |g[i]|
        ensures r[i][j] == g[i][j]
      {
        assert IsLabel(g[i][j]);
      }
    }
  }

  /** Re-encoding keeps a rectangular raster rectangular. */
  lemma ReEncodeKeepsGrid(g: Grid)
    requires IsGrid(g)
    ensures IsGrid(ReEncode(g)) && Width(ReEncode(g)) == Width(g)
  {
  }
}
