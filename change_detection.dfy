/**
 * The change detector: the binary mask of pixels that were not urban in
 * the start year and are urban in the end year.
 */
module ChangeDetection {
  import opened Wrappers
  import opened Classes
  import opened LandCover
  import opened Shapes

  /** A pixel that turned urban: not Built Area before, Built Area after. */
  predicate NewlyUrban(before: int, after: int) {
    before != BuiltArea && after == BuiltArea
  }

  /** The mask value of one pixel. */
  function Flag(before: int, after: int): int {
    if NewlyUrban(before, after) then 1 else 0
  }

  /** `m` is the change mask of `start` and `end`, cell by cell. */
  ghost predicate IsMaskOf(m: Grid, start: Grid, end: Grid) {
    && SameShape(m, start) && SameShape(start, end)
    && forall i, j :: 0 <= i < |m| && 0 <= j < |m[i]| ==> m[i][j] == Flag(start[i][j], end[i][j])
  }

  /** The change mask: a zero raster shaped like `start`, set to 1 where a pixel turned urban. */
  function NewUrbanMask(start: Grid, end: Grid): (m: Grid)
    requires SameShape(start, end)
    ensures SameShape(m, start)
  {
    seq(|start|, i requires 0 <= i < |start| =>
      seq(|start[i]|, j requires 0 <= j < |start[i]| => Flag(start[i][j], end[i][j])))
  }

  /** The number of pixels urban in both years. */
  function StayedUrban(start: seq<int>, end: seq<int>): nat
    requires |start| == |end|
  {
    if |start| == 0 then 0
    else (if start[0] == BuiltArea && end[0] == BuiltArea then 1 else 0) + StayedUrban(start[1..], end[1..])
  }

  function StayedUrbanPixels(start: Grid, end: Grid): nat
    requires SameShape(start, end)
  {
    if |start| == 0 then 0 else StayedUrban(start[0], end[0]) + StayedUrbanPixels(start[1..], end[1..])
  }

  /** The contents of a 2-D array, row by row. */
  function Cells(a: array2<int>): (g: Grid)
    reads a
    ensures |g| == a.Length0 && IsGrid(g) && (a.Length0 > 0 ==> Width(g) == a.Length1)
  {
    seq(a.Length0, i requires 0 <= i < a.Length0 reads a =>
      seq(a.Length1, j requires 0 <= j < a.Length1 reads a => a[i, j]))
  }

  /**
   * Builds the change mask: allocates a zero raster of the start raster's
   * shape, then sets to 1 every pixel that turned urban. Rasters of
   * different shapes cannot be combined cell by cell.
   */
  method ChangeMap(start: Grid, end: Grid) returns (r: Result<array2<int>>)
    requires IsGrid(start) && IsGrid(end)
    ensures r.Err? <==> !SameShape(start, end)
    ensures r.Err? ==> r.error == ShapeMismatch
    ensures r.Ok? ==> fresh(r.value) && SameShape(start, end)
                      && Cells(r.value) == NewUrbanMask(start, end)
  {
    if |start| != |end| || Width(start) != Width(end) {
      assert |start| == |end| ==> |start| > 0 && |start[0]| != |end[0]|;
      return Err(ShapeMismatch);
    }
    var rows, cols := |start|, Width(start);
    var mask := new int[rows, cols]((i, j) => 0);
    var i := 0;
    while i < rows
      invariant 0 <= i <= rows
      invariant forall p, q :: 0 <= p < i && 0 <= q < cols ==> mask[p, q] == Flag(start[p][q], end[p][q])
      invariant forall p, q :: i <= p < rows && 0 <= q < cols ==> mask[p, q] == 0
    {
      var j := 0;
      while j < cols
        invariant 0 <= j <= cols
        invariant forall p, q :: 0 <= p < i && 0 <= q < cols ==> mask[p, q] == Flag(start[p][q], end[p][q])
        invariant forall q :: 0 <= q < j ==> mask[i, q] == Flag(start[i][q], end[i][q])
        invariant forall p, q :: i <= p < rows && 0 <= q < cols && (p > i || q >= j) ==> mask[p, q] == 0
      {
        if NewlyUrban(start[i][j], end[i][j]) {
          mask[i, j] := 1;
        }
        j := j + 1;
      }
      i := i + 1;
    }
    var m, want := Cells(mask), NewUrbanMask(start, end);
    forall p | 0 <= p < rows
      ensures m[p] == want[p]
    {
      assert |start[p]| == cols;
    }
    assert m == want;
    return Ok(mask);
  }

  // ---------------------------------------------------------------------
  // Lemmas

  /** Only 0 and 1 appear in the mask, and a 1 marks exactly a pixel that turned urban. */
  lemma MaskIsBinary(start: Grid, end: Grid, i: nat, j: nat)
    requires SameShape(start, end)
    requires i < |start| && j < |start[i]|
    ensures var m := NewUrbanMask(start, end);
      && (m[i][j] == 0 || m[i][j] == 1)
      && (m[i][j] == 1 <==> start[i][j] != BuiltArea && end[i][j] == BuiltArea)
  {
  }

  lemma {:induction false} RowSplit(m: seq<int>, start: seq<int>, end: seq<int>)
    requires |m| == |start| == |end|
    requires forall j :: 0 <= j < |m| ==> m[j] == Flag(start[j], end[j])
    ensures CountRow(m, 1) + StayedUrban(start, end) == CountRow(end, BuiltArea)
  {
    if |m| > 0 {
      RowSplit(m[1..], start[1..], end[1..]);
    }
  }

  lemma {:induction false} GridSplit(m: Grid, start: Grid, end: Grid)
    requires IsMaskOf(m, start, end)
    ensures Count(m, 1) + StayedUrbanPixels(start, end) == UrbanPixels(end)
  {
    if |m| > 0 {
      RowSplit(m[0], start[0], end[0]);
      GridSplit(m[1..], start[1..], end[1..]);
    }
  }

  /**
   * Every urban pixel of the end year is either newly urban (a 1 in the
   * mask) or was urban already; so the mask has at most as many 1s as the
   * end year has urban pixels.
   */
  lemma NewUrbanCount(start: Grid, end: Grid)
    requires SameShape(start, end)
    ensures Count(NewUrbanMask(start, end), 1) + StayedUrbanPixels(start, end) == UrbanPixels(end)
    ensures Count(NewUrbanMask(start, end), 1) <= UrbanPixels(end)
  {
    GridSplit(NewUrbanMask(start, end), start, end);
  }

  lemma {:induction false} NoOnes(m: Grid)
    requires forall i, j :: 0 <= i < |m| && 0 <= j < |m[i]| ==> m[i][j] == 0
    ensures Count(m, 1) == 0
  {
    if |m| > 0 {
      NoOnesRow(m[0]);
      NoOnes(m[1..]);
    }
  }

  lemma {:induction false} NoOnesRow(row: seq<int>)
    requires forall j :: 0 <= j < |row| ==> row[j] == 0
    ensures CountRow(row, 1) == 0
  {
    if |row| > 0 {
      NoOnesRow(row[1..]);
    }
  }

  /** Two identical rasters give the all-zero mask. */
  lemma NoChangeNoMask(g: Grid)
    ensures SameShape(g, g)
    ensures forall i, j :: 0 <= i < |g| && 0 <= j < |g[i]| ==> NewUrbanMask(g, g)[i][j] == 0
    ensures Count(NewUrbanMask(g, g), 1) == 0
  {
    NoOnes(NewUrbanMask(g, g));
  }

  /** On labels of the catalog, the mask of the re-read 8-bit rasters is the mask of the labels. */
  lemma MaskOfReEncoded(start: Grid, end: Grid)
    requires SameShape(start, end) && InDomain(start) && InDomain(end)
    ensures SameShape(ReEncode(start), ReEncode(end))
    ensures NewUrbanMask(ReEncode(start), ReEncode(end)) == NewUrbanMask(start, end)
  {
    ReEncodeKeepsLabels(start);
    ReEncodeKeepsLabels(end);
  }
}
