/**
 The rectangle-merging half of the chunk mesher (the second pair of loops in
 MeshingSystem::CreateMesh). A slice mask of `dims[u] * dims[v]` signed face
 codes is scanned row by row; each non-zero cell starts a rectangle that is
 widened along u while the code repeats, then heightened along v while every
 cell of the next row segment repeats it; the rectangle is cleared and the
 scan resumes after it.

 The source keeps the mask as one flat vector addressed by
 `n = j * dims[u] + i`; here it is a sequence of `dims[v]` rows of `dims[u]`
 cells, so `mask[j][i]` is the source's `mask[n]`.
 */
module GreedyMerge {

  /** One merged rectangle: corner (i, j), extent w along u and h along v,
      and the mask code it was cut from. */
  datatype Rect = Rect(i: nat, j: nat, w: nat, h: nat, code: int)

  /** The rectangles emitted so far and the mask as the scan leaves it. */
  datatype Merged = Merged(rects: seq<Rect>, mask: seq<seq<int>>)

  /** A mask of `v` rows of `u` cells. */
  ghost predicate Shaped(mask: seq<seq<int>>, u: nat, v: nat) {
    |mask| == v && forall j :: 0 <= j < v ==> |mask[j]| == u
  }

  /** Scan order: cell (i, j) comes strictly before cell (i', j'). */
  predicate Before(i: nat, j: nat, i': nat, j': nat) {
    j < j' || (j == j' && i < i')
  }

  /** Every non-zero code occurs in one cell only. */
  ghost predicate DistinctCodes(mask: seq<seq<int>>, u: nat, v: nat)
    requires Shaped(mask, u, v)
  {
    forall i1, j1, i2, j2 ::
      && 0 <= i1 < u && 0 <= j1 < v && 0 <= i2 < u && 0 <= j2 < v
      && (i1 != i2 || j1 != j2) && mask[j1][i1] != 0
      ==> mask[j1][i1] != mask[j2][i2]
  }

  /** All cells strictly before (i, j) in scan order are zero. */
  ghost predicate ClearedBefore(mask: seq<seq<int>>, u: nat, v: nat, i: nat, j: nat)
    requires Shaped(mask, u, v)
  {
    forall i', j' :: 0 <= i' < u && 0 <= j' < v && Before(i', j', i, j) ==> mask[j'][i'] == 0
  }

  ghost predicate AllZero(mask: seq<seq<int>>, u: nat, v: nat)
    requires Shaped(mask, u, v)
  {
    forall i, j :: 0 <= i < u && 0 <= j < v ==> mask[j][i] == 0
  }

  /** Two masks agree on cell (i, j) and every later cell. */
  ghost predicate AgreeFrom(m1: seq<seq<int>>, m2: seq<seq<int>>, u: nat, v: nat, i: nat, j: nat)
    requires Shaped(m1, u, v) && Shaped(m2, u, v)
  {
    forall i', j' :: 0 <= i' < u && 0 <= j' < v && !Before(i', j', i, j) ==> m1[j'][i'] == m2[j'][i']
  }

  /** `while (i + w < dims[u] && mask[n + w] == c) w++;` */
  function RunWidth(row: seq<int>, i: nat, c: int, w: nat): (r: nat)
    requires i + w <= |row| && 1 <= w
    ensures w <= r && i + r <= |row|
    ensures forall x :: i + w <= x < i + r ==> row[x] == c
    ensures i + r < |row| ==> row[i + r] != c
    decreases |row| - w
  {
    if i + w < |row| && row[i + w] == c then RunWidth(row, i, c, w + 1) else w
  }

  /** The inner `for k < w` test of the height loop: row segment [i, i+w) repeats c. */
  predicate SegmentMatches(row: seq<int>, i: nat, w: nat, c: int)
    requires i + w <= |row|
  {
    forall x :: i <= x < i + w ==> row[x] == c
  }

  /** The height loop: grow h while the next row's segment repeats c. */
  function RunHeight(mask: seq<seq<int>>, u: nat, v: nat, i: nat, j: nat, w: nat, c: int, h: nat): (r: nat)
    requires Shaped(mask, u, v)
    requires i + w <= u && j + h <= v && 1 <= h
    ensures h <= r && j + r <= v
    ensures forall y :: j + h <= y < j + r ==> SegmentMatches(mask[y], i, w, c)
    ensures j + r < v ==> !SegmentMatches(mask[j + r], i, w, c)
    decreases v - h
  {
    if j + h < v && SegmentMatches(mask[j + h], i, w, c) then RunHeight(mask, u, v, i, j, w, c, h + 1) else h
  }

  /** Zero the w-by-h rectangle with corner (i, j). */
  function ClearRect(mask: seq<seq<int>>, u: nat, v: nat, i: nat, j: nat, w: nat, h: nat): (r: seq<seq<int>>)
    requires Shaped(mask, u, v)
    ensures Shaped(r, u, v)
    ensures forall x, y :: 0 <= x < u && 0 <= y < v ==>
      r[y][x] == (if i <= x < i + w && j <= y < j + h then 0 else mask[y][x])
  {
    seq(v, y requires 0 <= y < v =>
      if j <= y < j + h then seq(u, x requires 0 <= x < u => if i <= x < i + w then 0 else mask[y][x])
      else mask[y])
  }

  /** The scan from cell (i, j) on: the rectangles it emits and the mask it leaves. */
  function Scan(mask: seq<seq<int>>, u: nat, v: nat, i: nat, j: nat): (r: Merged)
    requires Shaped(mask, u, v) && i <= u
    ensures Shaped(r.mask, u, v)
    decreases v - j, u - i
  {
    if j >= v then Merged([], mask)
    else if i == u then Scan(mask, u, v, 0, j + 1)
    else if mask[j][i] == 0 then Scan(mask, u, v, i + 1, j)
    else
      var c := mask[j][i];
      var w := RunWidth(mask[j], i, c, 1);
      var h := RunHeight(mask, u, v, i, j, w, c, 1);
      var rest := Scan(ClearRect(mask, u, v, i, j, w, h), u, v, i + w, j);
      Merged([Rect(i, j, w, h, c)] + rest.rects, rest.mask)
  }

  /** The whole-slice merge, as CreateMesh runs it once per sweep position. */
  function Merge(mask: seq<seq<int>>, u: nat, v: nat): (r: Merged)
    requires Shaped(mask, u, v)
    ensures Shaped(r.mask, u, v)
  {
    Scan(mask, u, v, 0, 0)
  }

  /** Rectangle lies inside the u-by-v slice and is at least one cell. */
  predicate Inside(r: Rect, u: nat, v: nat) {
    1 <= r.w && 1 <= r.h && r.i + r.w <= u && r.j + r.h <= v
  }

  lemma {:induction false} ScanRectsInside(mask: seq<seq<int>>, u: nat, v: nat, i: nat, j: nat)
    requires Shaped(mask, u, v) && i <= u
    ensures forall k :: 0 <= k < |Scan(mask, u, v, i, j).rects| ==> Inside(Scan(mask, u, v, i, j).rects[k], u, v)
    decreases v - j, u - i
  {
    if j >= v {
    } else if i == u {
      ScanRectsInside(mask, u, v, 0, j + 1);
    } else if mask[j][i] == 0 {
      ScanRectsInside(mask, u, v, i + 1, j);
    } else {
      var c := mask[j][i];
      var w := RunWidth(mask[j], i, c, 1);
      var h := RunHeight(mask, u, v, i, j, w, c, 1);
      ScanRectsInside(ClearRect(mask, u, v, i, j, w, h), u, v, i + w, j);
    }
  }

  /** Every emitted rectangle lies inside [0, u) x [0, v). */
  lemma MergeRectsInside(mask: seq<seq<int>>, u: nat, v: nat)
    requires Shaped(mask, u, v)
    ensures forall k :: 0 <= k < |Merge(mask, u, v).rects| ==> Inside(Merge(mask, u, v).rects[k], u, v)
  {
    ScanRectsInside(mask, u, v, 0, 0);
  }

  lemma {:induction false} ScanClears(mask: seq<seq<int>>, u: nat, v: nat, i: nat, j: nat)
    requires Shaped(mask, u, v) && i <= u
    requires ClearedBefore(mask, u, v, i, j)
    ensures AllZero(Scan(mask, u, v, i, j).mask, u, v)
    decreases v - j, u - i
  {
    if j >= v {
    } else if i == u {
      ScanClears(mask, u, v, 0, j + 1);
    } else if mask[j][i] == 0 {
      ScanClears(mask, u, v, i + 1, j);
    } else {
      var c := mask[j][i];
      var w := RunWidth(mask[j], i, c, 1);
      var h := RunHeight(mask, u, v, i, j, w, c, 1);
      var m' := ClearRect(mask, u, v, i, j, w, h);
      ClearRunCleared(mask, u, v, i, j, w, h);
      ScanClears(m', u, v, i + w, j);
    }
  }

  /** Clearing the rectangle of the run that starts at (i, j) leaves every
      cell before (i + w, j) zero. */
  lemma ClearRunCleared(mask: seq<seq<int>>, u: nat, v: nat, i: nat, j: nat, w: nat, h: nat)
    requires Shaped(mask, u, v) && i + w <= u && j < v && 1 <= h
    requires ClearedBefore(mask, u, v, i, j)
    ensures ClearedBefore(ClearRect(mask, u, v, i, j, w, h), u, v, i + w, j)
  {
    var m' := ClearRect(mask, u, v, i, j, w, h);
    forall i', j' | 0 <= i' < u && 0 <= j' < v && Before(i', j', i + w, j)
      ensures m'[j'][i'] == 0
    {
      if !Before(i', j', i, j) {
        assert j' == j && i <= i' < i + w;
      }
    }
  }

  /** After a slice is merged the mask is entirely zero again, ready for the
      next sweep position. */
  lemma MergeClearsMask(mask: seq<seq<int>>, u: nat, v: nat)
    requires Shaped(mask, u, v)
    ensures AllZero(Merge(mask, u, v).mask, u, v)
  {
    ScanClears(mask, u, v, 0, 0);
  }

  /** The unit rectangles of the non-zero cells from (i, j) on, in scan order:
      the reference the merge is compared with when codes are distinct. */
  function Cells(mask: seq<seq<int>>, u: nat, v: nat, i: nat, j: nat): seq<Rect>
    requires Shaped(mask, u, v) && i <= u
    decreases v - j, u - i
  {
    if j >= v then []
    else if i == u then Cells(mask, u, v, 0, j + 1)
    else if mask[j][i] == 0 then Cells(mask, u, v, i + 1, j)
    else [Rect(i, j, 1, 1, mask[j][i])] + Cells(mask, u, v, i + 1, j)
  }

  lemma {:induction false} CellsAgree(m1: seq<seq<int>>, m2: seq<seq<int>>, u: nat, v: nat, i: nat, j: nat)
    requires Shaped(m1, u, v) && Shaped(m2, u, v) && i <= u
    requires AgreeFrom(m1, m2, u, v, i, j)
    ensures Cells(m1, u, v, i, j) == Cells(m2, u, v, i, j)
    decreases v - j, u - i
  {
    if j >= v {
    } else if i == u {
      CellsAgree(m1, m2, u, v, 0, j + 1);
    } else {
      CellsAgree(m1, m2, u, v, i + 1, j);
    }
  }

  lemma {:induction false} ScanDistinct(mask: seq<seq<int>>, u: nat, v: nat, i: nat, j: nat)
    requires Shaped(mask, u, v) && i <= u
    requires DistinctCodes(mask, u, v)
    ensures Scan(mask, u, v, i, j).rects == Cells(mask, u, v, i, j)
    decreases v - j, u - i
  {
    if j >= v {
    } else if i == u {
      ScanDistinct(mask, u, v, 0, j + 1);
    } else if mask[j][i] == 0 {
      ScanDistinct(mask, u, v, i + 1, j);
    } else {
      var c := mask[j][i];
      var w := RunWidth(mask[j], i, c, 1);
      assert w == 1;
      var h := RunHeight(mask, u, v, i, j, w, c, 1);
      if j + 1 < v {
        assert mask[j + 1][i] != c;
        assert !SegmentMatches(mask[j + 1], i, 1, c);
      }
      assert h == 1;
      var m' := ClearRect(mask, u, v, i, j, 1, 1);
      assert DistinctCodes(m', u, v);
      ScanDistinct(m', u, v, i + 1, j);
      CellsAgree(m', mask, u, v, i + 1, j);
    }
  }

  /** Because each non-zero code of a mask occurs only once, the run loops
      never extend a rectangle: the merge emits exactly one 1x1 rectangle per
      non-zero cell, in scan order, carrying that cell's code. */
  lemma DistinctMergeIsUnitCells(mask: seq<seq<int>>, u: nat, v: nat)
    requires Shaped(mask, u, v)
    requires DistinctCodes(mask, u, v)
    ensures Merge(mask, u, v).rects == Cells(mask, u, v, 0, 0)
    ensures forall k :: 0 <= k < |Merge(mask, u, v).rects| ==>
      Merge(mask, u, v).rects[k].w == 1 && Merge(mask, u, v).rects[k].h == 1
  {
    ScanDistinct(mask, u, v, 0, 0);
    CellsUnit(mask, u, v, 0, 0);
  }

  lemma {:induction false} CellsUnit(mask: seq<seq<int>>, u: nat, v: nat, i: nat, j: nat)
    requires Shaped(mask, u, v) && i <= u
    ensures forall k :: 0 <= k < |Cells(mask, u, v, i, j)| ==>
      var r := Cells(mask, u, v, i, j)[k];
      && r.w == 1 && r.h == 1 && r.i < u && r.j < v
      && r.code == mask[r.j][r.i] && r.code != 0
    decreases v - j, u - i
  {
    if j >= v {
    } else if i == u {
      CellsUnit(mask, u, v, 0, j + 1);
    } else {
      CellsUnit(mask, u, v, i + 1, j);
    }
  }
}
