/**
 FreeListAllocator (src/Rendering/allocator.cpp): the free space of a GPU
 buffer as a list of (offset, size) ranges in units of elements. Allocation
 is first-fit and carves from the front of a range; freeing appends the
 range, sorts by offset and merges neighbours that touch.

 The list is a sequence; every uint32 sum is wrapped as in C++. The
 properties are stated over the set of free units a list covers.
 */
module Allocator {
  import opened Base

  datatype FreeRange = FreeRange(offset: U32, size: U32) {
    /** One past the last unit, without wrap-around. */
    function End(): nat {
      offset + size
    }
  }

  type FreeList = seq<FreeRange>

  /** The units [offset, offset + size). */
  function Units(offset: nat, size: nat): (s: set<nat>)
    ensures forall u :: u in s <==> offset <= u < offset + size
    decreases size
  {
    if size == 0 then {} else {offset} + Units(offset + 1, size - 1)
  }

  /** The free units a list describes. */
  ghost function Covered(rs: FreeList): set<nat>
    decreases |rs|
  {
    if rs == [] then {} else Units(rs[0].offset, rs[0].size) + Covered(rs[1..])
  }

  /** Total free space, the sum of the sizes. */
  function Total(rs: FreeList): nat
    decreases |rs|
  {
    if rs == [] then 0 else rs[0].size + Total(rs[1..])
  }

  /** No range runs past the last uint32 value, so no sum of an offset and
      a size wraps. */
  predicate AllBounded(rs: FreeList) {
    forall i :: 0 <= i < |rs| ==> rs[i].End() <= U32Max
  }

  /** The well-formed free list: bounded, non-empty ranges in increasing
      offset order, each ending at or before the next begins. */
  predicate Valid(rs: FreeList) {
    && AllBounded(rs)
    && (forall i :: 0 <= i < |rs| ==> rs[i].size > 0)
    && (forall i :: 0 <= i < |rs| - 1 ==> rs[i].End() <= rs[i + 1].offset)
  }

  /** In a valid list every range ends before any later one starts. */
  lemma {:induction false} ValidOrdered(rs: FreeList, i: nat, j: nat)
    requires Valid(rs) && i < j < |rs|
    ensures rs[i].End() <= rs[j].offset
    decreases j - i
  {
    if i + 1 < j {
      ValidOrdered(rs, i + 1, j);
    }
  }

  /** No range ends exactly where the next one starts (uint32 sum, as the
      merge loop compares it). */
  predicate NoneAdjacent(rs: FreeList) {
    forall i :: 0 <= i < |rs| - 1 ==> AddU32(rs[i].offset, rs[i].size) != rs[i + 1].offset
  }

  /** FreeListAllocator::init. */
  function Init(totalSize: U32): (rs: FreeList)
    ensures |rs| == 1 && Total(rs) == totalSize
    ensures Valid(rs) <==> totalSize > 0
    ensures NoneAdjacent(rs)
  {
    [FreeRange(0, totalSize)]
  }

  /** The free units after init are exactly [0, totalSize). */
  lemma InitCovers(totalSize: U32)
    ensures Covered(Init(totalSize)) == Units(0, totalSize)
  {
    assert Init(totalSize)[1..] == [];
  }

  /** The allocate loop from position i: the first range that can hold `size`. */
  function FirstFit(rs: FreeList, size: U32, i: nat): (k: Option<nat>)
    requires i <= |rs|
    ensures k.Some? ==> i <= k.value < |rs| && rs[k.value].size >= size
    ensures k.Some? ==> forall j :: i <= j < k.value ==> rs[j].size < size
    ensures k.None? ==> forall j :: i <= j < |rs| ==> rs[j].size < size
    decreases |rs| - i
  {
    if i == |rs| then None
    else if rs[i].size >= size then Some(i)
    else FirstFit(rs, size, i + 1)
  }

  /** The offset allocate returns (UINT32_MAX when nothing fits) and the list after. */
  datatype Allocation = Allocation(offset: U32, ranges: FreeList)

  /** FreeListAllocator::allocate. */
  function Allocate(rs: FreeList, size: U32): (a: Allocation)
    ensures (forall j :: 0 <= j < |rs| ==> rs[j].size < size) ==> a == Allocation(U32Max, rs)
    ensures |a.ranges| <= |rs|
  {
    match FirstFit(rs, size, 0)
    case None => Allocation(U32Max, rs)
    case Some(k) =>
      var r := rs[k];
      var rest := FreeRange(AddU32(r.offset, size), r.size - size);
      if rest.size == 0 then Allocation(r.offset, rs[..k] + rs[k + 1..])
      else Allocation(r.offset, rs[k := rest])
  }

  /** First fit: when range k is the first large enough, allocate returns its
      offset and shrinks it from the front, erasing it once empty; no other
      range changes. */
  lemma AllocateFirstFit(rs: FreeList, size: U32, k: nat)
    requires AllBounded(rs)
    requires k < |rs| && rs[k].size >= size
    requires forall j :: 0 <= j < k ==> rs[j].size < size
    ensures var a := Allocate(rs, size);
      && a.offset == rs[k].offset
      && (rs[k].size == size ==> a.ranges == rs[..k] + rs[k + 1..])
      && (rs[k].size > size ==> a.ranges == rs[..k] + [FreeRange(rs[k].offset + size, rs[k].size - size)] + rs[k + 1..])
  {
    var rest := FreeRange(rs[k].offset + size, rs[k].size - size);
    assert rs[k := rest] == rs[..k] + [rest] + rs[k + 1..];
  }

  /** On a valid list UINT32_MAX is returned exactly when no range fits. */
  lemma AllocateSentinel(rs: FreeList, size: U32)
    requires Valid(rs)
    ensures Allocate(rs, size).offset == U32Max <==> forall j :: 0 <= j < |rs| ==> rs[j].size < size
  {
    var f := FirstFit(rs, size, 0);
    if f.Some? {
      assert rs[f.value].offset < U32Max;
    }
  }

  lemma {:induction false} CoveredAppend(a: FreeList, b: FreeList)
    ensures Covered(a + b) == Covered(a) + Covered(b)
    decreases |a|
  {
    if a != [] {
      assert (a + b)[0] == a[0] && (a + b)[1..] == a[1..] + b;
      CoveredAppend(a[1..], b);
    } else {
      assert a + b == b;
    }
  }

  lemma {:induction false} TotalAppend(a: FreeList, b: FreeList)
    ensures Total(a + b) == Total(a) + Total(b)
    decreases |a|
  {
    if a != [] {
      assert (a + b)[0] == a[0] && (a + b)[1..] == a[1..] + b;
      TotalAppend(a[1..], b);
    } else {
      assert a + b == b;
    }
  }

  lemma CoveredSingle(r: FreeRange)
    ensures Covered([r]) == Units(r.offset, r.size)
    ensures Total([r]) == r.size
  {
    assert [r][1..] == [];
  }

  /** Units of a list all of whose ranges end by `bound` lie below it. */
  lemma {:induction false} CoveredBelow(rs: FreeList, bound: nat)
    requires forall i :: 0 <= i < |rs| ==> rs[i].End() <= bound
    ensures forall u :: u in Covered(rs) ==> u < bound
    decreases |rs|
  {
    if rs != [] {
      assert forall i :: 0 <= i < |rs[1..]| ==> rs[1..][i] == rs[i + 1];
      CoveredBelow(rs[1..], bound);
    }
  }

  /** Units of a list all of whose ranges start at `bound` or later lie at or above it. */
  lemma {:induction false} CoveredAbove(rs: FreeList, bound: nat)
    requires forall i :: 0 <= i < |rs| ==> rs[i].offset >= bound
    ensures forall u :: u in Covered(rs) ==> u >= bound
    decreases |rs|
  {
    if rs != [] {
      assert forall i :: 0 <= i < |rs[1..]| ==> rs[1..][i] == rs[i + 1];
      CoveredAbove(rs[1..], bound);
    }
  }

  /** The three-way split of a list around position k. */
  lemma CoveredAround(rs: FreeList, k: nat)
    requires k < |rs|
    ensures Covered(rs) == Covered(rs[..k]) + Units(rs[k].offset, rs[k].size) + Covered(rs[k + 1..])
    ensures Total(rs) == Total(rs[..k]) + rs[k].size + Total(rs[k + 1..])
  {
    var pre, mid, suf := rs[..k], [rs[k]], rs[k + 1..];
    assert rs == (pre + mid) + suf;
    CoveredAppend(pre + mid, suf);
    CoveredAppend(pre, mid);
    TotalAppend(pre + mid, suf);
    TotalAppend(pre, mid);
    CoveredSingle(rs[k]);
  }

  /** In a valid list no unit of range k is covered by the ranges before
      or after it. */
  lemma OthersAroundRange(rs: FreeList, k: nat)
    requires Valid(rs) && k < |rs|
    ensures Covered(rs[..k]) !! Units(rs[k].offset, rs[k].size)
    ensures Covered(rs[k + 1..]) !! Units(rs[k].offset, rs[k].size)
  {
    var pre, suf := rs[..k], rs[k + 1..];
    forall i | 0 <= i < |pre|
      ensures pre[i].End() <= rs[k].offset
    {
      ValidOrdered(rs, i, k);
    }
    CoveredBelow(pre, rs[k].offset);
    forall i | 0 <= i < |suf|
      ensures suf[i].offset >= rs[k].End()
    {
      assert suf[i] == rs[k + 1 + i];
      ValidOrdered(rs, k, k + 1 + i);
    }
    CoveredAbove(suf, rs[k].End());
  }

  /** [o, o + a + b) is [o, o + a) followed by [o + a, o + a + b). */
  lemma UnitsSplit(offset: nat, a: nat, b: nat)
    ensures Units(offset, a + b) == Units(offset, a) + Units(offset + a, b)
    ensures Units(offset, a) !! Units(offset + a, b)
  {
  }

  /** Removing a part that none of the other parts touch. */
  lemma RemovePart(pre: set<nat>, taken: set<nat>, left: set<nat>, suf: set<nat>)
    requires taken !! pre && taken !! left && taken !! suf
    ensures pre + left + suf == (pre + (taken + left) + suf) - taken
    ensures taken <= pre + (taken + left) + suf
  {
  }

  /** Taking the first `size` units of range k (all of them, or a proper
      prefix) removes exactly those units from the free set. */
  lemma TakeFront(rs: FreeList, k: nat, size: nat, out: FreeList)
    requires Valid(rs) && k < |rs| && size <= rs[k].size
    requires size == rs[k].size ==> out == rs[..k] + rs[k + 1..]
    requires size < rs[k].size ==> out == rs[..k] + [FreeRange(rs[k].offset + size, rs[k].size - size)] + rs[k + 1..]
    ensures Units(rs[k].offset, size) <= Covered(rs)
    ensures Covered(out) == Covered(rs) - Units(rs[k].offset, size)
    ensures Total(out) + size == Total(rs)
  {
    var r := rs[k];
    var pre, suf := rs[..k], rs[k + 1..];
    CoveredAround(rs, k);
    OthersAroundRange(rs, k);
    var taken, left := Units(r.offset, size), Units(r.offset + size, r.size - size);
    UnitsSplit(r.offset, size, r.size - size);
    RemovePart(Covered(pre), taken, left, Covered(suf));
    TakenAround(rs, k, size, out);
  }

  /** The list after the take is the ranges around k with what is left of
      range k between them. */
  lemma TakenAround(rs: FreeList, k: nat, size: nat, out: FreeList)
    requires Valid(rs) && k < |rs| && size <= rs[k].size
    requires size == rs[k].size ==> out == rs[..k] + rs[k + 1..]
    requires size < rs[k].size ==> out == rs[..k] + [FreeRange(rs[k].offset + size, rs[k].size - size)] + rs[k + 1..]
    ensures Covered(out) == Covered(rs[..k]) + Units(rs[k].offset + size, rs[k].size - size) + Covered(rs[k + 1..])
    ensures Total(out) == Total(rs[..k]) + (rs[k].size - size) + Total(rs[k + 1..])
  {
    var r := rs[k];
    var pre, suf := rs[..k], rs[k + 1..];
    if size == r.size {
      CoveredAppend(pre, suf);
      TotalAppend(pre, suf);
      assert Units(r.offset + size, 0) == {};
    } else {
      var rest := FreeRange(r.offset + size, r.size - size);
      assert out[k] == rest && out[..k] == pre && out[k + 1..] == suf;
      CoveredAround(out, k);
    }
  }

  /** A successful allocation on a valid list takes exactly the units
      [offset, offset + size) out of the free set, all of which were free,
      and the total drops by `size`. */
  lemma AllocateTakes(rs: FreeList, size: U32, k: nat)
    requires Valid(rs)
    requires k < |rs| && rs[k].size >= size
    requires forall j :: 0 <= j < k ==> rs[j].size < size
    ensures var a := Allocate(rs, size);
      && Units(a.offset, size) <= Covered(rs)
      && Covered(a.ranges) == Covered(rs) - Units(a.offset, size)
      && Total(a.ranges) + size == Total(rs)
  {
    AllocateFirstFit(rs, size, k);
    TakeFront(rs, k, size, Allocate(rs, size).ranges);
  }

  /** Taking the front of range k keeps a valid list valid. */
  lemma TakeFrontValid(rs: FreeList, k: nat, size: nat, out: FreeList)
    requires Valid(rs) && k < |rs| && size <= rs[k].size
    requires size == rs[k].size ==> out == rs[..k] + rs[k + 1..]
    requires size < rs[k].size ==> out == rs[..k] + [FreeRange(rs[k].offset + size, rs[k].size - size)] + rs[k + 1..]
    ensures Valid(out)
  {
    if size == rs[k].size {
      RemoveValid(rs, k);
    } else {
      ShrinkValid(rs, k, size);
    }
  }

  /** Dropping range k keeps a valid list valid. */
  lemma RemoveValid(rs: FreeList, k: nat)
    requires Valid(rs) && k < |rs|
    ensures Valid(rs[..k] + rs[k + 1..])
  {
    var out := rs[..k] + rs[k + 1..];
    assert |out| == |rs| - 1;
    assert forall i :: 0 <= i < k ==> out[i] == rs[i];
    assert forall i :: k <= i < |out| ==> out[i] == rs[i + 1];
    if 0 < k < |out| {
      ValidOrdered(rs, k - 1, k + 1);
    }
  }

  /** Moving the start of range k up, short of its end, keeps a valid list valid. */
  lemma ShrinkValid(rs: FreeList, k: nat, size: nat)
    requires Valid(rs) && k < |rs| && size < rs[k].size
    ensures Valid(rs[..k] + [FreeRange(rs[k].offset + size, rs[k].size - size)] + rs[k + 1..])
  {
    var out := rs[..k] + [FreeRange(rs[k].offset + size, rs[k].size - size)] + rs[k + 1..];
    assert |out| == |rs|;
    assert forall i :: 0 <= i < |out| && i != k ==> out[i] == rs[i];
  }

  /** Allocation keeps a valid list valid. */
  lemma AllocateValid(rs: FreeList, size: U32)
    requires Valid(rs)
    ensures Valid(Allocate(rs, size).ranges)
  {
    var f := FirstFit(rs, size, 0);
    if f.Some? {
      AllocateFirstFit(rs, size, f.value);
      TakeFrontValid(rs, f.value, size, Allocate(rs, size).ranges);
    }
  }

  /** The sort step of free on a list already in offset order: the new range
      goes after every range whose offset is not larger. */
  function InsertByOffset(rs: FreeList, r: FreeRange): (out: FreeList)
    ensures |out| == |rs| + 1
    decreases |rs|
  {
    if rs == [] then [r]
    else if rs[0].offset <= r.offset then [rs[0]] + InsertByOffset(rs[1..], r)
    else [r] + rs
  }

  /** Inserting permutes: the covered set gains the range, the total its size. */
  lemma {:induction false} InsertCovers(rs: FreeList, r: FreeRange)
    ensures Covered(InsertByOffset(rs, r)) == Covered(rs) + Units(r.offset, r.size)
    ensures Total(InsertByOffset(rs, r)) == Total(rs) + r.size
    ensures AllBounded(rs) && r.End() <= U32Max ==> AllBounded(InsertByOffset(rs, r))
    decreases |rs|
  {
    var out := InsertByOffset(rs, r);
    if rs == [] {
      CoveredSingle(r);
    } else if rs[0].offset <= r.offset {
      InsertCovers(rs[1..], r);
      assert out[1..] == InsertByOffset(rs[1..], r);
    } else {
      assert out[1..] == rs;
    }
  }

  /** The range fits in a gap of the list: it overlaps no range. */
  predicate FitsBetween(rs: FreeList, r: FreeRange) {
    forall i :: 0 <= i < |rs| ==> rs[i].End() <= r.offset || r.End() <= rs[i].offset
  }

  /** Inserting a non-empty range into a gap of a valid list gives a valid list. */
  lemma {:induction false} InsertValid(rs: FreeList, r: FreeRange)
    requires Valid(rs) && r.size > 0 && r.End() <= U32Max && FitsBetween(rs, r)
    ensures Valid(InsertByOffset(rs, r))
    decreases |rs|
  {
    if rs == [] {
      assert InsertByOffset(rs, r) == [r];
    } else if rs[0].offset <= r.offset {
      var tail := InsertByOffset(rs[1..], r);
      assert InsertByOffset(rs, r) == [rs[0]] + tail;
      assert forall i :: 0 <= i < |rs[1..]| ==> rs[1..][i] == rs[i + 1];
      InsertValid(rs[1..], r);
      assert |rs| > 1 && rs[1].offset <= r.offset ==> tail[0] == rs[1];
      assert !(|rs| > 1 && rs[1].offset <= r.offset) ==> tail[0] == r;
      ConsValid(rs[0], tail);
    } else {
      assert InsertByOffset(rs, r) == [r] + rs;
      ConsValid(r, rs);
    }
  }

  /** The elements after insertion are the old ones and the new one. */
  lemma {:induction false} InsertMembers(rs: FreeList, r: FreeRange)
    ensures forall x :: x in InsertByOffset(rs, r) ==> x == r || x in rs
    decreases |rs|
  {
    if rs != [] && rs[0].offset <= r.offset {
      InsertMembers(rs[1..], r);
    }
  }

  /** The merge loop of free: a range absorbs its successor while the
      successor starts where it ends (uint32 sums, as in C++). */
  function Coalesce(rs: FreeList): (out: FreeList)
    ensures |out| <= |rs|
    ensures |rs| > 0 ==> |out| > 0 && out[0].offset == rs[0].offset
    ensures NoneAdjacent(out)
    decreases |rs|
  {
    if |rs| < 2 then rs
    else if AddU32(rs[0].offset, rs[0].size) == rs[1].offset then
      Coalesce([FreeRange(rs[0].offset, AddU32(rs[0].size, rs[1].size))] + rs[2..])
    else
      [rs[0]] + Coalesce(rs[1..])
  }

  /** A front range that does not touch the next one is kept in front, and
      Coalesce goes on from the rest. */
  lemma KeepFrontCovers(rs: FreeList)
    requires AllBounded(rs) && |rs| >= 2 && AddU32(rs[0].offset, rs[0].size) != rs[1].offset
    ensures AllBounded(rs[1..])
    ensures AllBounded(Coalesce(rs[1..])) ==> AllBounded(Coalesce(rs))
    ensures Covered(Coalesce(rs)) == Units(rs[0].offset, rs[0].size) + Covered(Coalesce(rs[1..]))
    ensures Total(Coalesce(rs)) == rs[0].size + Total(Coalesce(rs[1..]))
  {
    var out := Coalesce(rs);
    assert out == [rs[0]] + Coalesce(rs[1..]);
    assert out[1..] == Coalesce(rs[1..]);
    assert forall i :: 0 <= i < |rs[1..]| ==> rs[1..][i] == rs[i + 1];
    if AllBounded(Coalesce(rs[1..])) {
      assert forall i :: 0 < i < |out| ==> out[i] == Coalesce(rs[1..])[i - 1];
    }
  }

  /** Merging the two touching ranges in front keeps the units, the total
      and the bounds, and Coalesce goes on from the merged list. */
  lemma MergeFrontCovers(rs: FreeList, next: FreeList)
    requires AllBounded(rs) && |rs| >= 2 && AddU32(rs[0].offset, rs[0].size) == rs[1].offset
    requires rs[0].size + rs[1].size <= U32Max
    requires next == [FreeRange(rs[0].offset, rs[0].size + rs[1].size)] + rs[2..]
    ensures AllBounded(next) && Coalesce(rs) == Coalesce(next)
    ensures Covered(next) == Covered(rs) && Total(next) == Total(rs)
  {
    var a, b := rs[0], rs[1];
    assert a.End() <= U32Max && b.End() <= U32Max;
    assert b.offset == a.offset + a.size;
    var m := next[0];
    var merged := FreeRange(a.offset, AddU32(a.size, b.size));
    assert merged == m;
    assert Coalesce(rs) == Coalesce([merged] + rs[2..]);
    assert next[1..] == rs[2..] && rs[1..][1..] == rs[2..];
    assert AllBounded(next) by {
      forall i | 0 <= i < |next|
        ensures next[i].End() <= U32Max
      {
        if i > 0 {
          assert next[i] == rs[i + 1];
        }
      }
    }
    UnitsSplit(a.offset, a.size, b.size);
    assert Covered(rs) == Units(a.offset, a.size) + (Units(b.offset, b.size) + Covered(rs[2..]));
    assert Covered(next) == Units(m.offset, m.size) + Covered(rs[2..]);
    assert Total(rs) == a.size + (b.size + Total(rs[2..]));
  }

  /** Merging touching bounded ranges loses and adds no unit and keeps the
      list bounded. */
  lemma {:induction false} CoalesceCovers(rs: FreeList)
    requires AllBounded(rs)
    ensures AllBounded(Coalesce(rs))
    ensures Covered(Coalesce(rs)) == Covered(rs)
    ensures Total(Coalesce(rs)) == Total(rs)
    decreases |rs|
  {
    if |rs| >= 2 {
      var a, b := rs[0], rs[1];
      if AddU32(a.offset, a.size) == b.offset {
        assert a.End() <= U32Max && b.End() <= U32Max;
        var next := [FreeRange(a.offset, a.size + b.size)] + rs[2..];
        MergeFrontCovers(rs, next);
        CoalesceCovers(next);
      } else {
        KeepFrontCovers(rs);
        CoalesceCovers(rs[1..]);
      }
    }
  }

  /** Merging the first two ranges of a valid list, when they touch, leaves a valid list. */
  lemma MergeFrontValid(rs: FreeList)
    requires Valid(rs) && |rs| >= 2 && AddU32(rs[0].offset, rs[0].size) == rs[1].offset
    ensures rs[0].size + rs[1].size <= U32Max
    ensures Valid([FreeRange(rs[0].offset, rs[0].size + rs[1].size)] + rs[2..])
  {
    assert rs[0].End() == rs[1].offset;
    var next := [FreeRange(rs[0].offset, rs[0].size + rs[1].size)] + rs[2..];
    assert forall i :: 0 < i < |next| ==> next[i] == rs[i + 1];
  }

  /** Two touching ranges in front merge before the rest is coalesced. */
  lemma MergeFrontFirst(rs: FreeList)
    requires Valid(rs) && |rs| >= 2 && AddU32(rs[0].offset, rs[0].size) == rs[1].offset
    ensures rs[0].size + rs[1].size <= U32Max
    ensures Coalesce(rs) == Coalesce([FreeRange(rs[0].offset, rs[0].size + rs[1].size)] + rs[2..])
  {
    assert rs[0].End() <= U32Max && rs[1].End() <= U32Max;
    var merged := FreeRange(rs[0].offset, AddU32(rs[0].size, rs[1].size));
    assert merged == FreeRange(rs[0].offset, rs[0].size + rs[1].size);
    assert Coalesce(rs) == Coalesce([merged] + rs[2..]);
  }

  /** A front range that does not touch the next one stays in front. */
  lemma KeepFrontValid(rs: FreeList)
    requires Valid(rs) && |rs| >= 2 && AddU32(rs[0].offset, rs[0].size) != rs[1].offset
    ensures Valid(rs[1..])
    ensures Valid(Coalesce(rs[1..])) ==> Valid(Coalesce(rs))
  {
    assert forall i :: 0 <= i < |rs[1..]| ==> rs[1..][i] == rs[i + 1];
    if Valid(Coalesce(rs[1..])) {
      assert Coalesce(rs) == [rs[0]] + Coalesce(rs[1..]);
      ConsValid(rs[0], Coalesce(rs[1..]));
    }
  }

  /** A valid list with a bounded non-empty range in front that ends by its start. */
  lemma ConsValid(a: FreeRange, tail: FreeList)
    requires Valid(tail) && a.size > 0 && a.End() <= U32Max
    requires |tail| > 0 ==> a.End() <= tail[0].offset
    ensures Valid([a] + tail)
  {
    assert forall i :: 0 < i < |[a] + tail| ==> ([a] + tail)[i] == tail[i - 1];
  }

  /** Merging keeps a valid list valid. */
  lemma {:induction false} CoalesceValid(rs: FreeList)
    requires Valid(rs)
    ensures Valid(Coalesce(rs))
    decreases |rs|
  {
    if |rs| >= 2 {
      if AddU32(rs[0].offset, rs[0].size) == rs[1].offset {
        MergeFrontValid(rs);
        MergeFrontFirst(rs);
        CoalesceValid([FreeRange(rs[0].offset, rs[0].size + rs[1].size)] + rs[2..]);
      } else {
        KeepFrontValid(rs);
        CoalesceValid(rs[1..]);
      }
    }
  }

  /** FreeListAllocator::free on a list in offset order. */
  function Free(rs: FreeList, offset: U32, size: U32): (out: FreeList)
    ensures NoneAdjacent(out)
    ensures 0 < |out| <= |rs| + 1
  {
    Coalesce(InsertByOffset(rs, FreeRange(offset, size)))
  }

  /** Freeing a bounded region adds exactly its units and its size, whether or
      not it touches a neighbour. */
  lemma FreeCovers(rs: FreeList, offset: U32, size: U32)
    requires AllBounded(rs) && offset + size <= U32Max
    ensures AllBounded(Free(rs, offset, size))
    ensures Covered(Free(rs, offset, size)) == Covered(rs) + Units(offset, size)
    ensures Total(Free(rs, offset, size)) == Total(rs) + size
  {
    var r := FreeRange(offset, size);
    InsertCovers(rs, r);
    CoalesceCovers(InsertByOffset(rs, r));
  }

  /** Freeing a non-empty region that lies in a gap keeps the list valid:
      sorted, disjoint, and with no two ranges touching. */
  lemma FreeValid(rs: FreeList, offset: U32, size: U32)
    requires Valid(rs) && size > 0 && offset + size <= U32Max
    requires FitsBetween(rs, FreeRange(offset, size))
    ensures Valid(Free(rs, offset, size)) && NoneAdjacent(Free(rs, offset, size))
  {
    InsertValid(rs, FreeRange(offset, size));
    CoalesceValid(InsertByOffset(rs, FreeRange(offset, size)));
  }

  /** free(allocate(n), n) gives back the free set and total the list had. */
  lemma AllocateFreeRoundTrip(rs: FreeList, size: U32, k: nat)
    requires Valid(rs)
    requires k < |rs| && rs[k].size >= size
    requires forall j :: 0 <= j < k ==> rs[j].size < size
    ensures var a := Allocate(rs, size);
      && a.offset + size <= U32Max
      && Covered(Free(a.ranges, a.offset, size)) == Covered(rs)
      && Total(Free(a.ranges, a.offset, size)) == Total(rs)
  {
    AllocateFirstFit(rs, size, k);
    AllocateTakes(rs, size, k);
    AllocateValid(rs, size);
    var a := Allocate(rs, size);
    FreeCovers(a.ranges, a.offset, size);
    GiveBack(Covered(rs), Units(a.offset, size));
  }

  lemma GiveBack(s: set<nat>, part: set<nat>)
    requires part <= s
    ensures (s - part) + part == s
  {
  }
}
