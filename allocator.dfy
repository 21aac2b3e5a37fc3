/**
 * The boundary-tag arena allocator my_allocator<T, N>.
 *
 * The N-byte arena is an array of N cells indexed by byte offset: the cell at
 * offset i holds the int whose first byte is at i, which is what operator[]
 * reads and writes. Only the cells at sentinel offsets carry meaning; payload
 * bytes are not modelled. The element type T enters only through its size.
 */
module Allocator {
  import opened Wrappers
  import opened Layout

  /** The two exceptions the allocator throws. */
  datatype Error = BadAlloc | InvalidArgument

  lemma {:induction false} MulGrows(count: int, elemSize: int)
    requires 0 < count && 0 < elemSize
    ensures count * elemSize >= elemSize
  {
  }

  /** The smallest block worth splitting off: one element and two sentinels. */
  function MinSize(elemSize: int): int {
    elemSize + 2 * SentinelSize
  }

  class MyAllocator {
    /** N, the arena size in bytes. */
    const n: int
    /** sizeof(T). */
    const elemSize: int
    /** min_size = sizeof(T) + 2 * sizeof(int). */
    const minSize: int
    /** The arena. */
    const a: array<int>
    /** The tag values of the blocks, in arena order. */
    ghost var blocks: seq<int>

    /**
     * The arena invariant that valid() checks after every operation, and that
     * every block has room for at least one element.
     */
    ghost predicate Valid()
      reads this, a
    {
      a.Length == n && 0 < elemSize && minSize == MinSize(elemSize) && minSize <= n &&
      WellFormed(blocks, n) && Roomy(blocks, minSize) && Laid(a[..], blocks, 0)
    }

    /** Write one free block over the whole arena. */
    constructor (n: int, elemSize: int)
      requires 0 < elemSize && MinSize(elemSize) <= n
      ensures Valid() && fresh(a)
      ensures this.n == n && this.elemSize == elemSize
      ensures blocks == Initial(n)
      ensures a[0] == n - 2 * SentinelSize && a[n - SentinelSize] == n - 2 * SentinelSize
    {
      var buf := new int[n];
      buf[0] := n - 2 * SentinelSize;
      buf[n - SentinelSize] := n - 2 * SentinelSize;
      this.n := n;
      this.elemSize := elemSize;
      minSize := MinSize(elemSize);
      a := buf;
      blocks := Initial(n);
      new;
      assert Initial(n)[1..] == [];
      TotalOne(n - 2 * SentinelSize);
    }

    /**
     * operator[]: the int stored at byte offset i. At the header of a block it
     * is that block's tag value.
     */
    function At(i: int): (v: int)
      reads this, a
      requires Valid() && 0 <= i <= n - SentinelSize
      ensures BlockAt(blocks, i) < |blocks| ==> v == blocks[BlockAt(blocks, i)]
    {
      HeaderHoldsTag(a[..], blocks, i);
      a[i]
    }

    /**
     * valid(): walk the sentinels from offset 0, header to next header, and
     * report whether the arena is consistent.
     */
    method IsValid() returns (ok: bool)
      requires a.Length == n
      ensures ok <==> Walk(a[..], 0, false).Some?
      ensures Valid() ==> ok
    {
      var off := 0;
      var prevFree := false;
      while off < n
        invariant 0 <= off <= n
        invariant Walk(a[..], 0, false).Some? == Walk(a[..], off, prevFree).Some?
        decreases n - off
      {
        var v := a[off];
        if v == 0 || off + Span(v) > n || a[off + Span(v) - SentinelSize] != v || (prevFree && v > 0) {
          WalkExact(a[..], blocks);
          return false;
        }
        off := off + Span(v);
        prevFree := v > 0;
      }
      ok := true;
    }

    /**
     * Whether p is the payload address of a block in use: walk the headers
     * until reaching p - sizeof(int) or passing it.
     */
    method IsLive(p: int) returns (live: bool)
      requires Valid()
      ensures live <==> BlockAt(blocks, p - SentinelSize) < |blocks| && blocks[BlockAt(blocks, p - SentinelSize)] < 0
    {
      var h := 0;
      ghost var k := 0;
      assert Start(blocks, 0) == 0 by { assert blocks[..0] == []; }
      while h != n && h < p - SentinelSize
        invariant 0 <= k <= |blocks| && h == Start(blocks, k)
        invariant forall j :: 0 <= j < k ==> Start(blocks, j) < p - SentinelSize
        decreases n - h
      {
        if k == |blocks| {
          StartEnd(blocks);
        }
        LaidAt(a[..], blocks, 0, k);
        StartNext(blocks, k);
        h := h + Span(a[h]);
        k := k + 1;
      }
      var target := p - SentinelSize;
      ghost var r := BlockAt(blocks, target);
      if h == n {
        StartEnd(blocks);
        if k < |blocks| {
          StartBelowTotal(blocks, k);
        }
        assert r == |blocks|;
        return false;
      }
      if k == |blocks| {
        StartEnd(blocks);
      }
      LaidAt(a[..], blocks, 0, k);
      if h == target {
        assert r == k;
        live := a[h] < 0;
      } else {
        if r < |blocks| && r > k {
          StartMono(blocks, k, r);
        }
        assert r == |blocks|;
        live := false;
      }
    }

    /**
     * The scan of allocate: from the header at offset 0, step from header to
     * next header until a block fits or the end of the arena is reached.
     */
    method Scan(size: int) returns (p: int, ghost k: nat)
      requires Valid()
      ensures FirstFit(blocks, size) == |blocks| ==> p == n
      ensures FirstFit(blocks, size) < |blocks| ==>
        p == Start(blocks, FirstFit(blocks, size)) < n && a[p] == blocks[FirstFit(blocks, size)]
      ensures k == FirstFit(blocks, size)
    {
      p, k := 0, 0;
      assert Start(blocks, 0) == 0 by { assert blocks[..0] == []; }
      while p != n
        invariant 0 <= k <= |blocks| && p == Start(blocks, k)
        invariant forall j :: 0 <= j < k ==> !Fits(blocks[j], size)
        decreases n - p
      {
        if k == |blocks| {
          StartEnd(blocks);
        }
        LaidAt(a[..], blocks, 0, k);
        if a[p] > 0 && a[p] > size {
          return;
        }
        StartNext(blocks, k);
        p := p + Span(a[p]);
        k := k + 1;
      }
      if k < |blocks| {
        StartBelowTotal(blocks, k);
      }
    }

    /**
     * allocate(num_obj): first fit from offset 0. A request for no elements
     * throws bad_alloc; when no block fits the result is null and nothing
     * changes; otherwise the served block's payload address is returned.
     */
    method Allocate(count: int) returns (r: Result<Option<int>, Error>)
      requires Valid()
      modifies this, a
      ensures Valid()
      ensures count <= 0 ==> r == Err(BadAlloc) && blocks == old(blocks) && a[..] == old(a[..])
      ensures count > 0 && FirstFit(old(blocks), count * elemSize) == |old(blocks)| ==>
        r == Ok(None) && blocks == old(blocks) && a[..] == old(a[..])
      ensures count > 0 && FirstFit(old(blocks), count * elemSize) < |old(blocks)| ==>
        var k := FirstFit(old(blocks), count * elemSize);
        r == Ok(Some(Start(old(blocks), k) + SentinelSize)) && blocks == Carve(old(blocks), k, count * elemSize, minSize)
    {
      if count <= 0 {
        return Err(BadAlloc);
      }
      var size := count * elemSize;
      assert size >= elemSize by { MulGrows(count, elemSize); }
      var p, k := Scan(size);
      if p == n {
        return Ok(None);
      }
      assert k == FirstFit(old(blocks), count * elemSize) < |old(blocks)|;
      if a[p] - size < minSize {
        TakeWhole(p, k, size);
      } else {
        Split(p, k, size);
      }
      r := Ok(Some(p + SentinelSize));
    }

    /** allocate's whole-block case: negate the header and footer of block k. */
    method TakeWhole(p: int, ghost k: nat, size: int)
      requires Valid() && k < |blocks| && p == Start(blocks, k) < n && a[p] == blocks[k]
      requires Fits(blocks[k], size) && minSize <= size + 2 * SentinelSize && blocks[k] - size < minSize
      modifies this, a
      ensures Valid() && blocks == Carve(old(blocks), k, size, minSize)
    {
      ghost var b0, s0 := blocks, a[..];
      var freeSize := a[p];
      TakeWholeStep(s0, b0, n, k, size, minSize);
      CarveRoomy(b0, k, size, minSize);
      a[p] := -freeSize;
      a[p + freeSize + SentinelSize] := -freeSize;
      assert a[..] == s0[p := -freeSize][p + freeSize + SentinelSize := -freeSize];
      blocks := Carve(b0, k, size, minSize);
    }

    /**
     * allocate's split case: block k becomes an in-use block of exactly size
     * bytes followed by a free block holding the rest.
     */
    method Split(p: int, ghost k: nat, size: int)
      requires Valid() && k < |blocks| && p == Start(blocks, k) < n && a[p] == blocks[k]
      requires Fits(blocks[k], size) && minSize <= size + 2 * SentinelSize && blocks[k] - size >= minSize
      modifies this, a
      ensures Valid() && blocks == Carve(old(blocks), k, size, minSize)
    {
      ghost var b0, s0 := blocks, a[..];
      var freeSize := a[p];
      SplitStep(s0, b0, n, k, size, minSize);
      CarveRoomy(b0, k, size, minSize);
      var start := p;
      var endPoint := start + size + SentinelSize;
      a[start] := -size;
      a[endPoint] := -size;
      var next := endPoint + SentinelSize;
      endPoint := start + freeSize + SentinelSize;
      var newFreeSize := freeSize - size - 2 * SentinelSize;
      a[next] := newFreeSize;
      a[endPoint] := newFreeSize;
      assert a[..] == s0[start := -size][start + size + SentinelSize := -size]
                        [start + size + 2 * SentinelSize := newFreeSize][start + freeSize + SentinelSize := newFreeSize];
      blocks := Carve(b0, k, size, minSize);
    }

    /**
     * deallocate(p): free the block whose payload starts at p and merge it with
     * a free neighbour on either side. A p that is not the payload address of a
     * block in use throws invalid_argument and changes nothing.
     */
    method Deallocate(p: int) returns (r: Result<(), Error>)
      requires Valid()
      modifies this, a
      ensures Valid()
      ensures var k := BlockAt(old(blocks), p - SentinelSize);
        if k < |old(blocks)| && old(blocks)[k] < 0 then r == Ok(()) && blocks == Release(old(blocks), k)
        else r == Err(InvalidArgument) && blocks == old(blocks) && a[..] == old(a[..])
    {
      var live := IsLive(p);
      if !live {
        return Err(InvalidArgument);
      }
      ghost var b0, s0 := blocks, a[..];
      ghost var k := BlockAt(b0, p - SentinelSize);
      var front, end, size := MergeBounds(p, k);
      ReleaseLaid(s0, b0, n, k);
      ReleaseRoomy(b0, n, k, minSize);
      a[front] := size;
      a[end] := size;
      assert a[..] == s0[front := size][end := size];
      blocks := Release(b0, k);
      r := Ok(());
    }

    /**
     * The reads of deallocate: from the header of the freed block k, step left
     * over a free left neighbour and right over a free right neighbour; the
     * result is the header and footer of the merged run and its new tag.
     */
    method MergeBounds(p: int, ghost k: nat) returns (front: int, end: int, size: int)
      requires Valid() && k < |blocks| && Start(blocks, k) == p - SentinelSize && blocks[k] < 0
      ensures front == Start(blocks, MergeLo(blocks, k))
      ensures end == Start(blocks, MergeHi(blocks, k)) - SentinelSize
      ensures size == Release(blocks, k)[MergeLo(blocks, k)]
    {
      ReleaseCells(a[..], blocks, k);
      front := p - SentinelSize;
      end := front - a[front] + SentinelSize;
      size := -a[front];
      if front != 0 && a[front - SentinelSize] > 0 {
        front := front - (a[front - SentinelSize] + 2 * SentinelSize);
        size := size + a[front] + 2 * SentinelSize;
      }
      if end + SentinelSize != n && a[end + SentinelSize] > 0 {
        end := end + a[end + SentinelSize] + 2 * SentinelSize;
        size := size + a[end] + 2 * SentinelSize;
      }
    }
  }

  /**
   * Construct my_allocator<T, N> with sizeof(T) == elemSize and N == n: an
   * arena too small for one minimum block throws bad_alloc before any state
   * exists.
   */
  method Create(n: int, elemSize: int) returns (r: Result<MyAllocator, Error>)
    requires 0 < elemSize
    ensures r.Err? <==> n < MinSize(elemSize)
    ensures r.Err? ==> r.error == BadAlloc
    ensures r.Ok? ==> fresh(r.value) && fresh(r.value.a) && r.value.Valid()
    ensures r.Ok? ==> r.value.n == n && r.value.elemSize == elemSize && r.value.blocks == Initial(n)
  {
    if n < MinSize(elemSize) {
      return Err(BadAlloc);
    }
    var x := new MyAllocator(n, elemSize);
    r := Ok(x);
  }
}
