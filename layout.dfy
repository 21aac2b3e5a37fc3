/**
 * The arena of a boundary-tag allocator, seen as the list of its blocks.
 *
 * A block whose tag value is v occupies |v| payload bytes between two int
 * sentinels (a header and a footer) that both hold v: positive means free,
 * negative means in use. A layout is the sequence of tag values of the blocks
 * in arena order, starting at byte offset 0. All positions are byte offsets and
 * all sizes are byte counts.
 */
module Layout {
  import opened Wrappers

  /** sizeof(int): the width of one sentinel, in bytes. */
  const SentinelSize := 4

  function Abs(v: int): nat {
    if v < 0 then -v else v
  }

  /** Bytes a block with tag value v occupies: its payload and its two sentinels. */
  function Span(v: int): nat {
    Abs(v) + 2 * SentinelSize
  }

  /** Bytes covered by the blocks of b laid end to end. */
  function Total(b: seq<int>): nat {
    if b == [] then 0 else Span(b[0]) + Total(b[1..])
  }

  /** Byte offset of the header of block k. */
  function Start(b: seq<int>, k: int): nat
    requires 0 <= k <= |b|
  {
    Total(b[..k])
  }

  /**
   * The blocks of b are written into the cells of s from byte offset off on:
   * each block's header and footer hold its tag value, and the next block's
   * header follows the footer directly.
   */
  ghost predicate Laid(s: seq<int>, b: seq<int>, off: int)
    decreases |b|
  {
    b == [] ||
    (0 <= off && off + Span(b[0]) <= |s| &&
     s[off] == b[0] && s[off + Span(b[0]) - SentinelSize] == b[0] &&
     Laid(s, b[1..], off + Span(b[0])))
  }

  /** No tag is 0, so every block is either free or in use. */
  predicate Tagged(b: seq<int>) {
    forall k :: 0 <= k < |b| ==> b[k] != 0
  }

  /** No two neighbouring blocks are both free. */
  predicate Coalesced(b: seq<int>) {
    forall k :: 0 < k < |b| ==> !(b[k - 1] > 0 && b[k] > 0)
  }

  /** The invariant of an n-byte arena: the blocks tile it exactly and are coalesced. */
  predicate WellFormed(b: seq<int>, n: int) {
    Tagged(b) && Coalesced(b) && Total(b) == n
  }

  /**
   * Every block spans at least minSize bytes, the smallest block the
   * allocator makes: one element and two sentinels.
   */
  predicate Roomy(b: seq<int>, minSize: int) {
    forall k :: 0 <= k < |b| ==> Span(b[k]) >= minSize
  }

  /** The layout the constructor writes: one free block over the whole arena. */
  function Initial(n: int): seq<int> {
    [n - 2 * SentinelSize]
  }

  // ---------------------------------------------------------------------------
  // Offsets
  // ---------------------------------------------------------------------------

  lemma {:induction false} TotalAppend(x: seq<int>, y: seq<int>)
    ensures Total(x + y) == Total(x) + Total(y)
    decreases |x|
  {
    if x == [] {
      assert x + y == y;
    } else {
      assert (x + y)[1..] == x[1..] + y;
      TotalAppend(x[1..], y);
    }
  }

  /** One block covers its own span. */
  lemma {:induction false} TotalOne(x: int)
    ensures Total([x]) == Span(x)
  {
    assert [x][1..] == [];
  }

  /** Two blocks cover their two spans. */
  lemma {:induction false} TotalPair(x: int, y: int)
    ensures Total([x, y]) == Span(x) + Span(y)
  {
    assert [x, y][1..] == [y];
    TotalOne(y);
  }

  /** The next block's header lies one span past this block's header. */
  lemma {:induction false} StartNext(b: seq<int>, k: int)
    requires 0 <= k < |b|
    ensures Start(b, k + 1) == Start(b, k) + Span(b[k])
  {
    assert b[..k + 1] == b[..k] + [b[k]];
    TotalAppend(b[..k], [b[k]]);
  }

  lemma {:induction false} StartEnd(b: seq<int>)
    ensures Start(b, |b|) == Total(b)
  {
    assert b[..|b|] == b;
  }

  /** Headers are strictly increasing: block j ends at or before the header of any later block. */
  lemma {:induction false} StartMono(b: seq<int>, j: int, k: int)
    requires 0 <= j < k <= |b|
    ensures Start(b, j) + Span(b[j]) <= Start(b, k)
  {
    assert b[..k] == b[..j + 1] + b[j + 1..k];
    TotalAppend(b[..j + 1], b[j + 1..k]);
    StartNext(b, j);
  }

  /** Blocks lo..hi cover the bytes from the header of lo to the header of hi. */
  lemma {:induction false} StartRun(b: seq<int>, lo: int, hi: int)
    requires 0 <= lo <= hi <= |b|
    ensures Start(b, hi) == Start(b, lo) + Total(b[lo..hi])
  {
    assert b[..hi] == b[..lo] + b[lo..hi];
    TotalAppend(b[..lo], b[lo..hi]);
  }

  /** Every block ends inside the arena. */
  lemma {:induction false} StartBelowTotal(b: seq<int>, k: int)
    requires 0 <= k < |b|
    ensures Start(b, k) + Span(b[k]) <= Total(b)
  {
    StartMono(b, k, |b|);
    StartEnd(b);
  }

  /** Offsets in b seen from its second block. */
  lemma {:induction false} StartTail(b: seq<int>)
    requires b != []
    ensures Start(b, 0) == 0
    ensures forall j :: 0 < j <= |b| ==> Start(b, j) == Span(b[0]) + Start(b[1..], j - 1)
  {
    assert b[..0] == [];
    forall j | 0 < j <= |b|
      ensures Start(b, j) == Span(b[0]) + Start(b[1..], j - 1)
    {
      assert b[..j] == [b[0]] + b[1..][..j - 1];
      TotalAppend([b[0]], b[1..][..j - 1]);
      TotalOne(b[0]);
    }
  }

  /**
   * The index of the block whose header is at byte offset h, or |b| when no
   * header is there.
   */
  function BlockAt(b: seq<int>, h: int): (k: nat)
    ensures k <= |b|
    ensures k < |b| ==> Start(b, k) == h
    ensures forall j :: 0 <= j < k ==> Start(b, j) != h
  {
    if b == [] || h == 0 then 0
    else
      StartTail(b);
      1 + BlockAt(b[1..], h - Span(b[0]))
  }

  /** The header of block k is found at its own offset and nowhere else. */
  lemma {:induction false} BlockAtStart(b: seq<int>, k: int)
    requires 0 <= k < |b|
    ensures BlockAt(b, Start(b, k)) == k
  {
    var r := BlockAt(b, Start(b, k));
    if r < k {
      StartMono(b, r, k);
    }
  }

  /** No header lies strictly inside a block. */
  lemma {:induction false} BlockAtInside(b: seq<int>, k: int, h: int)
    requires 0 <= k < |b| && Start(b, k) < h < Start(b, k) + Span(b[k])
    ensures BlockAt(b, h) == |b|
  {
    var r := BlockAt(b, h);
    if r < |b| {
      if r < k {
        StartMono(b, r, k);
      } else if r > k {
        StartMono(b, k, r);
      }
    }
  }

  // ---------------------------------------------------------------------------
  // Reading and rewriting the cells of a layout
  // ---------------------------------------------------------------------------

  lemma {:induction false} LaidAppend(s: seq<int>, x: seq<int>, y: seq<int>, off: int)
    ensures Laid(s, x + y, off) <==> Laid(s, x, off) && Laid(s, y, off + Total(x))
    decreases |x|
  {
    if x == [] {
      assert x + y == y;
    } else {
      assert (x + y)[0] == x[0];
      assert (x + y)[1..] == x[1..] + y;
      LaidAppend(s, x[1..], y, off + Span(x[0]));
    }
  }

  /** A layout survives any change to cells outside the bytes it covers. */
  lemma {:induction false} LaidFrame(s: seq<int>, t: seq<int>, b: seq<int>, off: int)
    requires Laid(s, b, off) && |s| == |t|
    requires forall i :: 0 <= i < |s| && off <= i < off + Total(b) ==> s[i] == t[i]
    ensures Laid(t, b, off)
    decreases |b|
  {
    if b != [] {
      LaidFrame(s, t, b[1..], off + Span(b[0]));
    }
  }

  /** The header and footer of block k hold its tag value. */
  lemma {:induction false} LaidAt(s: seq<int>, b: seq<int>, off: int, k: int)
    requires Laid(s, b, off) && 0 <= k < |b|
    ensures 0 <= off + Start(b, k) && off + Start(b, k) + Span(b[k]) <= |s|
    ensures s[off + Start(b, k)] == b[k]
    ensures s[off + Start(b, k) + Span(b[k]) - SentinelSize] == b[k]
  {
    assert b == b[..k] + b[k..];
    LaidAppend(s, b[..k], b[k..], off);
    assert b[k..][0] == b[k];
  }

  /** A layout of b splits at blocks lo and hi into layouts of its outer parts. */
  lemma {:induction false} LaidOuter(s: seq<int>, b: seq<int>, lo: int, hi: int)
    requires 0 <= lo <= hi <= |b| && Laid(s, b, 0)
    ensures Laid(s, b[..lo], 0) && Laid(s, b[hi..], Start(b, hi))
  {
    assert b == b[..hi] + b[hi..];
    LaidAppend(s, b[..hi], b[hi..], 0);
    assert b[..lo] == b[..hi][..lo];
    assert b[..hi] == b[..lo] + b[lo..hi];
    LaidAppend(s, b[..lo], b[lo..hi], 0);
  }

  /** Three layouts that follow each other make one layout. */
  lemma {:induction false} LaidJoin(t: seq<int>, x: seq<int>, m: seq<int>, y: seq<int>)
    requires Laid(t, x, 0) && Laid(t, m, Total(x)) && Laid(t, y, Total(x) + Total(m))
    ensures Laid(t, x + m + y, 0)
  {
    TotalAppend(x, m);
    LaidAppend(t, x, m, 0);
    LaidAppend(t, x + m, y, 0);
  }

  /** The cell at the header offset of a block holds the block's tag value. */
  lemma {:induction false} HeaderHoldsTag(s: seq<int>, b: seq<int>, i: int)
    requires Laid(s, b, 0)
    ensures BlockAt(b, i) < |b| ==> 0 <= i < |s| && s[i] == b[BlockAt(b, i)]
  {
    if BlockAt(b, i) < |b| {
      LaidAt(s, b, 0, BlockAt(b, i));
    }
  }

  /**
   * Replacing blocks lo..hi by m, when m covers the same bytes and is written
   * there, and nothing else changed, lays out the new block list.
   */
  lemma {:induction false} Splice(s: seq<int>, t: seq<int>, b: seq<int>, lo: int, hi: int, m: seq<int>)
    requires 0 <= lo < hi <= |b| && Laid(s, b, 0) && |t| == |s|
    requires Total(m) == Total(b[lo..hi])
    requires Laid(t, m, Start(b, lo))
    requires forall i :: 0 <= i < |s| && !(Start(b, lo) <= i < Start(b, hi)) ==> t[i] == s[i]
    ensures Laid(t, b[..lo] + m + b[hi..], 0)
  {
    LaidOuter(s, b, lo, hi);
    StartRun(b, lo, hi);
    LaidFrame(s, t, b[..lo], 0);
    LaidFrame(s, t, b[hi..], Start(b, hi));
    LaidJoin(t, b[..lo], m, b[hi..]);
  }

  lemma {:induction false} TaggedSplice(b: seq<int>, lo: int, hi: int, m: seq<int>)
    requires Tagged(b) && Tagged(m) && 0 <= lo <= hi <= |b|
    ensures Tagged(b[..lo] + m + b[hi..])
  {
    var c := b[..lo] + m + b[hi..];
    forall k | 0 <= k < |c|
      ensures c[k] != 0
    {
      if k < lo {
        assert c[k] == b[k];
      } else if k < lo + |m| {
        assert c[k] == m[k - lo];
      } else {
        assert c[k] == b[k - lo - |m| + hi];
      }
    }
  }

  lemma {:induction false} CoalescedSplice(b: seq<int>, lo: int, hi: int, m: seq<int>)
    requires Coalesced(b) && Coalesced(m) && 0 <= lo < hi <= |b| && m != []
    requires lo > 0 ==> !(b[lo - 1] > 0 && m[0] > 0)
    requires hi < |b| ==> !(m[|m| - 1] > 0 && b[hi] > 0)
    ensures Coalesced(b[..lo] + m + b[hi..])
  {
    var c := b[..lo] + m + b[hi..];
    forall k | 0 < k < |c|
      ensures !(c[k - 1] > 0 && c[k] > 0)
    {
      if k < lo {
        assert c[k - 1] == b[k - 1] && c[k] == b[k];
      } else if k == lo {
        assert c[k - 1] == b[lo - 1] && c[k] == m[0];
      } else if k < lo + |m| {
        assert c[k - 1] == m[k - 1 - lo] && c[k] == m[k - lo];
      } else if k == lo + |m| {
        assert c[k - 1] == m[|m| - 1] && c[k] == b[hi];
      } else {
        assert c[k - 1] == b[k - 1 - lo - |m| + hi] && c[k] == b[k - lo - |m| + hi];
      }
    }
  }

  lemma {:induction false} TotalSplice(b: seq<int>, lo: int, hi: int, m: seq<int>)
    requires 0 <= lo <= hi <= |b| && Total(m) == Total(b[lo..hi])
    ensures Total(b[..lo] + m + b[hi..]) == Total(b)
  {
    assert b == b[..lo] + b[lo..hi] + b[hi..];
    TotalAppend(b[..lo] + b[lo..hi], b[hi..]);
    TotalAppend(b[..lo], b[lo..hi]);
    TotalAppend(b[..lo] + m, b[hi..]);
    TotalAppend(b[..lo], m);
  }

  /** Splicing preserves the arena invariant when the seams join no two free blocks. */
  lemma {:induction false} WellFormedSplice(b: seq<int>, n: int, lo: int, hi: int, m: seq<int>)
    requires WellFormed(b, n) && 0 <= lo < hi <= |b| && m != []
    requires Tagged(m) && Coalesced(m) && Total(m) == Total(b[lo..hi])
    requires lo > 0 ==> !(b[lo - 1] > 0 && m[0] > 0)
    requires hi < |b| ==> !(m[|m| - 1] > 0 && b[hi] > 0)
    ensures WellFormed(b[..lo] + m + b[hi..], n)
  {
    TaggedSplice(b, lo, hi, m);
    CoalescedSplice(b, lo, hi, m);
    TotalSplice(b, lo, hi, m);
  }

  lemma {:induction false} RoomySplice(b: seq<int>, lo: int, hi: int, m: seq<int>, minSize: int)
    requires Roomy(b, minSize) && Roomy(m, minSize) && 0 <= lo <= hi <= |b|
    ensures Roomy(b[..lo] + m + b[hi..], minSize)
  {
    var c := b[..lo] + m + b[hi..];
    forall k | 0 <= k < |c|
      ensures Span(c[k]) >= minSize
    {
      if k < lo {
        assert c[k] == b[k];
      } else if k < lo + |m| {
        assert c[k] == m[k - lo];
      } else {
        assert c[k] == b[k - lo - |m| + hi];
      }
    }
  }

  // ---------------------------------------------------------------------------
  // Allocation: first fit, then take the whole block or split it
  // ---------------------------------------------------------------------------

  /** A block can serve a request of size bytes when it is free and strictly larger. */
  predicate Fits(v: int, size: int) {
    v > 0 && v > size
  }

  /** The index of the first block that fits, scanning from offset 0, or |b| if none does. */
  function FirstFit(b: seq<int>, size: int): (k: nat)
    ensures k <= |b|
    ensures forall j :: 0 <= j < k ==> !Fits(b[j], size)
    ensures k < |b| ==> Fits(b[k], size)
  {
    if b == [] then 0
    else if Fits(b[0], size) then 0
    else 1 + FirstFit(b[1..], size)
  }

  /**
   * Serve size bytes from free block k. When the leftover would be smaller than
   * minSize the whole block is marked in use; otherwise the front of the block
   * becomes an in-use block of exactly size bytes and the rest a new free block.
   */
  function Carve(b: seq<int>, k: int, size: int, minSize: int): (c: seq<int>)
    requires 0 <= k < |b|
    ensures |b| <= |c| <= |b| + 1 && c[..k] == b[..k] && c[|c| - (|b| - k - 1)..] == b[k + 1..]
    ensures Fits(b[k], size) && 0 < size ==> c[k] < 0 && -c[k] >= size
  {
    var freeSize := b[k];
    if freeSize - size < minSize then b[..k] + [-freeSize] + b[k + 1..]
    else b[..k] + [-size, freeSize - size - 2 * SentinelSize] + b[k + 1..]
  }

  /** The pieces Carve puts in place of block k. */
  function CarvedPieces(freeSize: int, size: int, minSize: int): seq<int> {
    if freeSize - size < minSize then [-freeSize]
    else [-size, freeSize - size - 2 * SentinelSize]
  }

  /**
   * Carving a fitting block keeps the arena invariant, leaves the blocks before
   * it in place, and serves an in-use block that holds the request and wastes
   * less than one minimum block.
   */
  lemma {:induction false} CarveWellFormed(b: seq<int>, n: int, k: int, size: int, minSize: int)
    requires WellFormed(b, n) && 0 <= k < |b| && Fits(b[k], size)
    requires 0 < size && 2 * SentinelSize < minSize
    ensures var c := Carve(b, k, size, minSize);
      WellFormed(c, n) && k < |c| && c[..k] == b[..k] && Start(c, k) == Start(b, k) &&
      c[k] < 0 && size <= -c[k] < size + minSize
    ensures var c := Carve(b, k, size, minSize);
      b[k] - size >= minSize ==> k + 1 < |c| && c[k + 1] > 0 && Span(c[k + 1]) >= minSize
  {
    var m := CarvedPieces(b[k], size, minSize);
    assert b[k..k + 1] == [b[k]];
    if b[k] - size >= minSize {
      TotalPair(m[0], m[1]);
    }
    assert k + 1 < |b| ==> b[k + 1] <= 0;
    WellFormedSplice(b, n, k, k + 1, m);
    var c := Carve(b, k, size, minSize);
    assert c[..k] == b[..k];
  }

  /**
   * Carving keeps every block at least minSize bytes long: the served block
   * holds the request of at least one element, and a split leaves a free rest
   * of at least minSize.
   */
  lemma {:induction false} CarveRoomy(b: seq<int>, k: int, size: int, minSize: int)
    requires Roomy(b, minSize) && 0 <= k < |b| && Fits(b[k], size)
    requires minSize <= size + 2 * SentinelSize
    ensures Roomy(Carve(b, k, size, minSize), minSize)
  {
    var m := CarvedPieces(b[k], size, minSize);
    assert Roomy(m, minSize) by {
      assert Span(b[k]) >= minSize;
    }
    assert Carve(b, k, size, minSize) == b[..k] + m + b[k + 1..];
    RoomySplice(b, k, k + 1, m, minSize);
  }

  /** A single block written at off. */
  lemma {:induction false} LaidOne(t: seq<int>, v: int, off: int)
    requires 0 <= off && off + Span(v) <= |t|
    requires t[off] == v && t[off + Span(v) - SentinelSize] == v
    ensures Laid(t, [v], off)
  {
    assert [v][1..] == [];
  }

  /** Two blocks written one after the other from off. */
  lemma {:induction false} LaidTwo(t: seq<int>, v: int, w: int, off: int)
    requires 0 <= off && off + Span(v) + Span(w) <= |t|
    requires t[off] == v && t[off + Span(v) - SentinelSize] == v
    requires t[off + Span(v)] == w && t[off + Span(v) + Span(w) - SentinelSize] == w
    ensures Laid(t, [v, w], off)
  {
    LaidOne(t, w, off + Span(v));
    assert [v, w][1..] == [w];
  }

  /** Where the sentinels of block k are, and that the cells there hold its tag. */
  lemma {:induction false} BlockCells(s: seq<int>, b: seq<int>, k: int)
    requires Laid(s, b, 0) && 0 <= k < |b|
    ensures Start(b, k + 1) == Start(b, k) + Span(b[k]) <= |s|
    ensures s[Start(b, k)] == b[k] && s[Start(b, k) + Span(b[k]) - SentinelSize] == b[k]
    ensures Total(b[k..k + 1]) == Span(b[k])
  {
    LaidAt(s, b, 0, k);
    StartNext(b, k);
    assert b[k..k + 1] == [b[k]];
    TotalOne(b[k]);
  }

  /**
   * The whole-block case of allocate: negating the header and footer of block
   * k lays out the carved list.
   */
  lemma {:induction false} TakeWholeLaid(s: seq<int>, b: seq<int>, k: int)
    requires Laid(s, b, 0) && 0 <= k < |b| && b[k] > 0
    ensures var p := Start(b, k);
      p + b[k] + SentinelSize < |s| &&
      Laid(s[p := -b[k]][p + b[k] + SentinelSize := -b[k]], b[..k] + [-b[k]] + b[k + 1..], 0)
  {
    var p, v := Start(b, k), b[k];
    BlockCells(s, b, k);
    var t := s[p := -v][p + v + SentinelSize := -v];
    LaidOne(t, -v, p);
    TotalOne(-v);
    Splice(s, t, b, k, k + 1, [-v]);
  }

  /**
   * The split case of allocate: writing -size at both ends of the front part
   * and the leftover at both ends of the rest lays out the carved list.
   */
  lemma {:induction false} SplitLaid(s: seq<int>, b: seq<int>, k: int, size: int)
    requires Laid(s, b, 0) && 0 <= k < |b| && 0 <= size && b[k] - size - 2 * SentinelSize >= 0
    ensures var p, r := Start(b, k), b[k] - size - 2 * SentinelSize;
      p + b[k] + SentinelSize < |s| &&
      Laid(s[p := -size][p + size + SentinelSize := -size]
            [p + size + 2 * SentinelSize := r][p + b[k] + SentinelSize := r],
           b[..k] + [-size, r] + b[k + 1..], 0)
  {
    var p, v := Start(b, k), b[k];
    var r := v - size - 2 * SentinelSize;
    BlockCells(s, b, k);
    var t := s[p := -size][p + size + SentinelSize := -size]
              [p + size + 2 * SentinelSize := r][p + v + SentinelSize := r];
    LaidTwo(t, -size, r, p);
    TotalPair(-size, r);
    Splice(s, t, b, k, k + 1, [-size, r]);
  }

  /** The sentinel writes of allocate's whole-block case produce a valid carved layout. */
  lemma {:induction false} TakeWholeStep(s: seq<int>, b: seq<int>, n: int, k: int, size: int, minSize: int)
    requires Laid(s, b, 0) && WellFormed(b, n) && 0 <= k < |b| && Fits(b[k], size)
    requires 0 < size && 2 * SentinelSize < minSize && b[k] - size < minSize
    ensures var p, v := Start(b, k), b[k];
      p + v + SentinelSize < |s| &&
      Laid(s[p := -v][p + v + SentinelSize := -v], Carve(b, k, size, minSize), 0) &&
      WellFormed(Carve(b, k, size, minSize), n)
  {
    TakeWholeLaid(s, b, k);
    CarveWellFormed(b, n, k, size, minSize);
  }

  /** The sentinel writes of allocate's split case produce a valid carved layout. */
  lemma {:induction false} SplitStep(s: seq<int>, b: seq<int>, n: int, k: int, size: int, minSize: int)
    requires Laid(s, b, 0) && WellFormed(b, n) && 0 <= k < |b| && Fits(b[k], size)
    requires 0 < size && 2 * SentinelSize < minSize && b[k] - size >= minSize
    ensures var p, v := Start(b, k), b[k];
      var r := v - size - 2 * SentinelSize;
      p + v + SentinelSize < |s| &&
      Laid(s[p := -size][p + size + SentinelSize := -size]
            [p + size + 2 * SentinelSize := r][p + v + SentinelSize := r],
           Carve(b, k, size, minSize), 0) &&
      WellFormed(Carve(b, k, size, minSize), n)
  {
    SplitLaid(s, b, k, size);
    CarveWellFormed(b, n, k, size, minSize);
  }

  // ---------------------------------------------------------------------------
  // Deallocation: free the block and merge it with free neighbours
  // ---------------------------------------------------------------------------

  /** First block of the merged run: the left neighbour when it is free. */
  function MergeLo(b: seq<int>, k: int): int
    requires 0 <= k < |b|
  {
    if 0 < k && b[k - 1] > 0 then k - 1 else k
  }

  /** One past the last block of the merged run: past the right neighbour when it is free. */
  function MergeHi(b: seq<int>, k: int): int
    requires 0 <= k < |b|
  {
    if k + 1 < |b| && b[k + 1] > 0 then k + 2 else k + 1
  }

  /**
   * Free block k: the block and its free neighbours become one free block
   * whose size is the freed payload plus each merged neighbour's payload and
   * two sentinels.
   */
  function Release(b: seq<int>, k: int): (c: seq<int>)
    requires 0 <= k < |b|
    ensures MergeLo(b, k) < |c| && c[..MergeLo(b, k)] == b[..MergeLo(b, k)]
    ensures c[MergeLo(b, k) + 1..] == b[MergeHi(b, k)..]
    ensures b[k] < 0 ==> c[MergeLo(b, k)] >= -b[k] > 0
  {
    var size := -b[k]
      + (if 0 < k && b[k - 1] > 0 then b[k - 1] + 2 * SentinelSize else 0)
      + (if k + 1 < |b| && b[k + 1] > 0 then b[k + 1] + 2 * SentinelSize else 0);
    b[..MergeLo(b, k)] + [size] + b[MergeHi(b, k)..]
  }

  /**
   * Freeing an in-use block keeps the arena invariant (so no two neighbouring
   * blocks are free afterwards), leaves the blocks before the merged run in
   * place, and the merged free block covers exactly the bytes of the run.
   */
  lemma {:induction false} ReleaseWellFormed(b: seq<int>, n: int, k: int)
    requires WellFormed(b, n) && 0 <= k < |b| && b[k] < 0
    ensures var c := Release(b, k); var lo := MergeLo(b, k);
      WellFormed(c, n) && lo < |c| && c[..lo] == b[..lo] && Start(c, lo) == Start(b, lo) &&
      c[lo] > 0 && Span(c[lo]) == Total(b[MergeLo(b, k)..MergeHi(b, k)])
  {
    var lo, hi := MergeLo(b, k), MergeHi(b, k);
    var c := Release(b, k);
    var m := [c[lo]];
    assert c == b[..lo] + m + b[hi..];
    var run := b[lo..hi];
    if lo < k {
      if hi > k + 1 {
        assert run == [b[k - 1]] + [b[k], b[k + 1]];
        TotalAppend([b[k - 1]], [b[k], b[k + 1]]);
        TotalPair(b[k - 1], b[k]);
        TotalPair(b[k], b[k + 1]);
      } else {
        assert run == [b[k - 1], b[k]];
        TotalPair(b[k - 1], b[k]);
      }
    } else {
      if hi > k + 1 {
        assert run == [b[k], b[k + 1]];
        TotalPair(b[k], b[k + 1]);
      } else {
        assert run == [b[k]];
        TotalOne(b[k]);
      }
    }
    TotalOne(c[lo]);
    assert lo > 1 ==> !(b[lo - 2] > 0 && b[lo - 1] > 0);
    WellFormedSplice(b, n, lo, hi, m);
    assert c[..lo] == b[..lo];
  }

  /** Freeing keeps every block at least minSize bytes long: the merged block only grows. */
  lemma {:induction false} ReleaseRoomy(b: seq<int>, n: int, k: int, minSize: int)
    requires WellFormed(b, n) && Roomy(b, minSize) && 0 <= k < |b| && b[k] < 0
    ensures Roomy(Release(b, k), minSize)
  {
    var lo, hi, c := MergeLo(b, k), MergeHi(b, k), Release(b, k);
    assert Span(c[lo]) >= Span(b[k]) >= minSize;
    assert c == b[..lo] + [c[lo]] + b[hi..];
    RoomySplice(b, lo, hi, [c[lo]], minSize);
  }

  /**
   * Where deallocate reads: the header of block k is at its start h and its
   * footer at f; the left neighbour's footer lies just before h and the right
   * neighbour's header just after f. The merged run starts at the header of
   * MergeLo and its footer is the footer of the block before MergeHi.
   */
  lemma {:induction false} ReleaseCells(s: seq<int>, b: seq<int>, k: int)
    requires Laid(s, b, 0) && Total(b) == |s| && 0 <= k < |b| && b[k] < 0
    ensures var h, f := Start(b, k), Start(b, k) + Span(b[k]) - SentinelSize;
      0 <= h < f && f + SentinelSize <= |s| && s[h] == b[k] && f == h - b[k] + SentinelSize &&
      Start(b, k + 1) == f + SentinelSize &&
      (h == 0 <==> k == 0) && (f + SentinelSize == |s| <==> k + 1 == |b|)
    ensures var h, f := Start(b, k), Start(b, k) + Span(b[k]) - SentinelSize;
      k > 0 ==> SentinelSize <= h && s[h - SentinelSize] == b[k - 1] &&
                0 <= h - Span(b[k - 1]) && s[h - Span(b[k - 1])] == b[k - 1] &&
                Start(b, k - 1) == h - Span(b[k - 1])
    ensures var h, f := Start(b, k), Start(b, k) + Span(b[k]) - SentinelSize;
      k + 1 < |b| ==> f + SentinelSize < |s| && s[f + SentinelSize] == b[k + 1] &&
                      f + Span(b[k + 1]) < |s| && s[f + Span(b[k + 1])] == b[k + 1] &&
                      Start(b, k + 2) - SentinelSize == f + Span(b[k + 1])
  {
    BlockCells(s, b, k);
    StartEnd(b);
    if k > 0 {
      StartMono(b, 0, k);
      BlockCells(s, b, k - 1);
    } else {
      assert Start(b, 0) == 0 by { assert b[..0] == []; }
    }
    if k + 1 < |b| {
      StartBelowTotal(b, k + 1);
      BlockCells(s, b, k + 1);
    } else {
      assert Start(b, k + 1) == Total(b);
    }
  }

  /**
   * Writing the merged size at the header of MergeLo and at the footer that
   * ends before MergeHi lays out the released list.
   */
  lemma {:induction false} ReleaseLaid(s: seq<int>, b: seq<int>, n: int, k: int)
    requires Laid(s, b, 0) && WellFormed(b, n) && |s| == n && 0 <= k < |b| && b[k] < 0
    ensures var lo, hi, c := MergeLo(b, k), MergeHi(b, k), Release(b, k);
      var front, end := Start(b, lo), Start(b, hi) - SentinelSize;
      0 <= front < end < n && Laid(s[front := c[lo]][end := c[lo]], c, 0) && WellFormed(c, n)
  {
    var lo, hi, c := MergeLo(b, k), MergeHi(b, k), Release(b, k);
    ReleaseWellFormed(b, n, k);
    StartRun(b, lo, hi);
    StartBelowTotal(b, hi - 1);
    StartNext(b, hi - 1);
    var front, end := Start(b, lo), Start(b, hi) - SentinelSize;
    var t := s[front := c[lo]][end := c[lo]];
    LaidOne(t, c[lo], front);
    TotalOne(c[lo]);
    assert c == b[..lo] + [c[lo]] + b[hi..];
    Splice(s, t, b, lo, hi, [c[lo]]);
  }

  /** Serving a request from block k and then freeing block k gives back the layout. */
  lemma {:induction false} CarveRelease(b: seq<int>, n: int, k: int, size: int, minSize: int)
    requires WellFormed(b, n) && 0 <= k < |b| && Fits(b[k], size)
    requires 0 < size && 2 * SentinelSize < minSize
    ensures Release(Carve(b, k, size, minSize), k) == b
  {
    var c := Carve(b, k, size, minSize);
    assert k > 0 ==> b[k - 1] <= 0;
    assert k + 1 < |b| ==> b[k + 1] <= 0;
    if b[k] - size < minSize {
      assert c[..k] == b[..k] && c[k] == -b[k] && c[k + 1..] == b[k + 1..];
      assert b == b[..k] + [b[k]] + b[k + 1..];
    } else {
      assert c[..k] == b[..k] && c[k] == -size && c[k + 2..] == b[k + 1..];
      assert b == b[..k] + [b[k]] + b[k + 1..];
    }
  }

  /**
   * After block k is freed its payload address no longer names an in-use
   * block, so freeing it a second time is refused.
   */
  lemma {:induction false} ReleaseRetires(b: seq<int>, n: int, k: int)
    requires WellFormed(b, n) && 0 <= k < |b| && b[k] < 0
    ensures var c := Release(b, k); var j := BlockAt(c, Start(b, k)); j == |c| || c[j] > 0
  {
    var c := Release(b, k);
    var lo := MergeLo(b, k);
    ReleaseWellFormed(b, n, k);
    if lo == k {
      BlockAtStart(c, k);
    } else {
      StartNext(b, k - 1);
      StartNext(c, k - 1);
      var hi := MergeHi(b, k);
      assert b[k - 1..hi] == [b[k - 1]] + b[k..hi];
      TotalAppend([b[k - 1]], b[k..hi]);
      BlockAtInside(c, k - 1, Start(b, k));
    }
  }

  // ---------------------------------------------------------------------------
  // The sentinel walk
  // ---------------------------------------------------------------------------

  /**
   * Walk the cells of s from offset off, header to next header, and return the
   * block list found there, or None at the first inconsistency: a zero tag, a
   * block running past the end, a footer that differs from its header, or a
   * free block right after a free block (prevFree).
   */
  function Walk(s: seq<int>, off: int, prevFree: bool): (r: Option<seq<int>>)
    requires 0 <= off <= |s|
    ensures r.Some? ==> Laid(s, r.value, off) && Tagged(r.value) && Coalesced(r.value)
    ensures r.Some? ==> off + Total(r.value) == |s|
    ensures r.Some? && prevFree && r.value != [] ==> r.value[0] <= 0
    decreases |s| - off
  {
    if off == |s| then Some([])
    else
      var v := s[off];
      if v == 0 || off + Span(v) > |s| || s[off + Span(v) - SentinelSize] != v || (prevFree && v > 0) then None
      else
        match Walk(s, off + Span(v), v > 0)
        case None => None
        case Some(rest) =>
          assert ([v] + rest)[1..] == rest;
          Some([v] + rest)
  }

  /** A layout that satisfies the arena invariant is exactly what the walk finds. */
  lemma {:induction false} WalkComplete(s: seq<int>, b: seq<int>, off: int, prevFree: bool)
    requires 0 <= off <= |s| && Laid(s, b, off) && Tagged(b) && Coalesced(b)
    requires off + Total(b) == |s|
    requires prevFree && b != [] ==> b[0] <= 0
    ensures Walk(s, off, prevFree) == Some(b)
    decreases |b|
  {
    if b != [] {
      var v := b[0];
      assert b == [v] + b[1..];
      WalkComplete(s, b[1..], off + Span(v), v > 0);
    }
  }

  /** The walk from offset 0 succeeds with b exactly when b is a valid layout of s. */
  lemma {:induction false} WalkExact(s: seq<int>, b: seq<int>)
    ensures Walk(s, 0, false) == Some(b) <==> Laid(s, b, 0) && WellFormed(b, |s|)
  {
    if Laid(s, b, 0) && WellFormed(b, |s|) {
      WalkComplete(s, b, 0, false);
    }
  }
}
