/**
 * The pointer arithmetic of allocate and deallocate as it is written in
 * Allocator.h, next to the arithmetic the rest of the model uses. The source
 * steps int pointers, so each step of k ints moves k * sizeof(int) bytes; the
 * functions below give the byte offsets those steps reach. The last section
 * sets the valid() stub beside the sentinel walk.
 */
module Findings {
  import opened Wrappers
  import opened Layout

  // ---------------------------------------------------------------------------
  // The scan stride of allocate
  // ---------------------------------------------------------------------------

  /** allocate's scan step from a sentinel holding v: abs(v)/sizeof(int) + 1 ints. */
  function ScanStepAsWritten(p: int, v: int): int {
    p + (Abs(v) / SentinelSize + 1) * SentinelSize
  }

  /**
   * For every tag that is a whole number of ints the written step reaches the
   * block's own footer, one sentinel short of the next header.
   */
  lemma ScanStepLandsOnFooter(p: int, v: int)
    requires Abs(v) % SentinelSize == 0
    ensures ScanStepAsWritten(p, v) == p + Span(v) - SentinelSize
    ensures ScanStepAsWritten(p, v) != p + Span(v)
  {
  }

  /**
   * With doubles in a 100-byte arena after allocate(1) the blocks are [-8, 76].
   * The scan of the next allocate goes from the header at 0 to the footer at
   * 12, and from there to byte 24, which is inside the second block and is no
   * header at all; the next header is at 16.
   */
  lemma ScanMissesHeader(s: seq<int>)
    requires Laid(s, [-8, 76], 0)
    ensures s[12] == -8
    ensures ScanStepAsWritten(0, s[0]) == 12 && ScanStepAsWritten(12, s[12]) == 24
    ensures BlockAt([-8, 76], 24) == 2 && Start([-8, 76], 1) == 16
  {
    assert [-8, 76][..1] == [-8];
    TotalOne(-8);
  }

  // ---------------------------------------------------------------------------
  // The footer and size that deallocate starts from
  // ---------------------------------------------------------------------------

  /** deallocate's end = front + *front + 1, in ints, from a header holding v. */
  function FooterAsWritten(front: int, v: int): int {
    front + (v + 1) * SentinelSize
  }

  /**
   * The header of a block in use holds a negative tag, so the written footer
   * is never after the header (the written size, the tag itself, is negative
   * too, so the block would still read as in use).
   */
  lemma FooterBeforeHeader(front: int, v: int)
    requires v < 0
    ensures FooterAsWritten(front, v) <= front
    ensures FooterAsWritten(front, v) != front + Span(v) - SentinelSize
  {
  }

  /**
   * With doubles in a 40-byte arena after allocate(1) the blocks are [-8, 16].
   * Freeing the first block puts its footer at byte -28, outside the arena,
   * where the freed arena is one free block of 32 bytes.
   */
  lemma FooterOutsideArena(s: seq<int>)
    requires Laid(s, [-8, 16], 0)
    ensures s[0] == -8 && FooterAsWritten(0, s[0]) == -28
    ensures Release([-8, 16], 0) == [32]
  {
  }

  // ---------------------------------------------------------------------------
  // The merge steps of deallocate
  // ---------------------------------------------------------------------------

  /** deallocate's front -= *(front - 1) + 2, in ints, over a left neighbour tagged v. */
  function LeftStepAsWritten(front: int, v: int): int {
    front - (v + 2) * SentinelSize
  }

  /** deallocate's end += *(end + 1) + 2, in ints, over a right neighbour tagged v. */
  function RightStepAsWritten(end: int, v: int): int {
    end + (v + 2) * SentinelSize
  }

  /**
   * Over a free neighbour the written steps miss the neighbour's far sentinel,
   * which is Span(v) bytes away: they move v + 2 ints instead of v + 2 bytes'
   * worth of sentinels.
   */
  lemma MergeStepsMiss(front: int, end: int, v: int)
    requires v > 0
    ensures LeftStepAsWritten(front, v) != front - Span(v)
    ensures RightStepAsWritten(end, v) != end + Span(v)
  {
  }

  /**
   * With doubles in a 100-byte arena holding [8, -16, 52], freeing the middle
   * block steps left from its header at 16 to byte -24 instead of 0, and right
   * from its footer at 36 to byte 252 instead of 96.
   */
  lemma MergeStepsLeaveArena()
    ensures LeftStepAsWritten(16, 8) == -24 && RightStepAsWritten(36, 52) == 252
    ensures Start([8, -16, 52], 1) == 16 && Start([8, -16, 52], 3) - SentinelSize == 96
    ensures Release([8, -16, 52], 1) == [92]
  {
    assert [8, -16, 52][..1] == [8];
    assert [8, -16, 52][..3] == [8, -16, 52];
    assert [8, -16, 52][1..] == [-16, 52];
    assert [8, -16, 52][1..][1..] == [52];
    TotalOne(8);
    TotalPair(-16, 52);
  }

  // ---------------------------------------------------------------------------
  // The right-neighbour test of deallocate
  // ---------------------------------------------------------------------------

  /** deallocate reads a right neighbour after the footer at end when end != a + N. */
  predicate RightTestAsWritten(end: int, n: int) {
    end != n
  }

  /**
   * The footer of the last block sits at n - 4, never at n, so the written
   * test passes there and deallocate reads the cell at byte n, one past the
   * arena.
   */
  lemma {:induction false} LastFooterPassesTest(b: seq<int>, n: int)
    requires WellFormed(b, n) && b != []
    ensures var f := Start(b, |b| - 1) + Span(b[|b| - 1]) - SentinelSize;
      f == n - SentinelSize && RightTestAsWritten(f, n) && f + SentinelSize == n
  {
    StartNext(b, |b| - 1);
    StartEnd(b);
  }

  /**
   * With doubles in a 40-byte arena, allocate(1) twice leaves [-8, -16].
   * Freeing the second block starts from its footer at 36; the written test
   * 36 != 40 passes and the neighbour read is at byte 40. The block has no
   * right neighbour, and freeing it gives [-8, 16].
   */
  lemma LastBlockReadsPastArena()
    ensures Carve(Carve(Initial(40), 0, 8, 16), 1, 8, 16) == [-8, -16]
    ensures Start([-8, -16], 1) + Span(-16) - SentinelSize == 36
    ensures RightTestAsWritten(36, 40) && 36 + SentinelSize == 40
    ensures MergeHi([-8, -16], 1) == 2 && Release([-8, -16], 1) == [-8, 16]
  {
    assert [-8, -16][..1] == [-8];
    TotalOne(-8);
  }

  // ---------------------------------------------------------------------------
  // The null result of allocate
  // ---------------------------------------------------------------------------

  /** allocate returns null only when the block the scan stopped at has *p > 0 && *p < size. */
  predicate NullAsWritten(v: int, size: int) {
    v > 0 && v < size
  }

  /**
   * The block the scan stops at when nothing fits is one where Fits fails.
   * The written null test misses exactly the exact fit and the tags that are
   * not positive.
   */
  lemma NullMissesExactFit(v: int, size: int)
    ensures !Fits(v, size) && !NullAsWritten(v, size) <==> v == size || v <= 0
  {
  }

  /**
   * With doubles in a 40-byte arena, allocate(4) asks for 32 bytes from the
   * one free block of 32. The written scan steps from 0 to the last footer at
   * 36 and stops; the null test does not fire, and the whole-block case then
   * writes its footer at 36 + 36 = 72, past the 40-byte arena. In the model no
   * block fits, and allocate returns null.
   */
  lemma ExactFitOverruns()
    ensures ScanStepAsWritten(0, 32) == 40 - SentinelSize
    ensures !Fits(32, 32) && !NullAsWritten(32, 32)
    ensures (40 - SentinelSize) + (32 / SentinelSize + 1) * SentinelSize == 72
    ensures FirstFit(Initial(40), 4 * 8) == |Initial(40)|
  {
  }

  // ---------------------------------------------------------------------------
  // The consistency check
  // ---------------------------------------------------------------------------

  /** valid() as written: it returns true whatever the arena holds. */
  predicate ValidAsWritten(s: seq<int>) {
    true
  }

  /**
   * An arena whose first sentinel is 0 has no valid layout at all, and the
   * sentinel walk rejects it, yet valid() as written accepts it.
   */
  lemma ValidAcceptsBrokenArena(s: seq<int>)
    requires |s| > 0 && s[0] == 0
    ensures ValidAsWritten(s) && Walk(s, 0, false) == None
    ensures forall b :: !(Laid(s, b, 0) && WellFormed(b, |s|))
  {
    forall b
      ensures !(Laid(s, b, 0) && WellFormed(b, |s|))
    {
      WalkExact(s, b);
    }
  }
}
