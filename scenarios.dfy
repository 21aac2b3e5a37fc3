/**
 * The unit tests of TestAllocator.c++ (the TestAllocator2 suite), replayed on
 * the model: each method builds an allocator, runs the test's calls, and its
 * postcondition states the values the test asserts. BadCount adapts its test
 * to a constructed arena, and DoubleFree is an added scenario for the doc
 * comment of deallocate. Sizes are in bytes: sizeof(int) == 4 and
 * sizeof(double) == 8.
 */
module Scenarios {
  import opened Wrappers
  import opened Layout
  import opened Allocator

  /** A fresh my_allocator<int, 100> holds 92 at offset 0. */
  method Index() returns (front: int)
    ensures front == 92
  {
    var r := Create(100, 4);
    var x := r.value;
    front := x.At(0);
  }

  /**
   * my_allocator<double, 40>: 32 at offset 0; allocate(1) splits the block,
   * serving the payload at 4 and leaving -8 at offset 0; freeing it gives 32
   * back.
   */
  method Coalesce() returns (fresh0: int, served: int, used0: int, freed0: int)
    ensures fresh0 == 32 && served == 4 && used0 == -8 && freed0 == 32
  {
    var r := Create(40, 8);
    var x := r.value;
    fresh0 := x.At(0);
    assert FirstFit([32], 8) == 0;
    var y := x.Allocate(1);
    served := y.value.value;
    assert x.blocks == [-8, 16];
    used0 := x.At(0);
    assert BlockAt([-8, 16], 4 - SentinelSize) == 0;
    var d := x.Deallocate(served);
    assert x.blocks == [32];
    freed0 := x.At(0);
  }

  /**
   * my_allocator<double, 100>: allocate(1) then allocate(2) leave -8 at offset
   * 0; freeing the first block leaves 8 there, and freeing the second merges
   * all three blocks back into one free block of 92.
   */
  method CoalesceBoth() returns (used0: int, half0: int, freed0: int)
    ensures used0 == -8 && half0 == 8 && freed0 == 92
  {
    var r := Create(100, 8);
    var x := r.value;
    assert FirstFit([92], 8) == 0;
    var y := x.Allocate(1);
    assert x.blocks == [-8, 76];
    assert FirstFit([-8, 76], 16) == 1;
    assert Start([-8, 76], 1) == 16 by {
      assert [-8, 76][..1] == [-8];
      TotalOne(-8);
    }
    var z := x.Allocate(2);
    assert z == Ok(Some(20));
    assert x.blocks == [-8, -16, 52];
    used0 := x.At(0);
    assert BlockAt([-8, -16, 52], 0) == 0;
    var d := x.Deallocate(y.value.value);
    assert x.blocks == [8, -16, 52];
    half0 := x.At(0);
    assert BlockAt([8, -16, 52], 16) == 1 by {
      assert [8, -16, 52][..1] == [8];
      TotalOne(8);
      BlockAtStart([8, -16, 52], 1);
    }
    var e := x.Deallocate(z.value.value);
    assert x.blocks == [92];
    freed0 := x.At(0);
  }

  /**
   * my_allocator<double, 1000>: allocate(123) asks for 984 of the 992 free
   * bytes; the 8 left over are too few for a block, so the whole block is
   * served and offset 0 holds -992.
   */
  method TakeRest() returns (used0: int)
    ensures used0 == -992
  {
    var r := Create(1000, 8);
    var x := r.value;
    assert FirstFit([992], 984) == 0;
    var y := x.Allocate(123);
    assert x.blocks == [-992];
    used0 := x.At(0);
  }

  /** my_allocator<double, 1> cannot hold one block: construction throws bad_alloc. */
  method BadBytes() returns (r: Result<MyAllocator, Error>)
    ensures r == Err(BadAlloc)
  {
    r := Create(1, 8);
  }

  /**
   * allocate(0) throws bad_alloc and leaves the arena as it was. The model
   * also refuses allocate(-1); in the source the -1 converts to a huge
   * unsigned count, so the test at Allocator.h:119 does not throw for it on a
   * constructed allocator. The tests that pass 0 and -1 throw bad_alloc
   * already when constructing the one-byte arena.
   */
  method BadCount() returns (zero: Result<Option<int>, Error>, negative: Result<Option<int>, Error>, front: int)
    ensures zero == Err(BadAlloc) && negative == Err(BadAlloc) && front == 92
  {
    var r := Create(100, 8);
    var x := r.value;
    zero := x.Allocate(0);
    negative := x.Allocate(-1);
    front := x.At(0);
  }

  /**
   * my_allocator<double, 100>: after allocate(8) serves the payload at 4,
   * deallocate of the next double's address (12) throws invalid_argument and
   * changes nothing.
   */
  method BadDealloc() returns (d: Result<(), Error>, used0: int)
    ensures d == Err(InvalidArgument) && used0 == -64
  {
    var r := Create(100, 8);
    var x := r.value;
    assert FirstFit([92], 64) == 0;
    var y := x.Allocate(8);
    assert y == Ok(Some(4));
    assert x.blocks == [-64, 20];
    assert BlockAt([-64, 20], 12 - SentinelSize) == 2 by {
      assert [-64, 20][1..] == [20];
      assert [-64, 20][1..][1..] == [];
    }
    d := x.Deallocate(12);
    used0 := x.At(0);
  }

  /**
   * Freeing the same payload address twice: the first deallocate of a block
   * served from my_allocator<double, 100> succeeds, the second throws
   * invalid_argument.
   */
  method DoubleFree() returns (first: Result<(), Error>, second: Result<(), Error>)
    ensures first == Ok(()) && second == Err(InvalidArgument)
  {
    var r := Create(100, 8);
    var x := r.value;
    assert FirstFit([92], 8) == 0;
    var y := x.Allocate(1);
    assert x.blocks == [-8, 76];
    first := x.Deallocate(4);
    assert x.blocks == [92];
    second := x.Deallocate(4);
  }
}
