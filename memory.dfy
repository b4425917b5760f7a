/** The bump arena every allocation of the tool goes through: one block of
    memory [base, end), a frontier `begin` that only moves forward (except
    when the last block is grown in place), no frees. Addresses are plain
    integers; the bytes of the block are an array indexed by address - base. */
module Memory {
  import opened Types

  /** Alignment `arena_alloc` uses. */
  const ARENA_DEFAULT_ALIGNMENT: nat := 16

  /** The null pointer; no arena block contains address 0. */
  const NULL: nat := 0

  predicate IsPowerOfTwo(n: nat)
    decreases n
  {
    n == 1 || (n >= 2 && n % 2 == 0 && IsPowerOfTwo(n / 2))
  }

  predicate IsAligned(address: nat, alignment: nat)
    requires alignment > 0
  {
    address % alignment == 0
  }

  /** Bytes to skip so that `address` becomes a multiple of `alignment`:
      `(-address) mod alignment`, the value the source computes as
      `(~address + 1) & (alignment - 1)` for a power-of-two alignment. The
      result is the distance to the first aligned address at or after
      `address`. */
  function Padding(address: nat, alignment: nat): (padding: nat)
    requires alignment > 0
    ensures padding < alignment
    ensures IsAligned(address + padding, alignment)
    ensures forall a :: address <= a < address + padding ==> !IsAligned(a, alignment)
  {
    PaddingIsLeast(address, alignment);
    (-(address as int)) % alignment
  }

  lemma PaddingIsLeast(address: nat, alignment: nat)
    requires alignment > 0
    ensures var p := (-(address as int)) % alignment;
      0 <= p < alignment && IsAligned(address + p, alignment) &&
      forall a :: address <= a < address + p ==> !IsAligned(a, alignment)
  {
    var p := (-(address as int)) % alignment;
    var k := (-(address as int)) / alignment;
    assert address + p == (-k) * alignment;
    ModOfMultiplePlus(-k, alignment, 0);
    forall a | address <= a < address + p
      ensures !IsAligned(a, alignment)
    {
      var r := alignment - (address + p - a);
      assert a == (-k - 1) * alignment + r by {
        assert (-k - 1) * alignment == (-k) * alignment - alignment;
      }
      ModOfMultiplePlus(-k - 1, alignment, r);
    }
  }

  /** Euclidean division is unique: `j * m + r` leaves remainder `r`. */
  lemma ModOfMultiplePlus(j: int, m: int, r: int)
    requires m > 0 && 0 <= r < m
    ensures (j * m + r) % m == r
  {
    var x := j * m + r;
    var d := j - x / m;
    assert d * m == x % m - r by {
      assert x == (x / m) * m + x % m;
      assert d * m == j * m - (x / m) * m;
    }
  }

  /** Outcome of an allocation: `Aborted` stands for the `abort()` the source
      calls when the arena is exhausted. */
  datatype Allocation = Aborted | Allocated(ptr: nat)

  class Arena {
    /** Address of the first byte of the arena's memory. */
    const base: nat
    /** One past the last address of the arena. */
    const end: nat
    /** The bytes at addresses base .. end - 1. */
    const memory: array<u8>
    /** The allocation frontier: the first free address. */
    var begin: nat

    ghost predicate Valid()
      reads this
    {
      NULL < base <= begin <= end && memory.Length == end - base
    }

    /** The `n` bytes stored from address `p` on. */
    function Block(p: nat, n: nat): (bytes: seq<u8>)
      reads this, memory
      requires memory.Length == end - base && base <= p && p + n <= end
      ensures |bytes| == n
    {
      memory[p - base..p - base + n]
    }

    /** `Arena arena = {memory, memory + capacity}` over freshly obtained memory. */
    constructor (address: nat, capacity: nat)
      requires NULL < address
      ensures Valid() && fresh(memory)
      ensures base == begin == address && end == address + capacity
    {
      base, end, begin := address, address + capacity, address;
      memory := new u8[capacity];
    }

    /** `arena_alloc_aligned`: a size of 0 gives NULL and takes nothing;
        otherwise the block starts at the first `alignment`-aligned address
        at or after `begin`, and the arena aborts when the padding and the
        block do not fit before `end`. */
    method AllocAligned(size: nat, alignment: nat) returns (r: Allocation)
      requires Valid() && IsPowerOfTwo(alignment)
      modifies this`begin
      ensures Valid()
      ensures size == 0 ==> r == Allocated(NULL) && begin == old(begin)
      ensures size > 0 ==>
        var padding := Padding(old(begin), alignment);
        if padding + size <= end - old(begin) then
          r == Allocated(old(begin) + padding) && begin == old(begin) + padding + size
        else
          r == Aborted && begin == old(begin)
      ensures size > 0 && r.Allocated? ==>
        IsAligned(r.ptr, alignment) && old(begin) <= r.ptr && r.ptr + size == begin <= end
      ensures size > end - old(begin) ==> r == Aborted
    {
      if size == 0 {
        return Allocated(NULL);
      }

      var padding := Padding(begin, alignment);
      var memoryLeft := end - begin - padding;
      if memoryLeft < 0 || memoryLeft < size {
        // The arena is exhausted: the program logs an error and aborts here.
        return Aborted;
      }

      var ptr := begin + padding;
      begin := begin + padding + size;
      return Allocated(ptr);
    }

    /** `arena_alloc`: `AllocAligned` with the default alignment of 16. */
    method Alloc(size: nat) returns (r: Allocation)
      requires Valid()
      modifies this`begin
      ensures Valid()
      ensures size == 0 ==> r == Allocated(NULL) && begin == old(begin)
      ensures size > 0 ==>
        var padding := Padding(old(begin), ARENA_DEFAULT_ALIGNMENT);
        if padding + size <= end - old(begin) then
          r == Allocated(old(begin) + padding) && begin == old(begin) + padding + size
        else
          r == Aborted && begin == old(begin)
    {
      assert IsPowerOfTwo(2) && IsPowerOfTwo(4) && IsPowerOfTwo(8);
      assert IsPowerOfTwo(ARENA_DEFAULT_ALIGNMENT);
      r := AllocAligned(size, ARENA_DEFAULT_ALIGNMENT);
    }

    /** `arena_realloc`. Shrinking returns the block unchanged. Growing the
        block that ends at the frontier rewinds `begin` to it and allocates
        again with the default alignment, copying nothing: the block keeps
        its address (and so its bytes) only if that address is 16-aligned.
        Growing any other block allocates a fresh one and copies the old
        bytes into it. */
    method Realloc(oldPtr: nat, oldSize: nat, newSize: nat) returns (r: Allocation)
      requires Valid()
      requires oldSize < newSize ==>
        (oldPtr == NULL && oldSize == 0) || (base <= oldPtr && oldPtr + oldSize <= begin)
      modifies this`begin, memory
      ensures Valid()
      ensures newSize <= oldSize ==>
        r == Allocated(oldPtr) && begin == old(begin) && memory[..] == old(memory[..])
      ensures oldSize < newSize && oldPtr != NULL && oldPtr + oldSize == old(begin) ==>
        memory[..] == old(memory[..]) &&
        var padding := Padding(oldPtr, ARENA_DEFAULT_ALIGNMENT);
        if padding + newSize <= end - oldPtr then
          r == Allocated(oldPtr + padding) && begin == oldPtr + padding + newSize
        else
          r == Aborted && begin == oldPtr
      ensures oldSize < newSize && oldPtr != NULL && oldPtr + oldSize == old(begin) && r.Allocated? ==>
        (r.ptr == oldPtr <==> IsAligned(oldPtr, ARENA_DEFAULT_ALIGNMENT)) &&
        (r.ptr == oldPtr ==> Block(r.ptr, oldSize) == old(Block(oldPtr, oldSize)))
      ensures oldSize < newSize && !(oldPtr != NULL && oldPtr + oldSize == old(begin)) ==>
        var padding := Padding(old(begin), ARENA_DEFAULT_ALIGNMENT);
        if padding + newSize <= end - old(begin) then
          r == Allocated(old(begin) + padding) && begin == old(begin) + padding + newSize &&
          (oldPtr != NULL ==> Block(r.ptr, oldSize) == old(Block(oldPtr, oldSize))) &&
          forall i :: 0 <= i < memory.Length && !(r.ptr - base <= i < r.ptr - base + oldSize) ==>
            memory[i] == old(memory[i])
        else
          r == Aborted && begin == old(begin) && memory[..] == old(memory[..])
    {
      if oldSize >= newSize {
        return Allocated(oldPtr);
      }

      if oldPtr != NULL && oldPtr + oldSize == begin {
        begin := oldPtr;
        r := Alloc(newSize);
      } else {
        r := Alloc(newSize);
        if r.Allocated? {
          // memcpy(new_ptr, old_ptr, old_size): the old block lies below the
          // old frontier and the new one above it, so they do not overlap.
          var dst, src := r.ptr - base, oldPtr - base;
          forall i | 0 <= i < oldSize {
            memory[dst + i] := memory[src + i];
          }
        }
      }
    }
  }

  /** A block allocated with alignment 1 at an odd address and then grown in
      place comes back at the next 16-aligned address, without its bytes
      being copied: the byte 0xAB stored in the old block is still at the
      old address, and the new block holds what was there before. */
  method ReallocUnalignedTailMoves() returns (oldPtr: nat, newPtr: nat, oldByte: u8, newByte: u8)
    ensures oldPtr == 19 && newPtr == 32
    ensures oldByte == 0xAB && newByte == 0x00
  {
    var arena := new Arena(16, 64);
    var a := arena.AllocAligned(3, 1);
    var b := arena.AllocAligned(1, 1);
    oldPtr := b.ptr;
    arena.memory[oldPtr - arena.base] := 0xAB;
    arena.memory[32 - arena.base] := 0x00;
    var c := arena.Realloc(oldPtr, 1, 2);
    newPtr := c.ptr;
    oldByte := arena.memory[oldPtr - arena.base];
    newByte := arena.memory[newPtr - arena.base];
  }
}
