/**
 * The bump allocator over a fixed buffer (med/allocator.hpp). Two cursors,
 * `begin` and `end`, delimit the free space inside the assigned region
 * `[start, finish)`: the forward allocator places objects at `begin` and
 * moves it up, the backward allocator places them below `end` and moves it
 * down, pulling in the end of a cooperating codec buffer as well.
 *
 * Addresses are natural numbers and a null pointer is address 0. For a
 * power-of-two alignment `a`, the mask `x & -a` keeps `x` but for its low
 * bits, which is `x - x % a`. Constructing the object in place is recorded
 * as the block of addresses it occupies.
 */
module Allocation {
  import opened Exceptions
  import opened Arithmetic

  /** `uintptr_t` holds addresses modulo 2^64. */
  const UintptrModulus: nat := 0x1_0000_0000_0000_0000

  /** What the allocator knows of a type `T`: its name, `sizeof(T)` and `alignof(T)`. */
  datatype TypeInfo = TypeInfo(name: string, size: nat, align: nat)

  predicate IsPowerOfTwo(n: nat)
    decreases n
  {
    if n <= 1 then n == 1 else n % 2 == 0 && IsPowerOfTwo(n / 2)
  }

  /** What C++ guarantees of every complete type: positive size, power-of-two alignment dividing the size. */
  predicate IsLayout(t: TypeInfo) {
    t.size >= 1 && IsPowerOfTwo(t.align) && t.size % t.align == 0
  }

  predicate IsAligned(a: nat, align: nat)
    requires align >= 1
  {
    a % align == 0
  }

  /** `x & -align`. */
  function AlignDown(x: nat, align: nat): (r: nat)
    requires align >= 1
    ensures IsAligned(r, align) && r <= x < r + align
  {
    MultipleOfAlign(x / align, align);
    x - x % align
  }

  lemma MultipleOfAlign(k: nat, align: nat)
    requires align >= 1
    ensures (k * align) % align == 0
  {
    DivModUnique(k, 0, align);
  }

  /** Two distinct aligned addresses are at least one alignment apart. */
  lemma AlignedApart(a: nat, b: nat, align: nat)
    requires align >= 1 && IsAligned(a, align) && IsAligned(b, align) && a < b
    ensures a + align <= b
  {
    var ka, kb := a / align, b / align;
    assert a == ka * align && b == kb * align;
    if kb <= ka {
      MulMono(kb, ka, align);
      assert false;
    }
    MulMono(ka + 1, kb, align);
  }

  /** `forward_aligned<T>(p)`: the least address aligned for `T` at or above `p`. */
  function ForwardAligned(p: nat, t: TypeInfo): (r: nat)
    requires IsLayout(t)
    ensures IsAligned(r, t.align) && p <= r < p + t.align
  {
    AlignDown(p + t.align - 1, t.align)
  }

  /** No aligned address at or above `p` lies below `forward_aligned<T>(p)`. */
  lemma ForwardAlignedIsLeast(p: nat, t: TypeInfo, a: nat)
    requires IsLayout(t) && IsAligned(a, t.align) && p <= a
    ensures ForwardAligned(p, t) <= a
  {
    var r := ForwardAligned(p, t);
    if a < r {
      AlignedApart(a, r, t.align);
      assert false;
    }
  }

  /**
   * `backward_aligned<T>(p)` when `p` is at least `sizeof(T)`: the greatest
   * address aligned for `T` whose object ends at or before `p`.
   */
  function BackwardAligned(p: nat, t: TypeInfo): (r: nat)
    requires IsLayout(t) && t.size <= p
    ensures IsAligned(r, t.align) && r + t.size <= p < r + t.size + t.align
  {
    AlignDown(p - t.size, t.align)
  }

  /** No aligned object that ends at or before `p` starts above `backward_aligned<T>(p)`. */
  lemma BackwardAlignedIsGreatest(p: nat, t: TypeInfo, a: nat)
    requires IsLayout(t) && t.size <= p && IsAligned(a, t.align) && a + t.size <= p
    ensures a <= BackwardAligned(p, t)
  {
    var r := BackwardAligned(p, t);
    if r < a {
      AlignedApart(r, a, t.align);
      assert false;
    }
  }

  /** `backward_aligned<T>(p)` as written: `p - sizeof(T)` is computed in `uintptr_t` and wraps below 0. */
  function BackwardAlignedAsWritten(p: nat, t: TypeInfo): (r: nat)
    requires IsLayout(t)
    ensures r < UintptrModulus
    ensures t.size <= p < UintptrModulus ==> r == BackwardAligned(p, t)
  {
    var u := (p - t.size) % UintptrModulus;
    assert t.size <= p < UintptrModulus ==> u == p - t.size;
    AlignDown(u, t.align)
  }

  /** The room test of `allocator<false>::allocate` as written: `begin <= backward_aligned<T>(end)`. */
  predicate BackwardRoomAsWritten(begin: nat, end: nat, t: TypeInfo)
    requires IsLayout(t)
    ensures t.size <= end < UintptrModulus ==> (BackwardRoomAsWritten(begin, end, t) <==> begin <= BackwardAligned(end, t))
  {
    begin <= BackwardAlignedAsWritten(end, t)
  }

  /**
   * When `end` is below `sizeof(T)` (an allocator whose buffer is null or was
   * never set has `begin == end == 0`), the room test as written passes and
   * the object would be placed near the top of the address space, outside
   * `[begin, end)`, instead of failing with `out_of_memory`.
   */
  lemma BackwardRoomAsWrittenWraps(begin: nat, end: nat, t: TypeInfo)
    requires IsLayout(t) && t.size <= 0x1_0000_0000 && t.align <= 0x1_0000_0000
    requires begin <= end < t.size
    ensures BackwardRoomAsWritten(begin, end, t)
    ensures BackwardAlignedAsWritten(end, t) > end
  {
    var u := (end - t.size) % UintptrModulus;
    assert u == end - t.size + UintptrModulus;
  }

  /** The null-buffer instance of the above for an 8-byte, 8-aligned type. */
  lemma BackwardRoomAsWrittenOnNullBuffer()
    ensures var t := TypeInfo("uint64_t", 8, 8);
      BackwardRoomAsWritten(0, 0, t) && BackwardAlignedAsWritten(0, t) == UintptrModulus - 8
  {
    var t := TypeInfo("uint64_t", 8, 8);
    assert IsLayout(t);
    assert (0 - 8) % UintptrModulus == UintptrModulus - 8;
  }

  /** An address that is already aligned is its own `forward_aligned`. */
  lemma ForwardAlignedOfAligned(p: nat, t: TypeInfo)
    requires IsLayout(t) && IsAligned(p, t.align)
    ensures ForwardAligned(p, t) == p
  {
    var q := p / t.align;
    assert p == q * t.align;
    DivModUnique(q, t.align - 1, t.align);
    assert (p + t.align - 1) % t.align == t.align - 1;
  }

  /**
   * A forward arena starting at an aligned address and holding exactly `n`
   * objects of type `t`: after `k` allocations `begin` sits at the `k`-th
   * slot, already aligned, and the next allocation succeeds exactly when
   * `k < n`. So the first `n` allocations succeed, back to back, and the
   * next one fails with `out_of_memory`.
   */
  lemma {:induction false} ForwardExhaustion(s: nat, t: TypeInfo, n: nat, k: nat)
    requires IsLayout(t) && IsAligned(s, t.align)
    ensures ForwardAligned(s + k * t.size, t) == s + k * t.size
    ensures ForwardAligned(s + k * t.size, t) + t.size <= s + n * t.size <==> k < n
  {
    var a := t.align;
    var qs, qt := s / a, t.size / a;
    assert s + k * t.size == (qs + k * qt) * a by {
      assert t.size == qt * a;
      assert k * t.size == (k * qt) * a;
    }
    DivModUnique(qs + k * qt, 0, a);
    ForwardAlignedOfAligned(s + k * t.size, t);
    if k < n {
      MulMono(k + 1, n, t.size);
    } else {
      MulMono(n, k, t.size);
    }
  }

  /** `int(n)` for a `size_t` `n`: its low 32 bits read as a two's-complement `int`. */
  function IntCast(n: nat): (r: int)
    ensures -0x8000_0000 <= r < 0x8000_0000
    ensures r % 0x1_0000_0000 == n % 0x1_0000_0000
    ensures n < 0x8000_0000 ==> r == n
  {
    var low := n % 0x1_0000_0000;
    if low < 0x8000_0000 then low else low - 0x1_0000_0000
  }

  /**
   * The room test of `allocator<true>::allocate` as written:
   * `end - forward_aligned(begin) >= int(sizeof(T))`. For every type smaller
   * than 2^31 bytes it is the test `AllocateForward` uses.
   */
  predicate ForwardRoomAsWritten(begin: nat, end: nat, t: TypeInfo)
    requires IsLayout(t)
    ensures t.size < 0x8000_0000 ==> (ForwardRoomAsWritten(begin, end, t) <==> ForwardAligned(begin, t) + t.size <= end)
  {
    end - ForwardAligned(begin, t) >= IntCast(t.size)
  }

  /**
   * A type of 2^31 bytes narrows to a negative `int`, so the room test as
   * written passes with no free space at all.
   */
  lemma ForwardRoomAsWrittenNarrows(begin: nat, t: TypeInfo)
    requires IsLayout(t) && t.size == 0x8000_0000 && IsAligned(begin, t.align)
    ensures ForwardRoomAsWritten(begin, begin, t)
    ensures ForwardAligned(begin, t) + t.size > begin
  {
    ForwardAlignedOfAligned(begin, t);
  }

  /** A block of addresses `[lo, hi)` holding one constructed object. */
  datatype Block = Block(lo: nat, hi: nat)

  predicate Disjoint(a: Block, b: Block) {
    a.hi <= b.lo || b.hi <= a.lo
  }

  predicate Within(b: Block, lo: nat, hi: nat) {
    lo <= b.lo && b.lo < b.hi && b.hi <= hi
  }

  /** An object of type `t` fits at address `a` inside `[lo, hi)`. */
  predicate FitsAt(a: nat, t: TypeInfo, lo: nat, hi: nat)
    requires IsLayout(t)
  {
    IsAligned(a, t.align) && lo <= a && a + t.size <= hi
  }

  /** The codec buffer that shares its region with a backward allocator; only its end is visible here. */
  class Buffer {
    var end: nat

    constructor (end: nat)
      ensures this.end == end
    {
      this.end := end;
    }
  }

  /**
   * `internal::base_allocator` with the `allocate` of both `allocator<true>`
   * (forward) and `allocator<false>` (backward). The backward allocator's
   * buffer reference is passed to its `allocate`.
   */
  class Allocator {
    var begin: nat
    var end: nat
    var start: nat
    var finish: nat

    /** The objects constructed since the last reset, one block each. */
    ghost var blocks: seq<Block>

    /**
     * The cursors lie inside the assigned region, every object lies below
     * `begin` or at or above `end`, and no two objects overlap.
     */
    ghost predicate Valid()
      reads this
    {
      && start <= begin <= end <= finish
      && (forall i :: 0 <= i < |blocks| ==> Within(blocks[i], start, begin) || Within(blocks[i], end, finish))
      && (forall i, j :: 0 <= i < j < |blocks| ==> Disjoint(blocks[i], blocks[j]))
    }

    /** All four pointers start out null. */
    constructor ()
      ensures Valid() && begin == end == start == finish == 0 && blocks == []
    {
      begin, end, start, finish := 0, 0, 0, 0;
      blocks := [];
    }

    /** `reset()`: frees everything by moving the cursors back to the ends of the region. */
    method Reset()
      requires Valid()
      modifies this
      ensures Valid() && begin == start && end == finish && blocks == []
      ensures start == old(start) && finish == old(finish)
    {
      begin := start;
      end := finish;
      blocks := [];
    }

    /** `reset(data, size)`: assigns the region `[data, data + size)`, empty when `data` is null. */
    method ResetTo(data: nat, size: nat)
      modifies this
      ensures Valid() && start == data && finish == data + (if data == 0 then 0 else size)
      ensures begin == start && end == finish && blocks == []
    {
      start := data;
      finish := start + (if start != 0 then size else 0);
      begin := start;
      end := finish;
      blocks := [];
    }

    /** `size()`: the free space between the cursors, 0 when they have met or crossed. */
    function Size(): (n: nat)
      reads this
      ensures n > 0 <==> begin < end
      ensures n > 0 ==> begin + n == end
    {
      if end > begin then end - begin else 0
    }

    /**
     * `allocator<true>::allocate<T>()`: places the object at the first
     * aligned address at or above `begin` and moves `begin` past it, or fails
     * with `out_of_memory` and the size of `T`, changing nothing, when no
     * aligned object fits below `end`.
     */
    method AllocateForward(t: TypeInfo) returns (r: Result<nat>)
      requires Valid() && IsLayout(t)
      modifies this
      ensures Valid() && start == old(start) && finish == old(finish) && end == old(end)
      ensures r.Ok? <==> exists a :: FitsAt(a, t, old(begin), end)
      ensures r.Ok? ==>
        && r.value == ForwardAligned(old(begin), t)
        && FitsAt(r.value, t, old(begin), end)
        && begin == r.value + t.size
        && blocks == old(blocks) + [Block(r.value, r.value + t.size)]
      ensures r.Err? ==> r.error == OutOfMemory(t.name, t.size) && begin == old(begin) && blocks == old(blocks)
    {
      var p := ForwardAligned(begin, t);
      if end - p >= t.size {
        var block := Block(p, p + t.size);
        blocks := blocks + [block];
        begin := p + t.size;
        r := Ok(p);
        assert FitsAt(p, t, old(begin), end);
      } else {
        r := Err(OutOfMemory(t.name, t.size));
        forall a | FitsAt(a, t, begin, end)
          ensures false
        {
          ForwardAlignedIsLeast(begin, t, a);
        }
      }
    }

    /**
     * `allocator<false>::allocate<T>()`: places the object at the last
     * aligned address whose object ends at or before `end`, and moves both
     * `end` and the buffer's end down to it; or fails with `out_of_memory`
     * and the size of `T`, changing nothing, when that address is below
     * `begin`. Unlike the source, an `end` below `sizeof(T)` counts as no room.
     */
    method AllocateBackward(t: TypeInfo, buffer: Buffer) returns (r: Result<nat>)
      requires Valid() && IsLayout(t)
      modifies this, buffer
      ensures Valid() && start == old(start) && finish == old(finish) && begin == old(begin)
      ensures r.Ok? <==> exists a :: FitsAt(a, t, begin, old(end))
      ensures r.Ok? ==>
        && r.value == BackwardAligned(old(end), t)
        && FitsAt(r.value, t, begin, old(end))
        && end == r.value && buffer.end == r.value
        && blocks == old(blocks) + [Block(r.value, r.value + t.size)]
      ensures r.Err? ==>
        && r.error == OutOfMemory(t.name, t.size)
        && end == old(end) && buffer.end == old(buffer.end) && blocks == old(blocks)
    {
      if t.size <= end && begin <= BackwardAligned(end, t) {
        var p := BackwardAligned(end, t);
        var block := Block(p, p + t.size);
        blocks := blocks + [block];
        end := p;
        buffer.end := p;
        r := Ok(p);
        assert FitsAt(p, t, begin, old(end));
      } else {
        r := Err(OutOfMemory(t.name, t.size));
        forall a | FitsAt(a, t, begin, end)
          ensures false
        {
          BackwardAlignedIsGreatest(end, t, a);
        }
      }
    }
  }
}
