/**
 Capacities and block sizes of strings (src/string/create.c:9-25, 156-163 and src/string/pw_string_internal.h:97-103).
 */
module StringSizes {
  import opened Radix

  /** Bytes of an allocated block before the characters: reference count and capacity. */
  const HEADER: nat := 8
  const BLOCK: nat := 16

  predicate Width(w: nat) {
    1 <= w <= 4
  }

  /** w * n for the four character widths. */
  function Bytes(w: nat, n: nat): nat
    requires Width(w)
  {
    if w == 1 then n else if w == 2 then 2 * n else if w == 3 then 3 * n else 4 * n
  }

  function Chars(w: nat, bytes: nat): nat
    requires Width(w)
  {
    if w == 1 then bytes else if w == 2 then bytes / 2 else if w == 3 then bytes / 3 else bytes / 4
  }

  lemma {:induction false} BytesIsOffset(w: nat, n: nat)
    requires Width(w)
    ensures Bytes(w, n) == Offset(n, w)
    decreases n
  {
    if n > 0 {
      BytesIsOffset(w, n - 1);
    }
  }

  /** Characters that fit into the value itself. */
  function EmbeddedCapacity(w: nat): nat
    requires Width(w)
  {
    Chars(w, 12)
  }

  /** As many as go into its twelve bytes. */
  lemma EmbeddedIsMost(w: nat)
    requires Width(w)
    ensures forall n: nat :: n <= EmbeddedCapacity(w) <==> Bytes(w, n) <= 12
  {
  }

  function MaxCapacity(w: nat): nat
    requires Width(w)
  {
    Chars(w, 0xFFFF_FFFF - HEADER)
  }

  /** Block size for a capacity, rounded up to whole blocks, in 32 bits. */
  function DataSize(w: nat, capacity: nat): nat
    requires Width(w)
  {
    var size := U32(HEADER + U32(Bytes(w, capacity)) + BLOCK - 1);
    size - size % BLOCK
  }

  /** Capacity stored in a block of a size; the subtraction is done in 64 bits and the result cut to 32. */
  function RealCapacity(w: nat, size: nat): nat
    requires Width(w)
  {
    U32(Chars(w, if size >= HEADER then size - HEADER else TWO_64 + size - HEADER))
  }

  /** No 32-bit wrap-around happens in computing the size. */
  predicate NoWrap(w: nat, capacity: nat)
    requires Width(w)
  {
    HEADER + Bytes(w, capacity) + BLOCK - 1 < TWO_32
  }

  /** The block holds its header and the stored capacity, which is at least the requested one. */
  predicate Sound(w: nat, capacity: nat)
    requires Width(w)
  {
    var size := DataSize(w, capacity);
    capacity <= RealCapacity(w, size) && HEADER + Bytes(w, RealCapacity(w, size)) <= size
  }

  /** Sizes are sound exactly when the computation does not wrap. */
  lemma SoundExactly(w: nat, capacity: nat)
    requires Width(w) && capacity < TWO_32
    ensures Sound(w, capacity) <==> NoWrap(w, capacity)
  {
    if w == 1 {
    } else if w == 2 {
    } else if w == 3 {
    } else {
    }
  }

  /**
   The size recomputed from the stored capacity is the size allocated, so freeing and reallocating pass the right one.
   */
  lemma SizeRecomputed(w: nat, capacity: nat)
    requires Width(w) && NoWrap(w, capacity)
    ensures DataSize(w, RealCapacity(w, DataSize(w, capacity))) == DataSize(w, capacity)
    ensures capacity <= RealCapacity(w, DataSize(w, capacity)) && NoWrap(w, RealCapacity(w, DataSize(w, capacity)))
    ensures HEADER + Bytes(w, RealCapacity(w, DataSize(w, capacity))) <= DataSize(w, capacity)
  {
    var size := DataSize(w, capacity);
    var stored := RealCapacity(w, size);
    PlainSize(w, capacity);
    PlainCapacity(w, size);
    PlainSize(w, stored);
    hide DataSize, RealCapacity;
    CapacityBelow(w, capacity, stored, size);
    RoundedAgain(Bytes(w, capacity), Bytes(w, stored), size);
  }

  /** A greater capacity takes no smaller a block. */
  lemma SizeGrows(w: nat, capacity: nat, more: nat)
    requires Width(w) && capacity <= more && NoWrap(w, more)
    ensures DataSize(w, capacity) <= DataSize(w, more) && NoWrap(w, capacity)
  {
    BytesOrdered(w, capacity, more);
    PlainSize(w, capacity);
    PlainSize(w, more);
    hide DataSize, Bytes;
  }

  lemma BytesOrdered(w: nat, a: nat, b: nat)
    requires Width(w) && a <= b
    ensures Bytes(w, a) <= Bytes(w, b)
  {
  }

  lemma PlainSize(w: nat, capacity: nat)
    requires Width(w) && NoWrap(w, capacity)
    ensures DataSize(w, capacity) == Bytes(w, capacity) + 23 - (Bytes(w, capacity) + 23) % BLOCK
    ensures DataSize(w, capacity) % BLOCK == 0 && HEADER <= DataSize(w, capacity) < TWO_32
  {
    hide Bytes;
  }

  lemma PlainCapacity(w: nat, size: nat)
    requires Width(w) && HEADER <= size < TWO_32
    ensures var stored := RealCapacity(w, size);
            Bytes(w, stored) <= size - HEADER < Bytes(w, stored) + w
                && NoWrap(w, stored) == (HEADER + Bytes(w, stored) + BLOCK - 1 < TWO_32)
  {
    if w == 1 {
    } else if w == 2 {
    } else if w == 3 {
    } else {
    }
  }

  lemma CapacityBelow(w: nat, capacity: nat, stored: nat, size: nat)
    requires Width(w) && Bytes(w, capacity) + 8 <= size && size - HEADER < Bytes(w, stored) + w
    ensures capacity <= stored
  {
  }

  lemma RoundedAgain(want: nat, have: nat, size: nat)
    requires size == want + 23 - (want + 23) % BLOCK && size % BLOCK == 0
    requires have + 8 <= size < have + 12
    ensures have + 23 - (have + 23) % BLOCK == size
  {
  }

  /** The capacity a widened or grown copy asks for: never less memory than the old block. */
  function CopyCapacity(w: nat, newW: nat, oldCapacity: nat, length: nat): nat
    requires Width(w) && Width(newW)
  {
    if U32(Bytes(newW, length)) < U32(Bytes(w, oldCapacity)) then Chars(newW, U32(Bytes(w, oldCapacity))) else length
  }

  /**
   The assertion made of that capacity fails exactly when the byte length wraps round to less than the old block's.
   */
  lemma CopyCapacityAssertion(w: nat, newW: nat, oldCapacity: nat, length: nat)
    requires Width(w) && Width(newW) && length < TWO_32 && Bytes(w, oldCapacity) < TWO_32
    ensures CopyCapacity(w, newW, oldCapacity, length) < length <==>
              Bytes(newW, length) >= TWO_32 && U32(Bytes(newW, length)) < Bytes(w, oldCapacity)
  {
    if newW == 1 {
    } else if newW == 2 {
    } else if newW == 3 {
    } else {
    }
  }

  /** Without wrap-around it holds, and the copy's own size does not wrap either. */
  lemma CopyCapacitySafe(w: nat, newW: nat, oldCapacity: nat, length: nat)
    requires Width(w) && Width(newW) && NoWrap(newW, length) && NoWrap(w, oldCapacity)
    ensures CopyCapacity(w, newW, oldCapacity, length) >= length
    ensures NoWrap(newW, CopyCapacity(w, newW, oldCapacity, length))
  {
    if newW == 1 {
    } else if newW == 2 {
    } else if newW == 3 {
    } else {
    }
  }

  /** A string of 2^30 one-byte characters, in the block of one more, widened to four bytes: the assertion fails. */
  lemma AssertionFails()
    ensures var stored := RealCapacity(1, DataSize(1, 0x4000_0001));
            && NoWrap(1, 0x4000_0001) && stored == 0x4000_0008
            && CopyCapacity(1, 4, stored, 0x4000_0000) == 0x1000_0002 < 0x4000_0000
  {
  }

  /** A capacity the code lets pass although its block size wraps to nothing. */
  lemma LargestCapacityWraps()
    ensures MaxCapacity(1) == 0xFFFF_FFF7 && DataSize(1, MaxCapacity(1)) == 0
  {
  }
}
