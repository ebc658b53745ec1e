/** The byte-packed slot table of the hash map (src/pw_map.c:30-153, 212-229). */
module HashTables {
  import opened Radix
  import opened Probing

  const INITIAL_CAPACITY: nat := 8

  /** The largest capacity that growth comes to; its slots take half of the bytes that 32 bits can count. */
  const MAX_CAPACITY: nat := 0x2000_0000

  /** Bytes per slot that a capacity needs, as the least power of 256 above it. */
  function ItemSize(capacity: nat): (w: nat)
    ensures w >= 1
  {
    if capacity > 255 then 1 + ItemSize(capacity / 256) else 1
  }

  /** The slot width is the least one in which every index up to the capacity fits. */
  lemma {:induction false} ItemSizeFits(capacity: nat)
    ensures capacity < Pow256(ItemSize(capacity))
    ensures forall w: nat :: 1 <= w && capacity < Pow256(w) ==> ItemSize(capacity) <= w
  {
    if capacity > 255 {
      ItemSizeFits(capacity / 256);
      forall w: nat | 1 <= w && capacity < Pow256(w)
        ensures ItemSize(capacity) <= w
      {
        assert w != 1 by {
          assert Pow256(1) == 256 * Pow256(0);
        }
        assert capacity / 256 < Pow256(w - 1);
      }
    }
  }

  /** Computed by counting how often the capacity shifts right by eight bits. */
  method GetItemSize(capacity: nat) returns (itemSize: nat)
    ensures itemSize == ItemSize(capacity)
  {
    itemSize := 1;
    var n := capacity;
    while n > 255
      invariant itemSize + ItemSize(n) == ItemSize(capacity) + 1
    {
      itemSize := itemSize + 1;
      n := n / 256;
    }
  }

  /** The bytes of a table are counted without wrap-around. */
  lemma TableBytes(capacity: nat)
    requires capacity <= MAX_CAPACITY
    ensures Offset(capacity, ItemSize(capacity)) <= TWO_32 / 2
    ensures U32(Offset(capacity, ItemSize(capacity))) == Offset(capacity, ItemSize(capacity))
  {
    var w := ItemSize(capacity);
    Pow256Values();
    ItemSizeFits(capacity);
    OffsetIsProduct(capacity, w);
    assert w <= 4;
    assert w == 1 || w == 2 || w == 3 || w == 4;
  }

  /**
   Widths the machine has an integer type for use its (little-endian) byte order, others the generic big-endian routine.
   */
  predicate GenericOrder(itemSize: nat) {
    itemSize != 1 && itemSize != 2 && itemSize != 4
  }

  lemma {:induction false} ZeroesLoad(big: bool, b: seq<byte>)
    requires forall i :: 0 <= i < |b| ==> b[i] == 0
    ensures Load(big, b) == 0
    decreases |b|
  {
    if b != [] {
      ZeroesLoad(big, if big then b[..|b| - 1] else b[1..]);
    }
  }

  lemma Pow2Values()
    ensures Pow2(3) == 8 && Pow2(8) == 256 && Pow2(16) == 0x1_0000 && Pow2(24) == 0x100_0000
    ensures Pow2(29) == MAX_CAPACITY && Pow2(32) == TWO_32
  {
    assert Pow2(8) == 32 * Pow2(3) && Pow2(3) == 8;
    assert Pow2(16) == 256 * Pow2(8);
    assert Pow2(24) == 256 * Pow2(16);
    assert Pow2(29) == 32 * Pow2(24);
    assert Pow2(32) == 8 * Pow2(29);
  }

  lemma {:induction false} LowBitsKeepRemainder(x: nat, log: nat)
    requires log <= 32
    ensures Remainder(U32(x), Pow2(log)) == Remainder(x, Pow2(log))
    decreases x
  {
    if x >= TWO_32 {
      var y := x - TWO_32;
      LowBitsKeepRemainder(y, log);
      assert U32(x) == U32(y);
      assert x == y + Pow2(32) by {
        Pow2Values();
      }
      RemainderDrops(y, log, 32);
    }
  }

  /** `index & hash_bitmask` for a power-of-two capacity. */
  method Masked(index: nat, capacity: nat, ghost log: nat) returns (slot: nat)
    requires capacity == Pow2(log)
    ensures slot == Remainder(index, capacity)
  {
    AndMask(index, log);
    slot := BitAnd(index, capacity - 1);
  }

  /** The step of a probe: one up, and round the end of the table. */
  lemma StepWraps(cap: nat, h: nat, d: nat)
    requires h < cap <= MAX_CAPACITY && d < cap
    ensures Remainder(Around(cap, h, d) + 1, cap) == Around(cap, h, d + 1)
    ensures U32(Around(cap, h, d) + 1) == Around(cap, h, d) + 1
  {
  }

  /** The read loop for widths without a native type: shift left, add the next byte. */
  method LoadShifting(items: array<byte>, at: nat, w: nat) returns (value: nat)
    requires at + w <= items.Length && w <= 4
    ensures value == FromBE(items[at..at + w])
  {
    value := 0;
    var i := 0;
    while i < w
      invariant i <= w
      invariant value == FromBE(items[at..at + i])
    {
      var next := items[at..at + i + 1];
      assert next[..i] == items[at..at + i];
      LoadBound(true, next);
      Pow256Monotone(i + 1, 4);
      Pow256Values();
      value := U32(U32(value * 256) + items[at + i]);
      i := i + 1;
    }
  }

  /** The write loop: last byte first, shifting the value right. */
  method StoreShifting(items: array<byte>, at: nat, w: nat, value: nat)
    requires at + w <= items.Length
    modifies items
    ensures items[..] == Splice(old(items[..]), at, ToBE(value, w))
  {
    var i: nat, rest: nat := w, value;
    while i > 0
      invariant 0 <= i <= w
      invariant ToBE(value, w) == ToBE(rest, i) + items[at + i..at + w]
      invariant items[..at + i] == old(items[..at + i]) && items[at + w..] == old(items[at + w..])
    {
      i := i - 1;
      items[at + i] := rest % 256;
      assert items[at + i..at + w] == [items[at + i]] + items[at + i + 1..at + w];
      assert ToBE(rest, i + 1) == ToBE(rest / 256, i) + [rest % 256];
      rest := rest / 256;
      assert items[..at + i] == old(items[..at + i + 1])[..at + i];
    }
  }

  /** Reads a machine integer of 1, 2 or 4 bytes. */
  method LoadNative(items: array<byte>, at: nat, w: nat) returns (value: nat)
    requires at + w <= items.Length && (w == 1 || w == 2 || w == 4)
    ensures value == FromLE(items[at..at + w])
  {
    LEValues(items[at..at + w]);
    if w == 1 {
      value := items[at];
    } else if w == 2 {
      value := items[at] as int + 0x100 * (items[at + 1] as int);
    } else {
      value := items[at] as int + 0x100 * (items[at + 1] as int) + 0x1_0000 * (items[at + 2] as int)
          + 0x100_0000 * (items[at + 3] as int);
    }
  }

  /** Writes a machine integer of 1, 2 or 4 bytes, truncating the value. */
  method StoreNative(items: array<byte>, at: nat, w: nat, value: nat)
    requires at + w <= items.Length && (w == 1 || w == 2 || w == 4)
    modifies items
    ensures items[..] == Splice(old(items[..]), at, ToLE(value, w))
  {
    ToLEValues(value);
    items[at] := value % 256;
    if w >= 2 {
      items[at + 1] := value / 256 % 256;
    }
    if w == 4 {
      items[at + 2], items[at + 3] := value / 256 / 256 % 256, value / 256 / 256 / 256 % 256;
    }
  }

  class HashTable {
    var items: array<byte>
    var itemSize: nat
    var capacity: nat
    ghost var log: nat

    ghost predicate Valid()
      reads this, items
    {
      && 3 <= log <= 29 && capacity == Pow2(log) && 8 <= capacity <= MAX_CAPACITY
      && itemSize == ItemSize(capacity)
      && items.Length == Offset(capacity, itemSize)
    }

    /** The indexes held, slot by slot. */
    ghost function Slots(): (s: seq<nat>)
      requires Valid()
      reads this, items
      ensures |s| == capacity
    {
      Unpack(GenericOrder(itemSize), itemSize, capacity, items[..])
    }

    /** A new table of a power-of-two capacity. */
    constructor (capacity: nat, ghost log: nat)
      requires 3 <= log <= 29 && capacity == Pow2(log)
      ensures Valid() && fresh(items) && this.log == log
      ensures forall i :: 0 <= i < |Slots()| ==> Slots()[i] == 0
      ensures this.capacity == capacity
    {
      hide Offset, Unpack, Load, ItemSize;
      Pow2Monotone(log, 29);
      Pow2Values();
      TableBytes(capacity);
      var size := GetItemSize(capacity);
      items := new byte[U32(Offset(capacity, size))](_ => 0);
      itemSize, this.capacity, this.log := size, capacity, log;
      new;
      Pow2Monotone(3, log);
      AllUnused();
    }

    lemma AllUnused()
      requires Valid() && forall i :: 0 <= i < items.Length ==> items[i] == 0
      ensures forall i :: 0 <= i < |Slots()| ==> Slots()[i] == 0
    {
      hide Unpack, Offset, Load;
      CellsFit(capacity, itemSize);
      forall i | 0 <= i < capacity
        ensures Slots()[i] == 0
      {
        ZeroesLoad(GenericOrder(itemSize), items[..][Offset(i, itemSize)..Offset(i, itemSize) + itemSize]);
      }
    }

    /** Replaces the table by an empty one of another capacity. */
    method Init(newCapacity: nat, ghost newLog: nat)
      requires 3 <= newLog <= 29 && newCapacity == Pow2(newLog)
      modifies this
      ensures Valid() && fresh(items) && capacity == newCapacity && log == newLog
      ensures forall i :: 0 <= i < |Slots()| ==> Slots()[i] == 0
    {
      hide Unpack, Offset, Pow2;
      Pow2Monotone(newLog, 29);
      Pow2Values();
      TableBytes(newCapacity);
      itemSize := GetItemSize(newCapacity);
      items := new byte[U32(Offset(newCapacity, itemSize))](_ => 0);
      capacity, log := newCapacity, newLog;
      Pow2Monotone(3, log);
      AllUnused();
    }

    /** Reads one slot: native integers for widths 1, 2 and 4, a shifting loop for any other. */
    method GetItem(index: nat) returns (value: nat)
      requires Valid() && index < capacity
      ensures value == Slots()[index]
    {
      OffsetMonotone(index + 1, capacity, itemSize);
      ItemWidthIsSmall();
      if GenericOrder(itemSize) {
        value := LoadShifting(items, Offset(index, itemSize), itemSize);
      } else {
        value := LoadNative(items, Offset(index, itemSize), itemSize);
      }
    }

    lemma ItemWidthIsSmall()
      requires Valid()
      ensures itemSize <= 4
    {
      Pow256Values();
      ItemSizeFits(capacity);
    }

    /** Writes one slot; every other slot keeps its value. */
    method SetItem(index: nat, value: nat)
      requires Valid() && index < capacity && value <= capacity
      modifies items
      ensures Valid()
      ensures Slots() == old(Slots())[index := value]
    {
      OffsetMonotone(index + 1, capacity, itemSize);
      ghost var bytes := items[..];
      if GenericOrder(itemSize) {
        StoreShifting(items, Offset(index, itemSize), itemSize, value);
      } else {
        StoreNative(items, Offset(index, itemSize), itemSize, value);
      }
      ItemSizeFits(capacity);
      UnpackStore(GenericOrder(itemSize), itemSize, capacity, bytes, index, value);
    }

    /** The first unused slot at or after a hash's home; there has to be one. */
    method ProbeUnused(hash: nat) returns (slot: nat)
      requires Valid() && exists z :: 0 <= z < capacity && Slots()[z] == 0
      ensures slot < capacity && Slots()[slot] == 0
      ensures NoGap(Slots(), Remainder(hash, capacity), slot)
    {
      var htIndex := U32(hash);
      ghost var h, d := Remainder(hash, capacity), 0;
      ghost var slots := Slots();
      ghost var z :| 0 <= z < capacity && slots[z] == 0;
      LowBitsKeepRemainder(hash, log);
      while true
        invariant Passed(slots, h, d, z)
        invariant Remainder(htIndex, capacity) == Around(capacity, h, d)
        decreases capacity - d
      {
        PassedStep(slots, h, d, z);
        slot := Masked(htIndex, capacity, log);
        var used := GetItem(slot);
        if used == 0 {
          return;
        }
        StepWraps(capacity, h, d);
        htIndex, d := U32(slot + 1), d + 1;
      }
    }

    /** Stores an index in the first unused slot of its hash's probe sequence. */
    method SetHashTableItem(hash: nat, kvIndex: nat) returns (slot: nat)
      requires Valid() && 0 < kvIndex <= capacity
      requires exists z :: 0 <= z < capacity && Slots()[z] == 0
      modifies items
      ensures Valid()
      ensures slot < capacity && old(Slots())[slot] == 0
      ensures NoGap(old(Slots()), Remainder(hash, capacity), slot)
      ensures Slots() == old(Slots())[slot := kvIndex]
    {
      slot := ProbeUnused(hash);
      SetItem(slot, kvIndex);
    }
  }

  lemma {:induction false} Pow256Monotone(a: nat, b: nat)
    requires a <= b
    ensures Pow256(a) <= Pow256(b)
    decreases b - a
  {
    if a < b {
      Pow256Monotone(a + 1, b);
    }
  }

  lemma ToLEValues(v: nat)
    ensures ToLE(v, 1) == [v % 256]
    ensures ToLE(v, 2) == [v % 256, v / 256 % 256]
    ensures ToLE(v, 4) == [v % 256, v / 256 % 256, v / 256 / 256 % 256, v / 256 / 256 / 256 % 256]
  {
    var a, b, c := v / 256, v / 256 / 256, v / 256 / 256 / 256;
    assert ToLE(c, 1) == [c % 256] + ToLE(c / 256, 0);
    assert ToLE(b, 2) == [b % 256] + ToLE(c, 1);
    assert ToLE(a, 3) == [a % 256] + ToLE(b, 2);
    assert ToLE(v, 4) == [v % 256] + ToLE(a, 3);
    assert ToLE(a, 1) == [a % 256] + ToLE(b, 0);
    assert ToLE(v, 2) == [v % 256] + ToLE(a, 1);
    assert ToLE(v, 1) == [v % 256] + ToLE(a, 0);
  }
}
