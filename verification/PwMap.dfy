/** The insertion-ordered hash map (src/pw_map.c). */
module PwMaps {
  import opened Radix
  import opened Probing
  import opened HashTables
  import opened AssocList
  import opened References
  import opened Deletions

  /** Bytes of a value; an array of as many items as fill 32 bits is refused (src/pw_array.c:244-262). */
  const VALUE_SIZE: nat := 16
  const ARRAY_LIMIT: nat := 0xFFFF_FFFF / VALUE_SIZE

  /** The most pairs an array has room for: two items each, in blocks of 16 items, and less than 2^32 bytes. */
  const MAX_PAIRS: nat := 0x7FF_FFF8

  /** Room for an array of that many items: a multiple of 4 up to 16, of 16 above (src/pw_array.c:167-174). */
  function RoundCapacity(items: nat): (r: nat)
    ensures items <= r <= items + 15
    ensures r == 2 * HalfOf(r)
  {
    if items <= 16 then (items + 3) / 4 * 4 else (items + 15) / 16 * 16
  }

  /** The least multiple of 4 or of 16. */
  lemma RoundedUp(items: nat)
    ensures items <= 16 ==> RoundCapacity(items) % 4 == 0 && RoundCapacity(items) < items + 4
    ensures items > 16 ==> RoundCapacity(items) % 16 == 0 && RoundCapacity(items) < items + 16
  {
  }

  function HalfOf(n: nat): nat {
    n / 2
  }

  /** The bytes asked for, in 32 bits. */
  function ArrayBytes(items: nat): nat {
    U32(RoundCapacity(items) * VALUE_SIZE)
  }

  /** Of the arrays not refused, exactly those of up to 2^28 - 16 items get the bytes they need; the others get none. */
  lemma ArrayBytesFit(items: nat)
    requires items < ARRAY_LIMIT
    ensures ArrayBytes(items) == RoundCapacity(items) * VALUE_SIZE <==> items <= 2 * MAX_PAIRS
    ensures items > 2 * MAX_PAIRS ==> ArrayBytes(items) == 0 && RoundCapacity(items) == 0x1000_0000
    ensures items <= 2 * MAX_PAIRS ==>
            2 * (ArrayBytes(items) / (2 * VALUE_SIZE)) == RoundCapacity(items) <= 2 * MAX_PAIRS
  {
    assert items > 16 ==> RoundCapacity(items) == 16 * ((items + 15) / 16);
  }

  lemma FittingCells(items: nat)
    requires items <= 2 * MAX_PAIRS
    ensures 2 * (ArrayBytes(items) / (2 * VALUE_SIZE)) == RoundCapacity(items)
    ensures ArrayBytes(items) / (2 * VALUE_SIZE) <= MAX_PAIRS
  {
    ArrayBytesFit(items);
  }

  lemma NoCells(items: nat)
    requires 2 * MAX_PAIRS < items < ARRAY_LIMIT
    ensures ArrayBytes(items) / (2 * VALUE_SIZE) == 0 && RoundCapacity(items) == 0x1000_0000
  {
    ArrayBytesFit(items);
  }

  /** What becomes of growing the pair array: room, a refusal, or an array whose size in bytes wrapped to nothing. */
  datatype Growth = Grown | Refused | Wrapped

  /** Growing an array with room for `room` items to n pairs (src/pw_map.c:239-244). */
  function GrowthFor(n: nat, room: nat): Growth {
    if U32(2 * n) <= room || U32(2 * n) <= 2 * MAX_PAIRS then Grown
    else if U32(2 * n) >= ARRAY_LIMIT then Refused
    else Wrapped
  }

  /** Twice the capacity, or the first doubling of it by which a quarter more than the desired number of pairs fits. */
  predicate LeastDoubling(capacity: nat, desired: nat, newCapacity: nat) {
    && newCapacity >= 2 * capacity && newCapacity >= desired + desired / 4
    && (newCapacity == 2 * capacity || newCapacity / 2 < desired + desired / 4)
  }

  /** Doubles a capacity until a quarter more than the desired number of pairs fits; never wraps 32 bits. */
  method GrownCapacity(capacity: nat, ghost log: nat, desired: nat, htOffset: nat)
    returns (newCapacity: nat, ghost newLog: nat)
    requires 3 <= log <= 29 && capacity == Pow2(log) && desired <= MAX_PAIRS && htOffset <= MAX_PAIRS
    requires capacity < desired + capacity / 4 || htOffset >= capacity / 4
    ensures 3 <= newLog <= 29 && newCapacity == Pow2(newLog) && desired < newCapacity && capacity < newCapacity
    ensures LeastDoubling(capacity, desired, newCapacity)
  {
    Pow2Values();
    Pow2Monotone(3, log);
    newCapacity, newLog := U32(2 * capacity), log + 1;
    var quarter := desired / 4;
    while newCapacity < desired + quarter
      invariant log < newLog <= 29 && newCapacity == Pow2(newLog) >= 2 * capacity
      invariant newCapacity == 2 * capacity || newCapacity / 2 < desired + quarter
      decreases 29 - newLog
    {
      newCapacity, newLog := U32(2 * newCapacity), newLog + 1;
    }
  }

  function CellAt<K, V>(cells: seq<Cell<K, V>>, i: nat): Cell<K, V> {
    if i < |cells| then cells[i] else Empty
  }

  function LastCell<K, V>(ps: Pairs<K, V>): Cell<K, V> {
    if ps == [] then Empty else Pair(ps[|ps| - 1].0, ps[|ps| - 1].1)
  }

  /** Does a map of that capacity enter its pairs anew to hold the wanted number of them (src/pw_map.c:249-253)? */
  predicate Rebuilds(capacity: nat, desired: nat, htOffset: nat) {
    capacity < desired + capacity / 4 || htOffset >= capacity / 4
  }

  type Index = i: nat | i < TWO_32

  /** The pair of a list that an index leads to when its highest bit is lost. */
  function ItemAt<K, V>(ps: Pairs<K, V>, index: Index): Option<(K, V)> {
    var i := if index < TWO_32 / 2 then index else index - TWO_32 / 2;
    if i < |ps| then Some(ps[i]) else None
  }

  lemma Doubled(index: Index)
    ensures U32(2 * index) == 2 * (if index < TWO_32 / 2 then index else index - TWO_32 / 2)
  {
  }

  /** It is the list's own exactly for indexes below 2^31 and those that do not come down to a pair. */
  lemma ItemAtExact<K, V>(ps: Pairs<K, V>, index: Index)
    requires |ps| <= MAX_PAIRS
    ensures ItemAt(ps, index) == (if index < |ps| then Some(ps[index]) else None) <==>
            index < TWO_32 / 2 || index - TWO_32 / 2 >= |ps|
    ensures index >= TWO_32 / 2 ==>
              ItemAt(ps, index) == if index - TWO_32 / 2 < |ps| then Some(ps[index - TWO_32 / 2]) else None
  {
  }

  class PwMap<K(!new), V> {
    const ops: KeyOps<K>
    const held: Holding<K, V>
    const table: HashTable
    var cells: array<Cell<K, V>>
    /** Items the pair array is noted to have room for. */
    var room: nat
    var length: nat
    ghost var pos: seq<nat>
    /** References handed to the map, and references it has released. */
    ghost var taken: multiset<nat>
    ghost var dropped: multiset<nat>
    ghost var Repr: set<object>

    /** The pairs are in order; slots may lead anywhere. */
    ghost predicate Shape()
      reads this, Repr
      ensures Shape() ==> this in Repr && table in Repr && table.items in Repr && cells in Repr
      ensures Shape() ==> length <= cells.Length <= MAX_PAIRS && room == 2 * cells.Length
    {
      && this in Repr && table in Repr && Repr == {this, table, table.items, cells}
      && table.items as object != cells
      && table.Valid() && Lawful(ops)
      && length <= cells.Length <= MAX_PAIRS && room == 2 * cells.Length
      && length < table.capacity && DistinctKeys(ops, cells[..], length)
    }

    /** Besides, each slot leads to its pair, and exactly the references of the pairs are counted. */
    ghost predicate Valid()
      reads this, Repr
      ensures Valid() ==> Shape() && this in Repr && table in Repr && table.items in Repr && cells in Repr
      ensures Valid() ==> length <= cells.Length <= MAX_PAIRS && room == 2 * cells.Length
    {
      && Shape()
      && Table(ops, table.Slots(), cells[..], length, pos)
      && Balanced(held, Contents(), taken, dropped)
    }

    /** The pairs in insertion order. */
    ghost function Contents(): (ps: Pairs<K, V>)
      requires Shape()
      reads this, Repr
      ensures |ps| == length
    {
      Live(cells[..], length)
    }

    /** The cell that the i-th next new pair goes into, as it is. */
    function Ahead(i: nat): Cell<K, V>
      reads this`length, this`cells, cells
    {
      if length + i < cells.Length then cells[length + i] else Empty
    }

    constructor (ops: KeyOps<K>, held: Holding<K, V>)
      requires Lawful(ops)
      ensures Valid() && fresh(Repr) && Contents() == [] && this.ops == ops && this.held == held && room == 16
      ensures forall i :: Ahead(i) == Empty
    {
      Pow2Values();
      hide Unpack, Offset, Table, Live, Pow2, DistinctKeys;
      var t := new HashTable(INITIAL_CAPACITY, 3);
      ghost var slots := t.Slots();
      EmptyTable<K, V>(ops, slots, seq(8, _ => Empty));
      var a := new Cell<K, V>[RoundCapacity(2 * INITIAL_CAPACITY) / 2](_ => Empty);
      this.ops, this.held, table, cells, room, length, pos := ops, held, t, a, 2 * a.Length, 0, [];
      taken, dropped := multiset{}, multiset{};
      Repr := {this, t, t.items, a};
      new;
      assert table.Slots() == slots && cells[..] == seq(8, _ => Empty);
      assert forall i :: Ahead(i) == Empty;
      assert Live(cells[..], 0) == [];
      assert Balanced(held, Live(cells[..], 0), taken, dropped);
      hide *;
      Assemble();
    }

    /** The probe loop; the invariant of the table is what ends it. */
    method Lookup(key: K) returns (o: Outcome)
      requires Valid()
      ensures table.capacity > 0 && Readable(table.Slots(), cells[..])
              && o == Walk(ops, table.Slots(), cells[..], key, 0)
    {
      hide *;
      Parts();
      LookupAnswers(key);
      ghost var slots, cs := table.Slots(), cells[..];
      ghost var cap := table.capacity;
      ghost var h := Home(ops, key, cap);
      HomeIsRemainder(ops, key, cap);
      var index := Masked(ops.hash(key), table.capacity, table.log);
      var offset := 0;
      while true
        invariant offset < cap ==> index == Around(cap, h, offset)
        invariant Walk(ops, slots, cs, key, 0) == Walk(ops, slots, cs, key, offset)
        decreases cap - offset
      {
        WalkStep(ops, slots, cs, key, offset, index);
        var kvIndex := table.GetItem(index);
        if kvIndex == 0 {
          return Absent(index, offset);
        }
        var cell := cells[kvIndex - 1];
        if Matches(ops, cell, key) {
          return Found(kvIndex - 1, index, offset);
        }
        StepWraps(cap, h, offset);
        index := Masked(index + 1, table.capacity, table.log);
        offset := offset + 1;
      }
    }

    lemma LookupAnswers(key: K)
      requires Valid()
      ensures table.capacity > 0 && Readable(table.Slots(), cells[..])
      ensures var o := Walk(ops, table.Slots(), cells[..], key, 0);
              && (o.Found? ==>
                    && o.index < length && FirstAt(ops, Contents(), key, o.index) && o.slot == pos[o.index]
                    && cells[o.index].Pair? && Contents()[o.index].1 == cells[o.index].value)
              && (o.Absent? <==> Missing(ops, Contents(), key))
              && !o.Endless? && o.offset <= length
    {
      hide *;
      Parts();
      WalkAnswers(ops, table.Slots(), cells[..], length, pos, key);
      TableReadable(ops, table.Slots(), cells[..], length, pos);
    }

    /** _pw_array_resize: reallocates the pair array; cells past the old end hold the null value. */
    method ResizeCells(items: nat)
      requires Shape() && room < items < ARRAY_LIMIT
      modifies this`cells, this`room, this`Repr
      ensures fresh(cells) && fresh(Repr - old(Repr)) && room == RoundCapacity(items) && table.items == old(table.items)
      ensures items <= 2 * MAX_PAIRS ==>
                && Shape() && items <= room && Contents() == old(Contents()) && (old(Valid()) ==> Valid())
                && table.Slots() == old(table.Slots()) && forall i :: Ahead(i) == old(Ahead(i))
      ensures items > 2 * MAX_PAIRS ==> cells.Length == 0 && room == 0x1000_0000
    {
      hide *;
      ArrayBytesFit(items);
      ghost var cs, valid := cells[..], Valid();
      ShapeParts();
      RoomIsCells();
      AheadIs();
      if valid {
        Parts();
      }
      var a := NewCells(items, cells);
      cells, room := a, RoundCapacity(items);
      Repr := {this, table, table.items, a};
      if items <= 2 * MAX_PAIRS {
        FittingCells(items);
        SameLivePairs(ops, cs, cells[..], length);
        SameBehind(cs, cells[..], length);
        AheadIs();
        AssembleShape();
        if valid {
          SameTable(ops, table.Slots(), cs, cells[..], length, pos);
          Assemble();
        }
      } else {
        NoCells(items);
      }
    }

    /** An array of the bytes asked for, with the old cells as far as they go and null values in the others. */
    method NewCells(items: nat, source: array<Cell<K, V>>) returns (a: array<Cell<K, V>>)
      ensures fresh(a) && a.Length == ArrayBytes(items) / (2 * VALUE_SIZE)
      ensures forall i :: 0 <= i < a.Length ==> a[i] == CellAt(source[..], i)
    {
      a := new Cell<K, V>[ArrayBytes(items) / (2 * VALUE_SIZE)](_ => Empty);
      forall i | 0 <= i < a.Length && i < source.Length {
        a[i] := source[i];
      }
    }

    /** Empties the slot table at another capacity and enters every pair again, which repairs the slots. */
    method Rebuild(newCapacity: nat, ghost newLog: nat)
      requires Shape() && 3 <= newLog <= 29 && newCapacity == Pow2(newLog) && length < newCapacity
      modifies this`pos, this`Repr, table, table.items
      ensures Shape() && fresh(Repr - old(Repr)) && table.capacity == newCapacity && table.log == newLog
      ensures Table(ops, table.Slots(), cells[..], length, pos) && Contents() == old(Contents())
    {
      hide *;
      ShapeParts();
      RoomIsCells();
      table.Init(newCapacity, newLog);
      pos := [];
      EmptyTable(ops, table.Slots(), cells[..]);
      var i := 0;
      while i < length
        invariant 0 <= i <= length && table.items as object != cells
        invariant table.Valid() && table.capacity == newCapacity && table.log == newLog && fresh(table.items)
        invariant Table(ops, table.Slots(), cells[..], i, pos)
      {
        ghost var slots := table.Slots();
        TableHasUnused(ops, slots, cells[..], i, pos);
        var s := table.SetHashTableItem(ops.hash(cells[i].key), i + 1);
        EnterPair(ops, slots, cells[..], i, pos, s, length);
        pos := pos + [s];
        i := i + 1;
      }
      Repr := {this, table, table.items, cells};
      AssembleShape();
    }

    /**
     Makes room for `desired` pairs, as far as the pair array can grow. Whatever the slots were, they are right
     afterwards if the pairs are entered anew.
     */
    method Expand(desired: nat, htOffset: nat) returns (growth: Growth)
      requires Shape() && htOffset <= length <= desired < TWO_32 / 2
      requires Balanced(held, Contents(), taken, dropped)
      modifies this`cells, this`room, this`Repr, this`pos, table, table.items
      ensures growth == GrowthFor(desired, old(room)) && fresh(Repr - old(Repr))
      ensures growth != Wrapped ==>
                && Shape() && Contents() == old(Contents()) && room >= old(room)
                && (forall i :: Ahead(i) == old(Ahead(i))) && (old(Valid()) ==> Valid())
      ensures growth == Grown ==> desired <= cells.Length
      ensures growth == Grown && (old(Valid()) || Rebuilds(old(table.capacity), desired, htOffset)) ==>
                Valid() && desired < table.capacity
      ensures growth == Grown ==>
                if Rebuilds(old(table.capacity), desired, htOffset)
                then LeastDoubling(old(table.capacity), desired, table.capacity)
                else table.Slots() == old(table.Slots())
      ensures growth == Wrapped ==> cells.Length == 0 && room == 0x1000_0000
    {
      hide Table, Balanced, Live, DistinctKeys, Unpack, Pow2;
      var items := U32(2 * desired);
      if items > room {
        if items >= ARRAY_LIMIT {
          return Refused;
        }
        ResizeCells(items);
        if items > 2 * MAX_PAIRS {
          return Wrapped;
        }
      }
      var quarter := table.capacity / 4;
      if table.capacity >= desired + quarter && htOffset < quarter {
        return Grown;
      }
      var newCapacity, newLog := GrownCapacity(table.capacity, table.log, desired, htOffset);
      Rebuild(newCapacity, newLog);
      return Grown;
    }

    /**
     Sets a key's value (src/pw_map.c:278-313). A new pair goes into the cell behind the pairs, and what that cell holds
     is released: the references counted stay those of the pairs if and only if it holds none.
     */
    method Update(key: K, value: V) returns (growth: Growth)
      requires Valid()
      modifies Repr
      ensures fresh(Repr - old(Repr))
      ensures growth == if !Missing(ops, old(Contents()), key) then Grown else GrowthFor(old(length) + 1, old(room))
      ensures growth == Grown ==>
                && Shape() && room >= old(room) && Contents() == Put(ops, old(Contents()), key, value)
                && Table(ops, table.Slots(), cells[..], length, pos)
      ensures growth == Grown && !Missing(ops, old(Contents()), key) ==>
                && Valid() && (forall i :: Ahead(i) == old(Ahead(i))) && taken == old(taken) + held.ofValue(value)
      ensures growth == Grown && Missing(ops, old(Contents()), key) ==>
                && (Valid() <==> CellRefs(held, old(Ahead(0))) == multiset{})
                && (forall i: nat :: Ahead(i) == old(Ahead(i + 1)))
                && taken == old(taken) + PairRefs(held, (key, value))
                && dropped == old(dropped) + CellRefs(held, old(Ahead(0)))
                && dropped + Refs(held, Contents()) == taken + CellRefs(held, old(Ahead(0)))
      ensures growth != Refused
      ensures growth == Wrapped <==> Missing(ops, old(Contents()), key) && |old(Contents())| == MAX_PAIRS
      ensures growth == Wrapped ==> cells.Length == 0 && room == 0x1000_0000
    {
      hide *;
      LookupAnswers(key);
      OneMoreFits();
      IsBalanced();
      var o := Lookup(key);
      if o.Found? {
        AtIndex(ops, Contents(), key, value, o.index);
        Overwrite(o.index, value);
        IsBalanced();
        return Grown;
      }
      growth := Expand(length + 1, o.offset);
      if growth == Grown {
        ghost var ps, t, d, cell := Contents(), taken, dropped, Ahead(0);
        IsBalanced();
        AtEnd(ops, ps, key, value);
        Append(key, value);
        InsertExactly(held, ps, t, d, cell, (key, value));
        WhenValid();
      }
    }

    /** One more pair is never refused: the size in bytes wraps before. */
    lemma OneMoreFits()
      requires Valid()
      ensures length == |Contents()| < TWO_32 / 2 - 1
      ensures GrowthFor(length + 1, room) == if length == MAX_PAIRS then Wrapped else Grown
    {
    }

    lemma SizeIs()
      requires Valid()
      ensures length == |Contents()|
    {
    }

    lemma IsBalanced()
      requires Valid()
      ensures Shape() && Balanced(held, Contents(), taken, dropped)
      ensures Table(ops, table.Slots(), cells[..], length, pos)
    {
    }

    lemma WhenValid()
      requires Shape() && Table(ops, table.Slots(), cells[..], length, pos)
      ensures Valid() <==> Balanced(held, Contents(), taken, dropped)
    {
    }

    /** Replaces the value of a pair in place; the old one is released. */
    method Overwrite(i: nat, value: V)
      requires Valid() && i < length
      modifies cells, this`taken, this`dropped
      ensures Valid()
      ensures Contents() == old(Contents())[i := (old(Contents())[i].0, value)]
      ensures taken == old(taken) + held.ofValue(value)
      ensures dropped == old(dropped) + held.ofValue(old(Contents())[i].1)
      ensures forall j :: Ahead(j) == old(Ahead(j))
    {
      hide *;
      Parts();
      PairIs(i);
      AheadIs();
      ghost var cs, ps := cells[..], Contents();
      OverwriteKeeps(held, ps, taken, dropped, i, value);
      taken, dropped := taken + held.ofValue(value), dropped + held.ofValue(cells[i].value);
      cells[i] := Pair(cells[i].key, value);
      assert cells[..] == cs[i := Pair(cs[i].key, value)];
      SameKeys(ops, table.Slots(), cs, length, pos, i, value);
      Assemble();
      AheadIs();
      Rewritten(cs, i, cells[i], length);
    }

    /** Enters a new key in the slot table and puts the pair last, in place of what the cell holds. */
    method Append(key: K, value: V)
      requires Valid() && Missing(ops, Contents(), key)
      requires length < cells.Length && length + 1 < table.capacity
      modifies this`length, this`pos, this`taken, this`dropped, table.items, cells
      ensures Shape() && Table(ops, table.Slots(), cells[..], length, pos)
      ensures Contents() == old(Contents()) + [(key, value)]
      ensures taken == old(taken) + PairRefs(held, (key, value))
      ensures dropped == old(dropped) + CellRefs(held, old(Ahead(0)))
      ensures forall i: nat :: Ahead(i) == old(Ahead(i + 1))
    {
      hide *;
      Parts();
      RoomIsCells();
      ghost var slots, cs := table.Slots(), cells[..];
      TableHasUnused(ops, slots, cs, length, pos);
      var s := table.SetHashTableItem(ops.hash(key), length + 1);
      HomeIsRemainder(ops, key, |slots|);
      AppendKeepsTable(ops, slots, cs, length, pos, s, key, value);
      pos := pos + [s];
      PutLast(key, value);
      TableOrder(ops, table.Slots(), cells[..], length, pos);
      AssembleShape();
    }

    /** Puts a pair behind the others; what is there is destroyed first (include/pw_types.h:769-779). */
    method PutLast(key: K, value: V)
      requires length < cells.Length
      modifies this`length, this`taken, this`dropped, cells
      ensures cells[..] == old(cells[..])[old(length) := Pair(key, value)] && length == old(length) + 1
      ensures taken == old(taken) + PairRefs(held, (key, value))
      ensures dropped == old(dropped) + CellRefs(held, old(Ahead(0)))
      ensures forall i: nat :: Ahead(i) == old(Ahead(i + 1))
    {
      hide PairRefs, CellRefs;
      taken, dropped := taken + PairRefs(held, (key, value)), dropped + CellRefs(held, cells[length]);
      cells[length] := Pair(key, value);
      length := length + 1;
    }

    /** The value kept with a key (src/pw_map.c:600-617). */
    method Find(key: K) returns (value: Option<V>)
      requires Valid()
      ensures value == Get(ops, Contents(), key)
    {
      hide *;
      LookupAnswers(key);
      var o := Lookup(key);
      if o.Found? {
        value := Some(cells[o.index].value);
        AtIndex(ops, Contents(), key, cells[o.index].value, o.index);
      } else {
        value := None;
        GetMissing(ops, Contents(), key);
      }
    }

    /** Is the key present? (src/pw_map.c:593-598) */
    method HasKey(key: K) returns (present: bool)
      requires Valid()
      ensures present == !Missing(ops, Contents(), key)
    {
      hide *;
      LookupAnswers(key);
      var o := Lookup(key);
      present := o.Found?;
    }

    /** The pair at a position of the insertion order (src/pw_map.c:665-680); twice the index is taken in 32 bits. */
    method Item(index: Index) returns (item: Option<(K, V)>)
      requires Valid()
      ensures item == ItemAt(Contents(), index)
    {
      hide DistinctKeys, Table, Balanced, U32;
      Doubled(index);
      var i := U32(2 * index);
      if i < 2 * length {
        item := Some((cells[i / 2].key, cells[i / 2].value));
      } else {
        item := None;
      }
    }

    /**
     Removes a key (src/pw_map.c:619-657). What the code leaves behind is stated outright. The pairs are those of the
     list without the key and their references are counted rightly in all cases. Lookups read that list exactly when no
     probe run crosses the cleared slot, and the slots are in order exactly when, besides, the pair was not last but
     one. The cell behind the pairs holds a second copy of the last pair, unless that was the one deleted.
     */
    method Delete(key: K) returns (ok: bool, ghost k: nat)
      requires Valid()
      modifies this`length, this`pos, this`dropped, table.items, cells
      ensures ok == !Missing(ops, old(Contents()), key)
      ensures !ok ==> Valid() && Contents() == old(Contents()) && forall i :: Ahead(i) == old(Ahead(i))
      ensures ok ==>
                && FirstAt(ops, old(Contents()), key, k)
                && DeletedFrom(old(table.Slots()), old(cells[..]), old(length), old(pos), k, table.Slots(), cells[..],
                     length)
      ensures ok ==>
                && Shape() && Contents() == Remove(ops, old(Contents()), key)
                && dropped == old(dropped) + PairRefs(held, old(Contents())[k])
                && Balanced(held, Contents(), taken, dropped)
      ensures ok ==>
                && Ahead(0) == (if k == |old(Contents())| - 1 then Empty else LastCell(old(Contents())))
                && (forall i: nat :: i > 0 ==> Ahead(i) == old(Ahead(i - 1)))
      ensures ok ==>
                (AllReadAs(ops, table.Slots(), cells[..], Remove(ops, old(Contents()), key))
                 <==> NoneCrosses(ops, old(table.Slots()), old(cells[..]), old(length), old(pos), k))
      ensures ok ==>
                (IsTable(ops, table.Slots(), cells[..], length)
                 <==> SafeToDelete(ops, old(table.Slots()), old(cells[..]), old(length), old(pos), k))
      ensures ok && SafeToDelete(ops, old(table.Slots()), old(cells[..]), old(length), old(pos), k) ==> Valid()
    {
      hide *;
      Parts();
      LookupAnswers(key);
      k := 0;
      var o := Lookup(key);
      if !o.Found? {
        return false, 0;
      }
      k := o.index;
      ghost var slots, cs, n, places, ps := table.Slots(), cells[..], length, pos, Contents();
      DeletePair(o.slot, o.index);
      ShapeParts();
      DeleteOutcome(ops, slots, cs, n, places, k, key, ps, table.Slots(), cells[..]);
      return true, k;
    }

    /** Clears the slot of pair k and takes the pair out of the array. */
    method DeletePair(slot: nat, k: nat)
      requires Valid() && k < length && |pos| == length && slot == pos[k] < table.capacity
      modifies this`length, this`pos, this`dropped, table.items, cells
      ensures Shape() && DeletedFrom(old(table.Slots()), old(cells[..]), old(length), old(pos), k, table.Slots(),
                  cells[..], length)
      ensures Contents() == old(Contents())[..k] + old(Contents())[k + 1..]
      ensures dropped == old(dropped) + PairRefs(held, old(Contents())[k])
              && Balanced(held, Contents(), taken, dropped)
      ensures Ahead(0) == if k == |old(Contents())| - 1 then Empty else LastCell(old(Contents()))
      ensures forall i: nat :: i > 0 ==> Ahead(i) == old(Ahead(i - 1))
      ensures SafeToDelete(ops, old(table.Slots()), old(cells[..]), old(length), old(pos), k) ==> Valid()
    {
      hide *;
      Parts();
      AheadIs();
      PairIs(k);
      ghost var slots, cs, n, ps, d := table.Slots(), cells[..], length, Contents(), dropped;
      DeletedIs(slots, cs, n, pos, k);
      Unlink(slot, k);
      AfterUnlink(cs, n, k, ps, d);
      if SafeToDelete(ops, slots, cs, n, pos, k) {
        SafeDeleteKeepsTable(ops, slots, cs, n, pos, k);
        ShapeParts();
        pos := pos[..k] + pos[k + 1..];
        Assemble();
      }
    }

    /** What the invariant consists of. */
    lemma Parts()
      requires Valid()
      ensures 0 < table.capacity == Pow2(table.log) && table.capacity <= MAX_CAPACITY
      ensures Lawful(ops) && table.Valid() && table.items as object != cells
              && length < |table.Slots()| == table.capacity
      ensures Repr == {this, table, table.items, cells} && |pos| == length
      ensures Table(ops, table.Slots(), cells[..], length, pos) && Contents() == Live(cells[..], length)
      ensures Balanced(held, Contents(), taken, dropped)
      ensures forall i :: 0 <= i < table.capacity ==> table.Slots()[i] <= table.capacity
    {
    }

    lemma ShapeParts()
      requires Shape()
      ensures table.Valid() && table.items as object != cells && Repr == {this, table, table.items, cells}
      ensures length < table.capacity && Lawful(ops) && length <= cells.Length <= MAX_PAIRS
      ensures DistinctKeys(ops, cells[..], length)
      ensures Contents() == Live(cells[..], length) && forall i :: 0 <= i < length ==> cells[i].Pair?
    {
    }

    lemma RoomIsCells()
      requires Shape()
      ensures room == 2 * cells.Length
    {
    }

    /** The parts make the whole. */
    lemma AssembleShape()
      requires Repr == {this, table, table.items, cells} && table.items as object != cells
      requires table.Valid() && Lawful(ops) && length <= cells.Length <= MAX_PAIRS && room == 2 * cells.Length
      requires length < table.capacity && DistinctKeys(ops, cells[..], length)
      ensures Shape() && Contents() == Live(cells[..], length)
    {
    }

    lemma Assemble()
      requires Repr == {this, table, table.items, cells} && table.items as object != cells
      requires table.Valid() && Lawful(ops) && length <= cells.Length <= MAX_PAIRS && room == 2 * cells.Length
      requires Table(ops, table.Slots(), cells[..], length, pos)
      requires Balanced(held, Live(cells[..], length), taken, dropped)
      ensures Valid() && Contents() == Live(cells[..], length)
    {
    }

    lemma PairIs(k: nat)
      requires Shape() && k < length
      ensures cells[k].Pair? && Contents()[k] == (cells[k].key, cells[k].value)
      ensures CellRefs(held, cells[k]) == PairRefs(held, Contents()[k])
      ensures room == 2 * cells.Length && DistinctKeys(ops, cells[..], length)
    {
    }

    lemma AheadIs()
      requires length <= cells.Length
      ensures forall i :: Ahead(i) == CellAt(cells[..], length + i)
      ensures length < cells.Length ==> Ahead(0) == cells[length]
    {
    }

    /** What pair k's removal from the array leaves. */
    lemma AfterUnlink(cs: seq<Cell<K, V>>, n: nat, k: nat, ps: Pairs<K, V>, dropped0: multiset<nat>)
      requires k < n <= |cs| && cells[..] == CellsAfterDelete(cs, n, k) && length == n - 1 < table.capacity
      requires DistinctKeys(ops, cs, n) && ps == Live(cs, n)
      requires Balanced(held, ps, taken, dropped0) && dropped == dropped0 + PairRefs(held, ps[k])
      requires Repr == {this, table, table.items, cells} && table.items as object != cells
      requires table.Valid() && Lawful(ops) && cells.Length <= MAX_PAIRS && room == 2 * cells.Length
      ensures Shape() && Contents() == ps[..k] + ps[k + 1..] && Balanced(held, Contents(), taken, dropped)
      ensures Ahead(0) == if k == n - 1 then Empty else LastCell(ps)
      ensures forall i: nat :: i > 0 ==> Ahead(i) == CellAt(cs, n + i - 1)
    {
      assert forall i :: 0 <= i < n ==> cs[i].Pair?;
      LiveRemove(cs, n, k);
      CellsMoveDown(cs, n, k);
      LeftByDeletion(held, cs, n, k);
      RefsOfRest(held, ps, k);
      StillDistinct(ops, cs, n, k);
      hide Refs, DistinctKeys;
    }

    /** The changes deletion makes, whatever they do to the map. */
    method Unlink(slot: nat, k: nat)
      requires table.Valid() && k < length <= cells.Length && slot < table.capacity && table.items as object != cells
      requires forall i :: 0 <= i < table.capacity ==> table.Slots()[i] <= table.capacity
      modifies this`length, this`dropped, table.items, cells
      ensures table.Valid() && length == old(length) - 1 && dropped == old(dropped) + CellRefs(held, old(cells[k]))
      ensures table.Slots() == SlotsAfterDelete(old(table.Slots()), old(length), slot, k)
      ensures cells[..] == CellsAfterDelete(old(cells[..]), old(length), k)
    {
      hide *;
      ghost var slots := table.Slots();
      table.SetItem(slot, 0);
      MoveTailDown(k);
      length := length - 1;
      if 2 * k + 2 < 2 * length {
        Renumber(k + 2);
      }
      ClearedAndLowered(slots, length + 1, slot, k);
    }

    /** Destroys pair k and copies the pairs after it one place down (src/pw_array.c:555-577). */
    method MoveTailDown(k: nat)
      requires k < length <= cells.Length
      modifies this`dropped, cells
      ensures cells[..] == CellsAfterDelete(old(cells[..]), length, k)
      ensures dropped == old(dropped) + CellRefs(held, old(cells[k]))
    {
      dropped := dropped + CellRefs(held, cells[k]);
      if k == length - 1 {
        cells[k] := Empty;
      } else {
        forall i | k <= i < length - 1 {
          cells[i] := cells[i + 1];
        }
      }
    }

    /** Decrements every index from the threshold up. */
    method Renumber(threshold: nat)
      requires table.Valid() && threshold > 0 && forall i :: 0 <= i < table.capacity ==>
               table.Slots()[i] <= table.capacity
      modifies table.items
      ensures table.Valid() && table.Slots() == Lowered(old(table.Slots()), threshold, table.capacity)
    {
      hide Unpack, Lowered;
      ghost var slots := table.Slots();
      LoweredStep(slots, threshold, 0);
      for i := 0 to table.capacity
        invariant table.Valid() && table.Slots() == Lowered(slots, threshold, i)
      {
        LoweredStep(slots, threshold, i);
        var kvIndex := table.GetItem(i);
        if kvIndex >= threshold {
          table.SetItem(i, kvIndex - 1);
        }
      }
    }

    /** Destroys the pairs (src/pw_array.c:224-242): of what the map was handed, nothing is left. */
    method Destroy()
      requires Shape()
      modifies this`dropped
      ensures dropped == old(dropped) + Refs(held, Contents())
    {
      ghost var ps, d := Contents(), dropped;
      hide Table, Refs;
      var i := 0;
      assert ps[..0] == [];
      while i < length
        invariant i <= length && Shape() && Contents() == ps && dropped == d + Refs(held, ps[..i])
      {
        RefsOfMore(held, ps[..i], ps[i]);
        assert ps[..i + 1] == ps[..i] + [ps[i]];
        dropped := dropped + CellRefs(held, cells[i]);
        i := i + 1;
      }
      assert ps[..length] == ps;
    }

    /** An independent map with the same pairs in the same order (src/pw_map.c:357-380). */
    method DeepCopy() returns (copy: PwMap<K, V>)
      requires Valid()
      ensures fresh(copy) && copy.Valid() && fresh(copy.Repr) && copy.ops == ops && copy.held == held
      ensures copy.Contents() == Contents()
    {
      hide *;
      assert Contents()[..0] == [];
      CopyFacts();
      copy := new PwMap<K, V>(ops, held);
      copy.IsBalanced();
      var growth := copy.Expand(length, 0);
      var i := 0;
      while i < length
        invariant i <= length
        invariant fresh(copy) && copy.Valid() && fresh(copy.Repr) && copy.ops == ops && copy.held == held
        invariant copy.Contents() == Contents()[..i] && forall j :: copy.Ahead(j) == Empty
      {
        CopyStep(i);
        NothingIn();
        AtEnd(ops, copy.Contents(), cells[i].key, cells[i].value);
        growth := copy.Update(cells[i].key, cells[i].value);
        i := i + 1;
      }
      assert Contents()[..length] == Contents();
    }

    lemma NothingIn()
      ensures CellRefs(held, Empty) == multiset{}
    {
    }

    lemma CopyFacts()
      requires Valid()
      ensures Lawful(ops) && |Contents()| == length <= MAX_PAIRS < TWO_32 / 2 && GrowthFor(length, 16) == Grown
    {
    }

    lemma CopyStep(i: nat)
      requires Valid() && i < length
      ensures cells[i].Pair? && Missing(ops, Contents()[..i], cells[i].key)
      ensures Contents()[..i + 1] == Contents()[..i] + [(cells[i].key, cells[i].value)]
    {
      forall j | 0 <= j < i
        ensures !ops.eq(Contents()[..i][j].0, cells[i].key)
      {
        assert Contents()[j].0 == cells[j].key;
      }
    }
  }

  /** The first i indexes, where they reach the threshold, lowered by one. */
  ghost function Lowered(slots: seq<nat>, threshold: nat, i: nat): (r: seq<nat>)
    requires threshold > 0
    ensures |r| == |slots|
  {
    seq(|slots|, j requires 0 <= j < |slots| => if j < i && slots[j] >= threshold then slots[j] - 1 else slots[j])
  }

  lemma LoweredStep(slots: seq<nat>, threshold: nat, i: nat)
    requires threshold > 0 && i < |slots|
    ensures Lowered(slots, threshold, 0) == slots && Lowered(slots, threshold, i)[i] == slots[i]
    ensures Lowered(slots, threshold, i + 1)
         == if slots[i] >= threshold then Lowered(slots, threshold, i)[i := slots[i] - 1]
             else Lowered(slots, threshold, i)
  {
  }

  lemma ClearedAndLowered(slots: seq<nat>, n: nat, slot: nat, k: nat)
    requires slot < |slots| && k < n
    ensures SlotsAfterDelete(slots, n, slot, k)
         == if k + 1 < n - 1 then Lowered(slots[slot := 0], k + 2, |slots|) else slots[slot := 0]
  {
  }

  lemma Rewritten<K, V>(cells: seq<Cell<K, V>>, j: nat, cell: Cell<K, V>, n: nat)
    requires j < n && j < |cells|
    ensures forall i: nat :: i >= n ==> CellAt(cells[j := cell], i) == CellAt(cells, i)
  {
  }

  lemma SameBehind<K, V>(cells: seq<Cell<K, V>>, cells': seq<Cell<K, V>>, n: nat)
    requires |cells'| >= |cells| && forall i :: n <= i < |cells'| ==> cells'[i] == CellAt(cells, i)
    ensures forall i: nat :: i >= n ==> CellAt(cells', i) == CellAt(cells, i)
  {
  }

  lemma TableOrder<K, V>(ops: KeyOps<K>, slots: seq<nat>, cells: seq<Cell<K, V>>, n: nat, pos: seq<nat>)
    requires Table(ops, slots, cells, n, pos)
    ensures DistinctKeys(ops, cells, n)
  {
  }

  lemma SameKeys<K, V>(ops: KeyOps<K>, slots: seq<nat>, cells: seq<Cell<K, V>>, n: nat, pos: seq<nat>, i: nat, value: V)
    requires Table(ops, slots, cells, n, pos) && i < n && cells[i].Pair?
    ensures var cells' := cells[i := Pair(cells[i].key, value)];
            Table(ops, slots, cells', n, pos) && Live(cells', n) == Live(cells, n)[i := (cells[i].key, value)]
  {
    var cells' := cells[i := Pair(cells[i].key, value)];
    forall i | 0 <= i < n
      ensures NoGap(slots, Home(ops, cells'[i].key, |slots|), pos[i])
    {
      assert NoGap(slots, Home(ops, cells[i].key, |slots|), pos[i]);
    }
  }

  /** The next pair of an existing map enters a table that holds the pairs before it. */
  lemma EnterPair<K, V>(ops: KeyOps<K>, slots: seq<nat>, cells: seq<Cell<K, V>>, i: nat, pos: seq<nat>, s: nat,
                        n: nat)
    requires Table(ops, slots, cells, i, pos) && i < n < |slots| && n <= |cells| && DistinctKeys(ops, cells, n)
    requires s < |slots| && slots[s] == 0 && NoGap(slots, Remainder(ops.hash(cells[i].key), |slots|), s)
    ensures Table(ops, slots[s := i + 1], cells, i + 1, pos + [s])
  {
    PlaceKeepsTable(ops, slots, cells, i, pos, cells, s);
  }

  lemma DeletedIs<K, V>(slots: seq<nat>, cells: seq<Cell<K, V>>, n: nat, pos: seq<nat>, k: nat)
    requires k < n <= |cells| && |pos| == n && pos[k] < |slots|
    ensures DeletedFrom(slots, cells, n, pos, k, SlotsAfterDelete(slots, n, pos[k], k), CellsAfterDelete(cells, n, k),
            n - 1)
  {
  }

  /** What becomes of a table by deleting pair k. */
  lemma DeleteOutcome<K(!new), V>(ops: KeyOps<K>, slots: seq<nat>, cells: seq<Cell<K, V>>, n: nat, pos: seq<nat>,
                                  k: nat, key: K, ps: Pairs<K, V>, slots': seq<nat>, cells': seq<Cell<K, V>>)
    requires Lawful(ops) && Table(ops, slots, cells, n, pos) && k < n
    requires ps == Live(cells, n) && FirstAt(ops, ps, key, k)
    requires DeletedFrom(slots, cells, n, pos, k, slots', cells', n - 1)
    ensures Remove(ops, ps, key) == ps[..k] + ps[k + 1..]
    ensures AllReadAs(ops, slots', cells', Remove(ops, ps, key)) <==> NoneCrosses(ops, slots, cells, n, pos, k)
    ensures IsTable(ops, slots', cells', n - 1) <==> SafeToDelete(ops, slots, cells, n, pos, k)
  {
    RemoveIs(ops, cells, n, k);
    hide Table, SafeToDelete, NoneCrosses, AllReadAs, IsTable, DeletedFrom, Live, Remove;
    DeleteReadsExactly(ops, slots, cells, n, pos, k, slots', cells');
    DeleteRestoresExactly(ops, slots, cells, n, pos, k, slots', cells');
    AtIndex(ops, ps, key, cells[k].value, k);
  }

  /** A new pair in a free slot of its probe sequence extends the map at the end. */
  lemma AppendKeepsTable<K(!new), V>(ops: KeyOps<K>, slots: seq<nat>, cells: seq<Cell<K, V>>, n: nat, pos: seq<nat>,
                                     s: nat, key: K, value: V)
    requires Lawful(ops) && Table(ops, slots, cells, n, pos) && n < |cells| && n + 1 < |slots|
    requires Missing(ops, Live(cells, n), key)
    requires s < |slots| && slots[s] == 0 && NoGap(slots, Home(ops, key, |slots|), s)
    ensures Table(ops, slots[s := n + 1], cells[n := Pair(key, value)], n + 1, pos + [s])
    ensures Live(cells[n := Pair(key, value)], n + 1) == Live(cells, n) + [(key, value)]
  {
    var cells' := cells[n := Pair(key, value)];
    assert DistinctKeys(ops, cells', n + 1) by {
      forall i | 0 <= i < n
        ensures !ops.eq(cells[i].key, key) && !ops.eq(key, cells[i].key)
      {
        assert Live(cells, n)[i].0 == cells[i].key;
      }
    }
    PlaceKeepsTable(ops, slots, cells, n, pos, cells', s);
  }

  /** The order and the invariant look at the first n cells only. */
  lemma SameLivePairs<K, V>(ops: KeyOps<K>, cells: seq<Cell<K, V>>, cells': seq<Cell<K, V>>, n: nat)
    requires n <= |cells| && n <= |cells'| && DistinctKeys(ops, cells, n)
    requires forall i :: 0 <= i < n ==> cells'[i] == CellAt(cells, i)
    ensures DistinctKeys(ops, cells', n) && Live(cells', n) == Live(cells, n)
  {
  }

  lemma SameTable<K, V>(ops: KeyOps<K>, slots: seq<nat>, cells: seq<Cell<K, V>>, cells': seq<Cell<K, V>>, n: nat,
                        pos: seq<nat>)
    requires Table(ops, slots, cells, n, pos) && n <= |cells'|
    requires forall i :: 0 <= i < n ==> cells'[i] == CellAt(cells, i)
    ensures Table(ops, slots, cells', n, pos)
  {
    forall i | 0 <= i < n
      ensures NoGap(slots, Home(ops, cells'[i].key, |slots|), pos[i])
    {
      assert NoGap(slots, Home(ops, cells[i].key, |slots|), pos[i]);
    }
  }
}
