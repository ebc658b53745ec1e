/**
 String values and the blocks they share (include/pw_types.h:104-225). A block is memory with a
 reference count; a value holds its characters itself, in a block, or in static memory.
 */
module StringValues {
  import opened Radix
  import opened CharSizes
  import opened StringSizes

  datatype Value =
    | Null
    | Embedded(width: nat, length: nat, data: seq<byte>)
    | Allocated(width: nat, length: nat, addr: nat)
    | Static(width: nat, length: nat, data: seq<byte>)

  /** An allocated block: its count, the capacity noted in it, the size it was allocated with, its characters. */
  datatype Block = Block(refcount: nat, capacity: nat, size: nat, data: seq<byte>)

  type Blocks = map<nat, Block>

  predicate Holds(v: Value, a: nat) {
    v.Allocated? && v.addr == a
  }

  /** A value and the memory it points to are as the code expects them. */
  predicate Sane(blocks: Blocks, v: Value) {
    match v
    case Null => true
    case Embedded(w, n, data) => Width(w) && |data| == 12 && n <= EmbeddedCapacity(w)
    case Allocated(w, n, a) =>
      && Width(w) && a in blocks && n <= blocks[a].capacity
      && BlockFits(w, blocks[a])
    case Static(w, n, data) => Width(w) && Bytes(w, n) <= |data| && NoWrap(w, n)
  }

  /** A block's size is the one recomputed from its capacity and the width of its holders. */
  predicate BlockFits(w: nat, b: Block)
    requires Width(w)
  {
    && NoWrap(w, b.capacity) && b.size == DataSize(w, b.capacity)
    && b.size == |b.data| + HEADER && Bytes(w, b.capacity) <= |b.data|
  }

  /** The memory a value's characters are in. */
  function Memory(blocks: Blocks, v: Value): seq<byte>
    requires Sane(blocks, v)
  {
    match v
    case Null => []
    case Embedded(_, _, data) => data
    case Allocated(_, _, a) => blocks[a].data
    case Static(_, _, data) => data
  }

  function Capacity(blocks: Blocks, v: Value): (c: nat)
    requires Sane(blocks, v)
    ensures v.Embedded? || v.Allocated? ==> v.length <= c && Bytes(v.width, c) <= |Memory(blocks, v)|
  {
    match v
    case Embedded(w, _, _) => EmbeddedCapacity(w)
    case Allocated(_, _, a) => blocks[a].capacity
    case _ => 0
  }

  /** n characters of w bytes each. */
  ghost function CharsIn(w: nat, n: nat, data: seq<byte>): (s: seq<nat>)
    requires Width(w) && Bytes(w, n) <= |data|
    ensures |s| == n && FitsWidth(s, w)
  {
    BytesIsOffset(w, n);
    var s := Unpack(false, w, n, data);
    assert FitsWidth(s, w) by {
      forall i | 0 <= i < n
        ensures s[i] < Pow256(w)
      {
        LoadBound(false, data[Offset(i, w)..Offset(i, w) + w]);
      }
    }
    s
  }

  /** The text of a value: its code points. */
  ghost function Text(blocks: Blocks, v: Value): (s: seq<nat>)
    requires Sane(blocks, v)
    ensures |s| == (if v.Null? then 0 else v.length)
    ensures !v.Null? ==> FitsWidth(s, v.width)
  {
    if v.Null? then [] else (LengthFits(blocks, v); CharsIn(v.width, v.length, Memory(blocks, v)))
  }

  lemma LengthFits(blocks: Blocks, v: Value)
    requires Sane(blocks, v) && !v.Null?
    ensures Bytes(v.width, v.length) <= |Memory(blocks, v)|
  {
  }

  // ----- counting holders -----

  /** How many of the values hold the block. */
  ghost function Holders(vals: seq<Value>, a: nat): nat {
    if vals == [] then 0 else Holders(vals[..|vals| - 1], a) + if Holds(vals[|vals| - 1], a) then 1 else 0
  }

  lemma {:induction false} HoldersUpdate(vals: seq<Value>, i: nat, v: Value, a: nat)
    requires i < |vals|
    ensures Holders(vals[i := v], a) + (if Holds(vals[i], a) then 1 else 0)
            == Holders(vals, a) + (if Holds(v, a) then 1 else 0)
    decreases |vals|
  {
    var n := |vals| - 1;
    if i < n {
      HoldersUpdate(vals[..n], i, v, a);
      assert vals[i := v][..n] == vals[..n][i := v];
    } else {
      assert vals[i := v][..n] == vals[..n];
    }
  }

  /** No holders means no value holds it; one holder is the only one. */
  lemma {:induction false} HoldersOne(vals: seq<Value>, i: nat, a: nat)
    requires i < |vals| && Holds(vals[i], a)
    ensures Holders(vals, a) >= 1
    ensures Holders(vals, a) == 1 ==> forall j :: 0 <= j < |vals| && j != i ==> !Holds(vals[j], a)
  {
    HoldersUpdate(vals, i, Null, a);
    if Holders(vals, a) == 1 {
      forall j | 0 <= j < |vals| && j != i
        ensures !Holds(vals[j], a)
      {
        HoldersNone(vals[i := Null], j, a);
      }
    }
  }

  lemma {:induction false} HoldersNone(vals: seq<Value>, j: nat, a: nat)
    requires j < |vals| && Holders(vals, a) == 0
    ensures !Holds(vals[j], a)
    decreases |vals|
  {
    if j < |vals| - 1 {
      HoldersNone(vals[..|vals| - 1], j, a);
    }
  }

  lemma {:induction false} HoldersZero(vals: seq<Value>, a: nat)
    requires forall j :: 0 <= j < |vals| ==> !Holds(vals[j], a)
    ensures Holders(vals, a) == 0
    decreases |vals|
  {
    if vals != [] {
      HoldersZero(vals[..|vals| - 1], a);
    }
  }

  // ----- the whole heap -----

  /** All values are sane; each block's count is the number of its holders, at least one, all of one width. */
  ghost predicate Consistent(blocks: Blocks, vals: seq<Value>, next: nat) {
    && (forall i :: 0 <= i < |vals| ==> Sane(blocks, vals[i]))
    && (forall a :: a in blocks ==> a < next && blocks[a].refcount == Holders(vals, a) && blocks[a].refcount > 0)
    && OneWidth(vals)
  }

  /** Values that hold the same block have the same width. */
  ghost predicate OneWidth(vals: seq<Value>) {
    forall i, j :: 0 <= i < |vals| && 0 <= j < |vals| && vals[i].Allocated? && vals[j].Allocated?
        && vals[i].addr == vals[j].addr
      ==> vals[i].width == vals[j].width
  }

  /** Value i and its text are the same in both heaps. */
  ghost predicate SameValue(blocks: Blocks, vals: seq<Value>, blocks': Blocks, vals': seq<Value>, i: nat) {
    && i < |vals| && i < |vals'| && vals'[i] == vals[i]
    && Sane(blocks, vals[i]) && Sane(blocks', vals'[i])
    && Text(blocks', vals'[i]) == Text(blocks, vals[i])
  }

  /** All values but i, and their texts, are the same. */
  ghost predicate OthersSame(blocks: Blocks, vals: seq<Value>, blocks': Blocks, vals': seq<Value>, i: nat) {
    && |vals'| == |vals|
    && forall j :: 0 <= j < |vals| && j != i ==> SameValue(blocks, vals, blocks', vals', j)
  }

  /** Values i and j hold the same block. */
  predicate Shares(vals: seq<Value>, i: nat, j: nat)
    requires i < |vals| && j < |vals|
  {
    vals[i].Allocated? && Holds(vals[j], vals[i].addr)
  }

  /** All values that do not share i's block are the same. */
  ghost predicate OutsidersSame(blocks: Blocks, vals: seq<Value>, blocks': Blocks, vals': seq<Value>, i: nat) {
    && |vals'| == |vals| && i < |vals|
    && forall j :: 0 <= j < |vals| && j != i && !Shares(vals, i, j) ==> SameValue(blocks, vals, blocks', vals', j)
  }

  /** Dropping value i: its block loses a reference, and is freed with the last one. */
  function ReleaseBlock(blocks: Blocks, v: Value): Blocks {
    if v.Allocated? && v.addr in blocks then
      if blocks[v.addr].refcount <= 1 then blocks - {v.addr}
      else blocks[v.addr := blocks[v.addr].(refcount := blocks[v.addr].refcount - 1)]
    else blocks
  }

  lemma SameBlockSameText(blocks: Blocks, blocks': Blocks, v: Value)
    requires Sane(blocks, v)
    requires v.Allocated? ==> v.addr in blocks' && blocks'[v.addr].(refcount := 0) == blocks[v.addr].(refcount := 0)
    ensures Sane(blocks', v) && Text(blocks', v) == Text(blocks, v)
  {
  }

  /** Destroying a value keeps the heap consistent and every other value as it is. */
  lemma ReleaseKeepsHeap(blocks: Blocks, vals: seq<Value>, next: nat, i: nat)
    requires Consistent(blocks, vals, next) && i < |vals|
    ensures var blocks' := ReleaseBlock(blocks, vals[i]);
            && Consistent(blocks', vals[i := Null], next)
            && OthersSame(blocks, vals, blocks', vals[i := Null], i)
  {
    var v := vals[i];
    var blocks', vals' := ReleaseBlock(blocks, v), vals[i := Null];
    forall a | a in blocks
      ensures Holders(vals', a) + (if Holds(v, a) then 1 else 0) == Holders(vals, a)
    {
      HoldersUpdate(vals, i, Null, a);
    }
    forall j | 0 <= j < |vals| && j != i
      ensures SameValue(blocks, vals, blocks', vals', j)
    {
      if v.Allocated? && Holds(vals[j], v.addr) {
        HoldersOne(vals, i, v.addr);
      }
      SameBlockSameText(blocks, blocks', vals[j]);
    }
    forall j | 0 <= j < |vals'|
      ensures Sane(blocks', vals'[j])
    {
      assert j != i ==> SameValue(blocks, vals, blocks', vals', j);
    }
    assert v.Allocated? ==> Sane(blocks, v) && Holds(v, v.addr);
  }

  /** Putting a value that holds no block into an empty place. */
  lemma PutKeepsHeap(blocks: Blocks, vals: seq<Value>, next: nat, i: nat, v: Value)
    requires Consistent(blocks, vals, next) && i < |vals| && !vals[i].Allocated? && !v.Allocated? && Sane(blocks, v)
    ensures Consistent(blocks, vals[i := v], next) && OthersSame(blocks, vals, blocks, vals[i := v], i)
  {
    forall a | a in blocks
      ensures Holders(vals[i := v], a) == Holders(vals, a)
    {
      HoldersUpdate(vals, i, v, a);
    }
  }

  /** Putting a value that holds a new block of its own. */
  lemma AllocateKeepsHeap(blocks: Blocks, vals: seq<Value>, next: nat, i: nat, v: Value, b: Block)
    requires Consistent(blocks, vals, next) && i < |vals| && !vals[i].Allocated?
    requires v.Allocated? && v.addr == next && b.refcount == 1 && Width(v.width) && v.length <= b.capacity
             && BlockFits(v.width, b)
    ensures var blocks' := blocks[next := b];
            Consistent(blocks', vals[i := v], next + 1) && OthersSame(blocks, vals, blocks', vals[i := v], i)
  {
    var blocks', vals' := blocks[next := b], vals[i := v];
    assert next !in blocks;
    forall a | a in blocks
      ensures Holders(vals', a) == Holders(vals, a)
    {
      HoldersUpdate(vals, i, v, a);
    }
    HoldersUpdate(vals, i, v, next);
    assert Holders(vals, next) == 0 by {
      forall j | 0 <= j < |vals|
        ensures !Holds(vals[j], next)
      {
        assert Sane(blocks, vals[j]);
      }
      HoldersZero(vals, next);
    }
    forall j | 0 <= j < |vals| && j != i
      ensures SameValue(blocks, vals, blocks', vals', j)
    {
      SameBlockSameText(blocks, blocks', vals[j]);
    }
  }

  /** Another value comes to hold a block. */
  lemma ShareKeepsHeap(blocks: Blocks, vals: seq<Value>, next: nat, i: nat, j: nat)
    requires Consistent(blocks, vals, next) && i < |vals| && j < |vals| && i != j && vals[i].Allocated?
             && !vals[j].Allocated?
    ensures var a := vals[i].addr;
            && a in blocks
            && var blocks' := blocks[a := blocks[a].(refcount := blocks[a].refcount + 1)];
               Consistent(blocks', vals[j := vals[i]], next) && OthersSame(blocks, vals, blocks', vals[j := vals[i]], j)
               && Text(blocks', vals[i]) == Text(blocks, vals[i])
  {
    assert Sane(blocks, vals[i]);
    var a := vals[i].addr;
    var blocks', vals' := blocks[a := blocks[a].(refcount := blocks[a].refcount + 1)], vals[j := vals[i]];
    forall b | b in blocks
      ensures Holders(vals', b) == Holders(vals, b) + if b == a then 1 else 0
    {
      HoldersUpdate(vals, j, vals[i], b);
    }
    forall k | 0 <= k < |vals|
      ensures Sane(blocks', vals[k]) && Text(blocks', vals[k]) == Text(blocks, vals[k])
    {
      SameBlockSameText(blocks, blocks', vals[k]);
    }
  }

  /** The bytes and the length of one value change; nobody else looks at the bytes that do. */
  lemma WriteKeepsHeap(blocks: Blocks, vals: seq<Value>, next: nat, i: nat, v: Value, blocks': Blocks)
    requires Consistent(blocks, vals, next) && i < |vals|
    requires Sane(blocks', v)
    requires if vals[i].Allocated? then
               && vals[i].addr in blocks
               && v.Allocated? && v.addr == vals[i].addr && v.width == vals[i].width
               && blocks'.Keys == blocks.Keys
               && blocks'[v.addr].(data := []) == blocks[v.addr].(data := [])
               && |blocks'[v.addr].data| == |blocks[v.addr].data|
               && forall a :: a in blocks && a != v.addr ==> blocks'[a] == blocks[a]
             else !v.Allocated? && blocks' == blocks
    ensures Consistent(blocks', vals[i := v], next)
    ensures OutsidersSame(blocks, vals, blocks', vals[i := v], i)
  {
    var vals' := vals[i := v];
    forall a | a in blocks
      ensures Holders(vals[i := v], a) == Holders(vals, a)
    {
      HoldersUpdate(vals, i, v, a);
    }
    assert vals[i].Allocated? ==> Sane(blocks, vals[i]);
    forall j | 0 <= j < |vals| && j != i
      ensures Sane(blocks', vals[j])
    {
      assert Sane(blocks, vals[j]);
    }
    forall j | 0 <= j < |vals| && j != i && !Shares(vals, i, j)
      ensures SameValue(blocks, vals, blocks', vals', j)
    {
      SameBlockSameText(blocks, blocks', vals[j]);
    }
  }
}
