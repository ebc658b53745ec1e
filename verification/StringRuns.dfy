/** Whole runs of string operations: values behave as independent texts, and the one case in which they do not. */
module StringRuns {
  import opened AssocList
  import opened CharSizes
  import opened StringSizes
  import opened StringValues
  import opened StringWrites
  import opened StringHeaps

  datatype Op =
    | Create(i: nat, capacity: nat, width: nat)
    | Drop(i: nat)
    | CloneTo(i: nat, j: nat)
    | DeepCopyTo(i: nat, j: nat)
    | EraseIn(i: nat, a: nat, b: nat)
    | TruncateAt(i: nat, a: nat)
    | AddChar(i: nat, c: nat)
    | AddString(i: nat, j: nat)
    | AddPart(i: nat, j: nat, a: nat, b: nat)
    | PartTo(i: nat, j: nat, a: nat, b: nat)

  /** The meaning of the values: each is null or a text of its own. */
  type Texts = seq<Option<seq<nat>>>

  ghost predicate IsText(ts: Texts, i: nat) {
    i < |ts| && ts[i].Some?
  }

  /** So many characters have a size at every width. */
  ghost predicate Storable(n: nat) {
    NoWrap(4, n)
  }

  /** What the operations ask of their callers. */
  ghost predicate Allowed(ts: Texts, op: Op) {
    match op
    case Create(i, capacity, w) => i < |ts| && Width(w) && NoWrap(w, capacity)
    case Drop(i) => i < |ts|
    case CloneTo(i, j) => i < |ts| && j < |ts| && i != j
    case DeepCopyTo(i, j) => IsText(ts, i) && j < |ts| && i != j
    case EraseIn(i, _, _) => IsText(ts, i)
    case TruncateAt(i, _) => IsText(ts, i)
    case AddChar(i, c) => IsText(ts, i) && Width(CharSize(c)) && Storable(|ts[i].value| + 1)
    case AddString(i, j) => IsText(ts, i) && IsText(ts, j) && i != j && Storable(|ts[i].value| + |ts[j].value|)
    case AddPart(i, j, a, b) =>
      && IsText(ts, i) && IsText(ts, j) && i != j && FitsWidth(Part(ts[j].value, a, b), 3)
      && Storable(|ts[i].value| + |Part(ts[j].value, a, b)|)
    case PartTo(i, j, a, b) => IsText(ts, i) && j < |ts| && i != j && FitsWidth(Part(ts[i].value, a, b), 3)
  }

  /** What an operation does to independent texts. */
  ghost function Apply(ts: Texts, op: Op): (r: Texts)
    requires Allowed(ts, op)
    ensures |r| == |ts|
  {
    match op
    case Create(i, _, _) => ts[i := Some([])]
    case Drop(i) => ts[i := None]
    case CloneTo(i, j) => ts[j := ts[i]]
    case DeepCopyTo(i, j) => ts[j := ts[i]]
    case EraseIn(i, a, b) => ts[i := Some(Erased(ts[i].value, a, b))]
    case TruncateAt(i, a) => ts[i := Some(if a < |ts[i].value| then ts[i].value[..a] else ts[i].value)]
    case AddChar(i, c) => ts[i := Some(ts[i].value + [c])]
    case AddString(i, j) => ts[i := Some(ts[i].value + ts[j].value)]
    case AddPart(i, j, a, b) => ts[i := Some(ts[i].value + Part(ts[j].value, a, b))]
    case PartTo(i, j, a, b) => ts[j := Some(Part(ts[i].value, a, b))]
  }

  ghost predicate AllAllowed(ts: Texts, ops: seq<Op>)
    decreases |ops|
  {
    ops == [] || (Allowed(ts, ops[0]) && AllAllowed(Apply(ts, ops[0]), ops[1..]))
  }

  ghost function ApplyAll(ts: Texts, ops: seq<Op>): Texts
    requires AllAllowed(ts, ops)
    decreases |ops|
  {
    if ops == [] then ts else ApplyAll(Apply(ts, ops[0]), ops[1..])
  }

  predicate Appends(op: Op) {
    op.AddChar? || op.AddString? || op.AddPart?
  }

  /** The value an operation names first. */
  function Target(op: Op): nat {
    match op
    case Create(i, _, _) => i
    case Drop(i) => i
    case CloneTo(i, _) => i
    case DeepCopyTo(i, _) => i
    case EraseIn(i, _, _) => i
    case TruncateAt(i, _) => i
    case AddChar(i, _) => i
    case AddString(i, _) => i
    case AddPart(i, _, _, _) => i
    case PartTo(i, _, _, _) => i
  }

  /** The meaning of one value. */
  ghost function MeaningAt(blocks: Blocks, v: Value): Option<seq<nat>>
    requires Sane(blocks, v)
  {
    if v.Null? then None else Some(Text(blocks, v))
  }

  ghost predicate AllSane(blocks: Blocks, vals: seq<Value>) {
    forall i :: 0 <= i < |vals| ==> Sane(blocks, vals[i])
  }

  ghost function MeaningOf(blocks: Blocks, vals: seq<Value>): (ts: Texts)
    requires AllSane(blocks, vals)
    ensures |ts| == |vals|
    ensures forall i :: 0 <= i < |ts| ==> ts[i] == MeaningAt(blocks, vals[i])
  {
    seq(|vals|, i requires 0 <= i < |vals| => MeaningAt(blocks, vals[i]))
  }

  /** The meaning of the values in the heap. */
  ghost function Meaning(h: StringHeap): (ts: Texts)
    requires h.Valid()
    reads h
  {
    MeaningOf(h.blocks, h.vals)
  }

  /** One value changes, the others do not. */
  lemma OneChanged(h: StringHeap, blocks0: Blocks, vals0: seq<Value>, i: nat)
    requires h.Valid() && AllSane(blocks0, vals0) && i < |vals0| && h.Others(blocks0, vals0, i)
    ensures i < |h.vals| && AllSane(h.blocks, h.vals)
    ensures Meaning(h) == MeaningOf(blocks0, vals0)[i := MeaningAt(h.blocks, h.vals[i])]
  {
    hide Text, Sane;
    forall j | 0 <= j < |h.vals| && j != i
      ensures MeaningAt(h.blocks, h.vals[j]) == MeaningAt(blocks0, vals0[j])
    {
      assert SameValue(blocks0, vals0, h.blocks, h.vals, j);
    }
  }

  lemma MeaningIs(h: StringHeap, i: nat)
    requires h.Valid() && i < |h.vals|
    ensures |Meaning(h)| == |h.vals| && AllSane(h.blocks, h.vals)
    ensures Meaning(h)[i] == if h.IsString(i) then Some(h.TextAt(i)) else None
    ensures h.IsString(i) ==> |h.TextAt(i)| == h.vals[i].length && Width(h.vals[i].width)
  {
    SaneAt(h.blocks, h.vals, h.next, i);
  }

  /** A value holds a block that others hold too. */
  predicate Shared(h: StringHeap, i: nat)
    requires i < |h.vals|
    reads h
  {
    h.vals[i].Allocated? && h.vals[i].addr in h.blocks && h.blocks[h.vals[i].addr].refcount > 1
  }

  lemma UnsharedIsAlone(h: StringHeap, i: nat)
    requires h.Valid() && h.IsString(i) && !Shared(h, i)
    ensures Alone(h.vals, i) && Clear(h.vals, i, h.vals[i].length)
    ensures forall at, chars {:trigger Unseen(h.blocks, h.vals, i, at, chars)} :: Unseen(h.blocks, h.vals, i, at, chars)
  {
    SaneAt(h.blocks, h.vals, h.next, i);
    if h.vals[i].Allocated? {
      NotShared(h.blocks, h.vals, h.next, i);
    }
    AloneIsClear(h.vals, i, h.vals[i].length);
  }

  lemma TargetIn(h: StringHeap, op: Op)
    requires h.Valid() && Allowed(Meaning(h), op)
    ensures Target(op) < |h.vals|
  {
  }

  /** One operation; appending to a string that shares its block is declined. */
  method Perform(h: StringHeap, op: Op) returns (ok: bool)
    requires h.Valid() && Allowed(Meaning(h), op)
    modifies h
    ensures h.Valid()
    ensures if ok then Meaning(h) == Apply(old(Meaning(h)), op) else h.vals == old(h.vals) && h.blocks == old(h.blocks)
    ensures !ok ==> Appends(op) && Target(op) < |h.vals| && Shared(h, Target(op))
    ensures ok && Appends(op) ==> Target(op) < |old(h.vals)| && !old(Shared(h, Target(op)))
  {
    hide Consistent, OthersSame, Text, NoWrap, Bytes, Clear, TextWidth, FitsWidth, Sane, Alone, Capacity, Memory,
         Unseen, NarrowRun, WrittenThrough, CharSize;
    TargetIn(h, op);
    MeaningIs(h, Target(op));
    if Appends(op) && Shared(h, Target(op)) {
      return false;
    }
    ok := true;
    if Appends(op) {
      PerformAppend(h, op);
    } else {
      PerformOwn(h, op);
    }
  }

  /** The operations that put a new value in place or copy before they change one. */
  method PerformOwn(h: StringHeap, op: Op)
    requires h.Valid() && Allowed(Meaning(h), op) && !Appends(op)
    modifies h
    ensures h.Valid() && Meaning(h) == Apply(old(Meaning(h)), op)
  {
    hide Consistent, OthersSame, Text, NoWrap, Bytes, Clear, TextWidth, FitsWidth, Sane, Alone, Capacity, Memory,
         Unseen, NarrowRun, WrittenThrough, CharSize;
    ghost var blocks0, vals0 := h.blocks, h.vals;
    TargetIn(h, op);
    MeaningIs(h, Target(op));
    match op
    case Create(i, capacity, w) =>
      h.MakeEmpty(i, capacity, w);
      FreshFacts(h.blocks, h.vals, i, w, capacity);
      OneChanged(h, blocks0, vals0, i);
      MeaningIs(h, i);
    case Drop(i) =>
      h.Destroy(i);
      OneChanged(h, blocks0, vals0, i);
      MeaningIs(h, i);
    case CloneTo(i, j) =>
      h.Clone(i, j);
      OneChanged(h, blocks0, vals0, j);
      MeaningIs(h, j);
    case DeepCopyTo(i, j) =>
      h.DeepCopy(i, j);
      OneChanged(h, blocks0, vals0, j);
      MeaningIs(h, j);
    case EraseIn(i, a, b) =>
      h.Erase(i, a, b);
      OneChanged(h, blocks0, vals0, i);
      MeaningIs(h, i);
    case TruncateAt(i, a) =>
      h.Truncate(i, a);
      OneChanged(h, blocks0, vals0, i);
      MeaningIs(h, i);
    case PartTo(i, j, a, b) =>
      h.Substr(i, j, a, b);
      OneChanged(h, blocks0, vals0, j);
      MeaningIs(h, j);
  }

  method PerformAppend(h: StringHeap, op: Op)
    requires h.Valid() && Allowed(Meaning(h), op) && Appends(op) && Target(op) < |h.vals| && !Shared(h, Target(op))
    modifies h
    ensures h.Valid() && Meaning(h) == Apply(old(Meaning(h)), op)
  {
    hide Consistent, OthersSame, Text, NoWrap, Bytes, Clear, TextWidth, FitsWidth, Sane, Alone, Capacity, Memory,
         Unseen, NarrowRun, WrittenThrough, CharSize;
    ghost var blocks0, vals0 := h.blocks, h.vals;
    MeaningIs(h, Target(op));
    UnsharedIsAlone(h, Target(op));
    var w, n := h.vals[Target(op)].width, h.vals[Target(op)].length;
    match op
    case AddChar(i, c) =>
      NoWrapNarrower(Max(w, CharSize(c)), 4, n + 1);
      h.AppendChar(i, c);
      OneChanged(h, blocks0, vals0, i);
      MeaningIs(h, i);
    case AddString(i, j) =>
      MeaningIs(h, j);
      NoWrapNarrower(Max(w, h.vals[j].width), 4, n + h.vals[j].length);
      h.Append(i, j);
      OneChanged(h, blocks0, vals0, i);
      MeaningIs(h, i);
    case AddPart(i, j, a, b) =>
      MeaningIs(h, j);
      NoWrapNarrower(Max(w, h.vals[j].width), 4, n + |Part(h.TextAt(j), a, b)|);
      h.AppendSubstring(i, j, a, b);
      OneChanged(h, blocks0, vals0, i);
      MeaningIs(h, i);
  }

  /**
   For every run in which no string is appended to while it shares its block, the values are independent texts,
   and every block's count stays the number of its holders. The run stops before the first such append.
   */
  method Run(h: StringHeap, ops: seq<Op>) returns (done: nat)
    requires h.Valid() && AllAllowed(Meaning(h), ops)
    modifies h
    ensures h.Valid() && done <= |ops|
    ensures AllAllowed(old(Meaning(h)), ops[..done]) && Meaning(h) == ApplyAll(old(Meaning(h)), ops[..done])
    ensures done < |ops| ==> Appends(ops[done]) && Target(ops[done]) < |h.vals| && Shared(h, Target(ops[done]))
    decreases |ops|
  {
    hide Consistent, OthersSame, Text, NoWrap, Bytes, Clear, TextWidth, FitsWidth, Sane, Alone, Capacity, Memory,
         Unseen, NarrowRun, WrittenThrough, CharSize, Apply, Allowed;
    if ops == [] {
      return 0;
    }
    ghost var before := Meaning(h);
    var ok := Perform(h, ops[0]);
    if !ok {
      return 0;
    }
    var rest := Run(h, ops[1..]);
    done := 1 + rest;
    assert ops[..done][1..] == ops[1..][..rest];
  }

  /**
   A clone of "a" and the string itself both have room: adding b to the clone and then c to the string makes the clone
   "ac".
   */
  method SharedAppendShows() returns (before: nat, after: nat)
    ensures before == 98 && after == 99
  {
    hide Consistent, Text, NoWrap, Bytes, Clear, TextWidth, FitsWidth, Sane, Alone, Memory, Unseen, NarrowRun, CharSize;
    var h := new StringHeap(2);
    SmallNumbers();
    h.MakeEmpty(0, 13, 1);
    OneIsAllocated(h);
    h.AppendChar(0, 97);
    assert h.vals[0].Allocated? && |h.vals| == 2 && h.TextAt(0) == [97];
    h.Clone(0, 1);
    Sizes(h);
    ghost var blocks1, vals1 := h.blocks, h.vals;
    h.AppendChar(1, 98);
    assert SeenThrough(blocks1, vals1, h.blocks, h.vals, 1, 1, [98], 0);
    Sizes(h);
    assert h.TextAt(1) == [97, 98];
    before := h.CharAt(1, 1);
    ghost var blocks2, vals2 := h.blocks, h.vals;
    h.AppendChar(0, 99);
    assert SeenThrough(blocks2, vals2, h.blocks, h.vals, 0, 1, [99], 1);
    after := h.CharAt(1, 1);
  }

  lemma OneIsAllocated(h: StringHeap)
    requires h.Valid() && Fresh(h.blocks, h.vals, 0, 1, 13)
    ensures h.IsString(0) && h.vals[0].Allocated? && h.vals[0].width == 1 && h.vals[0].length == 0
            && h.CapacityAt(0) >= 13
    ensures h.TextAt(0) == []
  {
  }

  lemma Sizes(h: StringHeap)
    requires h.Valid() && |h.vals| == 2 && h.vals[0].Allocated? && h.vals[1].Allocated?
             && h.vals[0].addr == h.vals[1].addr
    ensures h.CapacityAt(0) == h.CapacityAt(1)
    ensures h.vals[0].length == |h.TextAt(0)| && h.vals[1].length == |h.TextAt(1)|
    ensures Shares(h.vals, 0, 1) && Shares(h.vals, 1, 0)
  {
  }

  lemma SmallNumbers()
    ensures CharSize(97) == CharSize(98) == CharSize(99) == 1 && Max(1, 1) == 1
    ensures Width(1) && NoWrap(1, 13) && NoWrap(1, 1) && NoWrap(1, 2)
  {
    CharSizeValues(97);
    CharSizeValues(98);
    CharSizeValues(99);
  }
}
