/** Whole runs of a map against the association list, and inputs on which deletion goes wrong. */
module MapRuns {
  import opened Radix
  import opened Probing
  import opened HashTables
  import opened AssocList
  import opened References
  import opened Deletions
  import opened PwMaps

  datatype Op<K, V> =
    | OpUpdate(key: K, value: V)
    | OpFind(key: K)
    | OpHasKey(key: K)
    | OpItem(index: Index)
    | OpDelete(key: K)

  datatype Answer<K, V> =
    | Updated
    | Value(value: Option<V>)
    | Present(yes: bool)
    | PairAt(item: Option<(K, V)>)
    | Deleted(ok: bool)

  /** The list, and what the cells behind the pairs hold. */
  datatype State<K, V> = State(pairs: Pairs<K, V>, behind: seq<Cell<K, V>>)

  /** The state after an operation: a new pair takes the first of the cells behind, a deletion adds one. */
  ghost function Effect<K, V>(ops: KeyOps<K>, st: State<K, V>, op: Op<K, V>): State<K, V> {
    var ps := st.pairs;
    match op
    case OpUpdate(key, value) =>
      State(Put(ops, ps, key, value),
            if Missing(ops, ps, key) && st.behind != [] then st.behind[1..] else st.behind)
    case OpDelete(key) =>
      if Missing(ops, ps, key) then st
      else State(Remove(ops, ps, key),
                 [if ops.eq(ps[|ps| - 1].0, key) then Empty else LastCell(ps)] + st.behind)
    case _ => st
  }

  /** What the list answers; an index above 2^31 loses its highest bit. */
  ghost function Expected<K, V>(ops: KeyOps<K>, ps: Pairs<K, V>, op: Op<K, V>): Answer<K, V> {
    match op
    case OpUpdate(_, _) => Updated
    case OpFind(key) => Value(Get(ops, ps, key))
    case OpHasKey(key) => Present(!Missing(ops, ps, key))
    case OpItem(i) => PairAt(ItemAt(ps, i))
    case OpDelete(key) => Deleted(!Missing(ops, ps, key))
  }

  ghost function After<K, V>(ops: KeyOps<K>, st: State<K, V>, script: seq<Op<K, V>>): State<K, V>
    decreases |script|
  {
    if script == [] then st else After(ops, Effect(ops, st, script[0]), script[1..])
  }

  /** A new pair that the array cannot take, or that would release references of the cell it goes into. */
  ghost predicate Blocked<K, V>(ops: KeyOps<K>, held: Holding<K, V>, st: State<K, V>, op: Op<K, V>) {
    && op.OpUpdate? && Missing(ops, st.pairs, op.key)
    && (|st.pairs| == MAX_PAIRS || CellRefs(held, CellAt(st.behind, 0)) != multiset{})
  }

  /** Each operation is not blocked, and its answer is what the list says at its time. */
  ghost predicate Agrees<K, V>(ops: KeyOps<K>, held: Holding<K, V>, st: State<K, V>, script: seq<Op<K, V>>,
                               answers: seq<Answer<K, V>>)
    decreases |script|
  {
    if script == [] then answers == []
    else
      && answers != [] && answers[0] == Expected(ops, st.pairs, script[0]) && !Blocked(ops, held, st, script[0])
      && Agrees(ops, held, Effect(ops, st, script[0]), script[1..], answers[1..])
  }

  /** The map is in that state. */
  ghost predicate Shows<K(!new), V>(m: PwMap<K, V>, st: State<K, V>)
    reads m, m.Repr
  {
    && m.Valid() && m.Contents() == st.pairs
    && forall i :: m.Ahead(i) == CellAt(st.behind, i)
  }

  /** Deleting the key, if there is such a pair, leaves a map. */
  ghost predicate MayDelete<K(!new), V>(m: PwMap<K, V>, key: K)
    requires m.Valid()
    reads m, m.Repr
  {
    forall k :: FirstAt(m.ops, m.Contents(), key, k) ==>
        SafeToDelete(m.ops, m.table.Slots(), m.cells[..], m.length, m.pos, k)
  }

  /** Pair j is found in its own slot, by as many steps as lead there from its home. */
  lemma OwnLookup<K(!new), V>(m: PwMap<K, V>, j: nat)
    requires m.Valid() && j < m.length
    ensures 0 < m.table.capacity == |m.table.Slots()| && Readable(m.table.Slots(), m.cells[..])
    ensures |m.pos| == m.length && m.pos[j] < m.table.capacity && m.cells[j].Pair?
    ensures var h := Home(m.ops, m.cells[j].key, m.table.capacity);
            Walk(m.ops, m.table.Slots(), m.cells[..], m.cells[j].key, 0) == Found(j, m.pos[j],
                Steps(m.table.capacity, h, m.pos[j]))
    ensures FirstAt(m.ops, m.Contents(), m.cells[j].key, j)
  {
    m.Parts();
    MatchIsUnique(m.ops, m.cells[..], m.length, m.cells[j].key, j);
    WalkFinds(m.ops, m.table.Slots(), m.cells[..], m.length, m.pos, m.cells[j].key, j);
    WalkAnswers(m.ops, m.table.Slots(), m.cells[..], m.length, m.pos, m.cells[j].key);
  }

  /**
   The check a caller can make before a deletion: the pair is not last but one, and no other lookup passes its slot.
   */
  method CheckDelete<K(!new), V>(m: PwMap<K, V>, key: K) returns (safe: bool)
    requires m.Valid()
    ensures safe <==> MayDelete(m, key)
    ensures Missing(m.ops, m.Contents(), key) ==> safe
  {
    hide *;
    m.Parts();
    m.LookupAnswers(key);
    var o := m.Lookup(key);
    if !o.Found? {
      NothingToDelete(m, key);
      return true;
    }
    var k := o.index;
    if k + 2 == m.length {
      NotSafe(m, key, k);
      return false;
    }
    var j := 0;
    while j < m.length
      invariant j <= m.length
      invariant forall i :: 0 <= i < j && i != k ==> !CrossedBy(m, k, i)
    {
      if j != k {
        OwnLookup(m, j);
        var own := m.Lookup(m.cells[j].key);
        var h := Masked(m.ops.hash(m.cells[j].key), m.table.capacity, m.table.log);
        CrossedIs(m, k, j, h, own.offset);
        if Steps(m.table.capacity, h, o.slot) < own.offset {
          NotSafe(m, key, k);
          return false;
        }
      }
      j := j + 1;
    }
    IsSafe(m, key, k);
    safe := true;
  }

  /** Pair j's probe run crosses the slot of pair k. */
  ghost predicate CrossedBy<K(!new), V>(m: PwMap<K, V>, k: nat, j: nat)
    requires m.Valid()
    reads m, m.Repr
  {
    k < m.length && j < m.length && Table(m.ops, m.table.Slots(), m.cells[..], m.length, m.pos)
    && Crosses(m.ops, m.table.Slots(), m.cells[..], m.pos, j, m.pos[k])
  }

  lemma CrossedIs<K(!new), V>(m: PwMap<K, V>, k: nat, j: nat, h: nat, offset: nat)
    requires m.Valid() && k < m.length && j < m.length && |m.pos| == m.length && m.table.capacity > 0
    requires m.cells[j].Pair? && h == Remainder(m.ops.hash(m.cells[j].key), m.table.capacity)
             && m.pos[j] < m.table.capacity
    requires offset == Steps(m.table.capacity, Home(m.ops, m.cells[j].key, m.table.capacity), m.pos[j])
    ensures h < m.table.capacity && m.pos[k] < m.table.capacity
    ensures CrossedBy(m, k, j) <==> Steps(m.table.capacity, h, m.pos[k]) < offset
  {
    m.Parts();
  }

  lemma NothingToDelete<K(!new), V>(m: PwMap<K, V>, key: K)
    requires m.Valid() && Missing(m.ops, m.Contents(), key)
    ensures MayDelete(m, key)
  {
  }

  lemma NotSafe<K(!new), V>(m: PwMap<K, V>, key: K, k: nat)
    requires m.Valid() && FirstAt(m.ops, m.Contents(), key, k)
    requires k + 2 == m.length || exists j :: j != k && CrossedBy(m, k, j)
    ensures !MayDelete(m, key)
  {
    if j :| j != k && CrossedBy(m, k, j) {
      assert Crosses(m.ops, m.table.Slots(), m.cells[..], m.pos, j, m.pos[k]);
    }
  }

  lemma IsSafe<K(!new), V>(m: PwMap<K, V>, key: K, k: nat)
    requires m.Valid() && FirstAt(m.ops, m.Contents(), key, k) && k + 2 != m.length
    requires forall j :: 0 <= j < m.length && j != k ==> !CrossedBy(m, k, j)
    ensures MayDelete(m, key)
  {
    m.Parts();
    ghost var slots, cells := m.table.Slots(), m.cells[..];
    assert forall j :: 0 <= j < m.length ==> m.pos[j] < |slots| && cells[j].Pair?;
    forall j | 0 <= j < m.length && j != k
      ensures !Crosses(m.ops, slots, cells, m.pos, j, m.pos[k])
    {
      assert !CrossedBy(m, k, j);
    }
    hide Table, Crosses;
    assert SafeToDelete(m.ops, slots, cells, m.length, m.pos, k);
    OnlyFirst(m.ops, m.Contents(), key, k);
  }

  lemma OnlyFirst<K, V>(ops: KeyOps<K>, ps: Pairs<K, V>, key: K, k: nat)
    requires FirstAt(ops, ps, key, k)
    ensures forall j :: FirstAt(ops, ps, key, j) ==> j == k
  {
  }

  /** An operation is done unless it is blocked or is a deletion that would not leave a map. */
  method Perform<K(!new), V>(m: PwMap<K, V>, op: Op<K, V>, ghost st: State<K, V>)
    returns (done: bool, answer: Answer<K, V>)
    requires Shows(m, st)
    modifies m.Repr
    ensures fresh(m.Repr - old(m.Repr))
    ensures done ==> Shows(m, Effect(m.ops, st, op)) && answer == Expected(m.ops, st.pairs, op)
    ensures done ==> !Blocked(m.ops, m.held, st, op)
    ensures !done ==> Shows(m, st) && StopsAt(m, st, op)
  {
    hide Get, Put, Remove, Missing, Table, MayDelete, FirstAt, SafeToDelete, CellRefs, Balanced;
    done := true;
    match op
    case OpUpdate(key, value) =>
      done := PerformUpdate(m, key, value, st);
      answer := Updated;
    case OpFind(key) =>
      var value := m.Find(key);
      answer := Value(value);
    case OpHasKey(key) =>
      var yes := m.HasKey(key);
      answer := Present(yes);
    case OpItem(index) =>
      var item := m.Item(index);
      answer := PairAt(item);
    case OpDelete(key) =>
      done, answer := PerformDelete(m, key, st);
  }

  method PerformUpdate<K(!new), V>(m: PwMap<K, V>, key: K, value: V, ghost st: State<K, V>) returns (done: bool)
    requires Shows(m, st)
    modifies m.Repr
    ensures fresh(m.Repr - old(m.Repr))
    ensures done <==> !Blocked(m.ops, m.held, st, OpUpdate(key, value))
    ensures Shows(m, if done then Effect(m.ops, st, OpUpdate(key, value)) else st)
  {
    hide *;
    ShowsIs(m, st);
    BlockedIs(m.ops, m.held, st, key, value);
    EffectOfUpdate(m.ops, st, key, value);
    m.SizeIs();
    var present := m.HasKey(key);
    if !present && (m.length == MAX_PAIRS || CellRefs(m.held, m.Ahead(0)) != multiset{}) {
      return false;
    }
    var growth := m.Update(key, value);
    done := true;
    ShowsIs(m, Effect(m.ops, st, OpUpdate(key, value)));
  }

  lemma BlockedIs<K, V>(ops: KeyOps<K>, held: Holding<K, V>, st: State<K, V>, key: K, value: V)
    ensures Blocked(ops, held, st, OpUpdate(key, value)) <==>
            && Missing(ops, st.pairs, key)
            && (|st.pairs| == MAX_PAIRS || CellRefs(held, CellAt(st.behind, 0)) != multiset{})
  {
  }

  lemma EffectOfUpdate<K, V>(ops: KeyOps<K>, st: State<K, V>, key: K, value: V)
    ensures var after := Effect(ops, st, OpUpdate(key, value));
            && after.pairs == Put(ops, st.pairs, key, value)
            && forall i: nat :: CellAt(after.behind, i)
                 == CellAt(st.behind, if Missing(ops, st.pairs, key) then i + 1 else i)
  {
  }

  method PerformDelete<K(!new), V>(m: PwMap<K, V>, key: K, ghost st: State<K, V>)
    returns (done: bool, answer: Answer<K, V>)
    requires Shows(m, st)
    modifies m.Repr
    ensures m.Repr == old(m.Repr) && (done <==> old(MayDelete(m, key)))
    ensures Shows(m, if done then Effect(m.ops, st, OpDelete(key)) else st)
    ensures !done ==> !MayDelete(m, key) && !Missing(m.ops, st.pairs, key)
    ensures done ==> answer == Deleted(!Missing(m.ops, st.pairs, key))
  {
    hide *;
    ShowsIs(m, st);
    EffectOfDelete(m.ops, st, key);
    done := CheckDelete(m, key);
    answer := Deleted(false);
    if done {
      LastHasKey(m, key);
      MayDeleteIs(m, key);
      var ok, k := m.Delete(key);
      answer := Deleted(ok);
      ShowsIs(m, Effect(m.ops, st, OpDelete(key)));
    }
  }

  lemma ShowsIs<K(!new), V>(m: PwMap<K, V>, st: State<K, V>)
    ensures Shows(m, st) <==> m.Valid() && m.Contents() == st.pairs && forall i :: m.Ahead(i) == CellAt(st.behind, i)
  {
  }

  lemma MayDeleteIs<K(!new), V>(m: PwMap<K, V>, key: K)
    requires m.Valid() && MayDelete(m, key)
    ensures forall k :: FirstAt(m.ops, m.Contents(), key, k) ==>
                          SafeToDelete(m.ops, m.table.Slots(), m.cells[..], m.length, m.pos, k)
  {
  }

  lemma EffectOfDelete<K, V>(ops: KeyOps<K>, st: State<K, V>, key: K)
    ensures var after := Effect(ops, st, OpDelete(key));
            if Missing(ops, st.pairs, key) then after == st
            else
              && after.pairs == Remove(ops, st.pairs, key) && |st.pairs| > 0
              && CellAt(after.behind, 0)
                 == (if ops.eq(st.pairs[|st.pairs| - 1].0, key) then Empty else LastCell(st.pairs))
              && forall i: nat :: i > 0 ==> CellAt(after.behind, i) == CellAt(st.behind, i - 1)
  {
  }

  /** The pair with the key is the last one exactly when the last one has the key. */
  lemma LastHasKey<K(!new), V>(m: PwMap<K, V>, key: K)
    requires m.Valid()
    ensures forall k :: FirstAt(m.ops, m.Contents(), key, k) ==>
              && |m.Contents()| > 0
              && (k == |m.Contents()| - 1 <==> m.ops.eq(m.Contents()[|m.Contents()| - 1].0, key))
  {
    m.Parts();
    forall k | FirstAt(m.ops, m.Contents(), key, k)
      ensures |m.Contents()| > 0
      ensures k == |m.Contents()| - 1 <==> m.ops.eq(m.Contents()[|m.Contents()| - 1].0, key)
    {
      MatchIsUnique(m.ops, m.cells[..], m.length, key, k);
      hide Table, DistinctKeys, Balanced;
      assert Matches(m.ops, m.cells[m.length - 1], key) <==> m.length - 1 == k;
    }
  }

  /** A run from any state; it stops before an operation that is blocked and before an unsafe deletion. */
  method RunFrom<K(!new), V>(m: PwMap<K, V>, script: seq<Op<K, V>>, ghost st: State<K, V>)
    returns (answers: seq<Answer<K, V>>)
    requires Shows(m, st)
    modifies m.Repr
    ensures fresh(m.Repr - old(m.Repr))
    ensures |answers| <= |script| && Agrees(m.ops, m.held, st, script[..|answers|], answers)
    ensures Shows(m, After(m.ops, st, script[..|answers|]))
    ensures |answers| < |script| ==> StopsAt(m, After(m.ops, st, script[..|answers|]), script[|answers|])
    decreases |script|
  {
    hide Expected, Effect, Blocked, Shows, StopsAt;
    answers := [];
    if script == [] {
      return;
    }
    var done, first := Perform(m, script[0], st);
    if !done {
      return;
    }
    var rest := RunFrom(m, script[1..], Effect(m.ops, st, script[0]));
    answers := [first] + rest;
    OneMoreAnswer(script, |rest|);
    assert answers[1..] == rest;
  }

  /** What a run stops at: a blocked insertion, or the deletion of a present key that would not leave a map. */
  ghost predicate StopsAt<K(!new), V>(m: PwMap<K, V>, st: State<K, V>, op: Op<K, V>)
    requires m.Valid()
    reads m, m.Repr
  {
    if op.OpDelete? then !MayDelete(m, op.key) && !Missing(m.ops, st.pairs, op.key) else Blocked(m.ops, m.held, st, op)
  }

  lemma OneMoreAnswer<K, V>(script: seq<Op<K, V>>, n: nat)
    requires n < |script|
    ensures script[..n + 1][0] == script[0] && script[..n + 1][1..] == script[1..][..n]
  {
  }

  /**
   For every run from an empty map all answers are those of the insertion-ordered association list, and the map holds
   exactly the references of its pairs. The run goes through unless it comes to the deletion of a present key that would
   not leave a map, to a new key for a map of MAX_PAIRS pairs, or to one whose pair would go into a cell that still
   holds counted references, after a deletion.
   */
  method Run<K(!new), V>(ops: KeyOps<K>, held: Holding<K, V>, script: seq<Op<K, V>>)
    returns (m: PwMap<K, V>, answers: seq<Answer<K, V>>)
    requires Lawful(ops)
    ensures m.ops == ops && m.held == held && fresh(m.Repr)
    ensures |answers| <= |script| && Agrees(ops, held, State([], []), script[..|answers|], answers)
    ensures Shows(m, After(ops, State([], []), script[..|answers|]))
    ensures |answers| < |script| ==> StopsAt(m, After(ops, State([], []), script[..|answers|]), script[|answers|])
  {
    m := new PwMap<K, V>(ops, held);
    answers := RunFrom(m, script, State([], []));
  }

  /** After such a run, destroying the map releases exactly what it was handed. */
  method RunAndDestroy<K(!new), V>(ops: KeyOps<K>, held: Holding<K, V>, script: seq<Op<K, V>>)
    returns (m: PwMap<K, V>, answers: seq<Answer<K, V>>)
    requires Lawful(ops)
    ensures m.taken == m.dropped
  {
    m, answers := Run(ops, held, script);
    m.IsBalanced();
    m.Destroy();
  }

  /** A run never stops at an insertion below the bound when nothing is counted. */
  lemma NothingCounted<K, V>(ops: KeyOps<K>, held: Holding<K, V>, st: State<K, V>, op: Op<K, V>)
    requires forall key :: held.ofKey(key) == multiset{}
    requires forall value :: held.ofValue(value) == multiset{}
    ensures Blocked(ops, held, st, op) ==> |st.pairs| == MAX_PAIRS
  {
  }

  /** Nor when nothing was deleted. */
  lemma {:induction false} NothingDeleted<K, V>(ops: KeyOps<K>, st: State<K, V>, script: seq<Op<K, V>>)
    requires forall i :: 0 <= i < |script| ==> !script[i].OpDelete?
    requires st.behind == []
    ensures After(ops, st, script).behind == []
    decreases |script|
  {
    if script != [] {
      assert !script[0].OpDelete?;
      NothingDeleted(ops, Effect(ops, st, script[0]), script[1..]);
    }
  }

  /** After the deletion of a pair that is not the last, a new key is blocked exactly if the last pair is counted. */
  lemma BlockedAfterDeletion<K, V>(ops: KeyOps<K>, held: Holding<K, V>, st: State<K, V>, key: K, op: Op<K, V>)
    requires !Missing(ops, st.pairs, key) && !ops.eq(st.pairs[|st.pairs| - 1].0, key) && |st.pairs| <= MAX_PAIRS
    requires op.OpUpdate? && Missing(ops, Remove(ops, st.pairs, key), op.key)
    ensures Blocked(ops, held, Effect(ops, st, OpDelete(key)), op) <==>
            PairRefs(held, st.pairs[|st.pairs| - 1]) != multiset{}
  {
    RemoveOne(ops, st.pairs, key);
  }

  lemma {:induction false} RemoveOne<K, V>(ops: KeyOps<K>, ps: Pairs<K, V>, key: K)
    requires !Missing(ops, ps, key)
    ensures |Remove(ops, ps, key)| == |ps| - 1
    decreases |ps|
  {
    if !ops.eq(ps[0].0, key) {
      assert forall j :: 0 < j < |ps| ==> ps[1..][j - 1] == ps[j];
      RemoveOne(ops, ps[1..], key);
    }
  }

  // ----- deletion that loses pairs -----

  /** Numbers as keys, hashed to themselves. */
  ghost function NumberKeys(): (ops: KeyOps<nat>)
    ensures Lawful(ops)
  {
    KeyOps((x: nat) => x, (x: nat, y: nat) => x == y)
  }

  /** Pairs that sit in the first slots in order, none before its home, make a table. */
  lemma FrontTable<K(!new), V>(ops: KeyOps<K>, slots: seq<nat>, cells: seq<Cell<K, V>>, n: nat, pos: seq<nat>)
    requires n < |slots| && n <= |cells| && DistinctKeys(ops, cells, n)
    requires forall s :: 0 <= s < |slots| ==> slots[s] == if s < n then s + 1 else 0
    requires forall i :: 0 <= i < n ==> Home(ops, cells[i].key, |slots|) <= i
    requires |pos| == n && forall i :: 0 <= i < n ==> pos[i] == i
    ensures Table(ops, slots, cells, n, pos)
  {
    assert forall i :: 0 <= i < n ==> cells[i].Pair?;
    hide Home, DistinctKeys;
    forall i | 0 <= i < n
      ensures NoGap(slots, Home(ops, cells[i].key, |slots|), pos[i])
    {
    }
  }

  ghost function TwoSlots(): seq<nat> { [1, 2, 0, 0, 0, 0, 0, 0] }

  ghost function TwoPairs(): seq<Cell<nat, nat>> { [Pair(0, 10), Pair(1, 11)] }

  lemma TwoPairsTable()
    ensures Table(NumberKeys(), TwoSlots(), TwoPairs(), 2, [0, 1])
  {
    hide Table;
    assert Home(NumberKeys(), 0, 8) == 0 && Home(NumberKeys(), 1, 8) == 1;
    hide Home;
    FrontTable(NumberKeys(), TwoSlots(), TwoPairs(), 2, [0, 1]);
  }

  /**
   Two pairs in eight slots: after deleting the first, which is last but one, the second is read through an index past
   the end. The next new pair, of key 2, takes that cell, and then key 1 is not found although its pair is the first.
   */
  lemma DeletingLastButOneLosesTheLast()
    ensures Table(NumberKeys(), TwoSlots(), TwoPairs(), 2, [0, 1])
    ensures !SafeToDelete(NumberKeys(), TwoSlots(), TwoPairs(), 2, [0, 1], 0)
    ensures var slots', cells' := SlotsAfterDelete(TwoSlots(), 2, 0, 0), CellsAfterDelete(TwoPairs(), 2, 0);
            && Readable(slots', cells') && Walk(NumberKeys(), slots', cells', 1, 0) == Found(1, 1, 0)
            && RawGet(NumberKeys(), slots', cells', 1) == Some(11)
            && slots'[2] == 0
            && var slots2, cells2 := slots'[2 := 2], cells'[1 := Pair(2, 12)];
               && Readable(slots2, cells2) && cells2[0] == Pair(1, 11)
               && RawGet(NumberKeys(), slots2, cells2, 1) == None && RawGet(NumberKeys(), slots2, cells2, 2) == Some(12)
  {
    TwoPairsTable();
    hide Table;
    var slots', cells' := SlotsAfterDelete(TwoSlots(), 2, 0, 0), CellsAfterDelete(TwoPairs(), 2, 0);
    assert slots' == [0, 2, 0, 0, 0, 0, 0, 0] && cells' == [Pair(1, 11), Pair(1, 11)];
    var slots2: seq<nat>, cells2: seq<Cell<nat, nat>> := [0, 2, 2, 0, 0, 0, 0, 0], [Pair(1, 11), Pair(2, 12)];
    assert slots'[2 := 2] == slots2 && cells'[1 := Pair(2, 12)] == cells2;
    assert Home(NumberKeys(), 1, 8) == 1 && Home(NumberKeys(), 2, 8) == 2;
    hide Home;
    assert Walk(NumberKeys(), slots2, cells2, 1, 2) == Absent(3, 2);
  }

  ghost function RunSlots(): seq<nat> { [1, 2, 3, 0, 0, 0, 0, 0] }

  ghost function RunPairs(): seq<Cell<nat, nat>> { [Pair(0, 10), Pair(8, 11), Pair(16, 12)] }

  lemma RunHomes()
    ensures Home(NumberKeys(), 0, 8) == Home(NumberKeys(), 8, 8) == Home(NumberKeys(), 16, 8) == 0
  {
  }

  lemma RunPairsTable()
    ensures Table(NumberKeys(), RunSlots(), RunPairs(), 3, [0, 1, 2])
  {
    RunHomes();
    hide Home, Table;
    FrontTable(NumberKeys(), RunSlots(), RunPairs(), 3, [0, 1, 2]);
  }

  /** Three pairs with one home: deleting the first makes the second unreachable. */
  lemma DeletingInsideAProbeRunLosesTheNext()
    ensures Table(NumberKeys(), RunSlots(), RunPairs(), 3, [0, 1, 2])
    ensures !SafeToDelete(NumberKeys(), RunSlots(), RunPairs(), 3, [0, 1, 2], 0)
    ensures var slots', cells' := SlotsAfterDelete(RunSlots(), 3, 0, 0), CellsAfterDelete(RunPairs(), 3, 0);
            Readable(slots', cells') && Walk(NumberKeys(), slots', cells', 8, 0) == Absent(0, 0)
  {
    RunHomes();
    RunPairsTable();
    hide Table, Home;
    var slots' := SlotsAfterDelete(RunSlots(), 3, 0, 0);
    assert slots' == [0, 1, 2, 0, 0, 0, 0, 0];
    assert Home(NumberKeys(), RunPairs()[1].key, |RunSlots()|) == 0;
    assert Steps(8, 0, 0) == 0 && Steps(8, 0, 1) == 1;
    var pos: seq<nat> := [0, 1, 2];
    assert Crosses(NumberKeys(), RunSlots(), RunPairs(), pos, 1, pos[0]);
    assert !SafeToDelete(NumberKeys(), RunSlots(), RunPairs(), 3, pos, 0);
  }

  // ----- deletion that is safe for lookups, and what the next insertion releases -----

  /**
   In every map: after a safe deletion the next new pair makes the count of references wrong by those of the last pair,
   unless that was the pair deleted.
   */
  method DeleteThenInsert<K(!new), V>(m: PwMap<K, V>, key: K, newKey: K, value: V)
    requires m.Valid() && MayDelete(m, key) && !Missing(m.ops, m.Contents(), key)
    requires Missing(m.ops, Remove(m.ops, m.Contents(), key), newKey)
    modifies m.Repr
    ensures m.Shape() && Table(m.ops, m.table.Slots(), m.cells[..], m.length, m.pos)
    ensures m.Contents() == Remove(m.ops, old(m.Contents()), key) + [(newKey, value)]
    ensures |old(m.Contents())| > 0
    ensures var last := old(m.Contents())[|old(m.Contents())| - 1];
            var over := if m.ops.eq(last.0, key) then multiset{} else PairRefs(m.held, last);
            m.dropped + Refs(m.held, m.Contents()) == m.taken + over && (m.Valid() <==> over == multiset{})
  {
    hide Remove, Put, Missing, Table, FirstAt, SafeToDelete, AllReadAs, IsTable, NoneCrosses, Balanced, DistinctKeys,
         Refs;
    LastHasKey(m, key);
    RemoveOne(m.ops, m.Contents(), key);
    var ok, k := m.Delete(key);
    AtEnd(m.ops, m.Contents(), newKey, value);
    var growth := m.Update(newKey, value);
  }

  ghost function ThreeSlots(): seq<nat> { [1, 2, 3, 0, 0, 0, 0, 0] }

  ghost function ThreePairs(): seq<Cell<nat, nat>> { [Pair(0, 10), Pair(1, 11), Pair(2, 12)] }

  /** Each key holds a reference to a block of its own. */
  ghost function CountedKeys(): Holding<nat, nat> {
    Holding((key: nat) => multiset{key}, (value: nat) => multiset{})
  }

  lemma ThreePairsTable()
    ensures Table(NumberKeys(), ThreeSlots(), ThreePairs(), 3, [0, 1, 2])
    ensures SafeToDelete(NumberKeys(), ThreeSlots(), ThreePairs(), 3, [0, 1, 2], 0)
  {
    hide Table;
    assert Home(NumberKeys(), 0, 8) == 0 && Home(NumberKeys(), 1, 8) == 1 && Home(NumberKeys(), 2, 8) == 2;
    hide Home;
    FrontTable(NumberKeys(), ThreeSlots(), ThreePairs(), 3, [0, 1, 2]);
  }

  /**
   Three pairs in eight slots: the first may be deleted and the others are read as before. The next new pair, of key 3,
   releases the block of key 2, which nothing else counts while its pair is in the order.
   */
  lemma InsertingAfterDeletionFreesTheLast()
    ensures SafeToDelete(NumberKeys(), ThreeSlots(), ThreePairs(), 3, [0, 1, 2], 0)
    ensures CellsAfterDelete(ThreePairs(), 3, 0) == [Pair(1, 11), Pair(2, 12), Pair(2, 12)]
    ensures var taken, dropped := multiset{0, 1, 2}, multiset{0};
            && Balanced(CountedKeys(), [(1, 11), (2, 12)], taken, dropped)
            && var taken', dropped' := taken + PairRefs(CountedKeys(), (3, 13)),
                                       dropped + CellRefs(CountedKeys(), Pair(2, 12));
               && taken'[2] == dropped'[2] && 2 in Refs(CountedKeys(), [(1, 11), (2, 12), (3, 13)])
               && !Balanced(CountedKeys(), [(1, 11), (2, 12), (3, 13)], taken', dropped')
    ensures Blocked(NumberKeys(), CountedKeys(), After(NumberKeys(), State([], []), ThreeThenDelete()), OpUpdate(3, 13))
  {
    ThreePairsTable();
    AfterThree();
    TwoPairsRefs();
    NextIsBlocked();
    hide Table, SafeToDelete, After, NumberKeys, Refs, Blocked;
    assert PairRefs(CountedKeys(), (3, 13)) == multiset{3} && CellRefs(CountedKeys(), Pair(2, 12)) == multiset{2};
    InsertExactly(CountedKeys(), [(1, 11), (2, 12)], multiset{0, 1, 2}, multiset{0}, Pair(2, 12), (3, 13));
    RefsOfMore(CountedKeys(), [(1, 11), (2, 12)], (3, 13));
    assert [(1, 11), (2, 12)] + [(3, 13)] == [(1, 11), (2, 12), (3, 13)];
  }

  lemma TwoPairsRefs()
    ensures Refs(CountedKeys(), [(1, 11), (2, 12)]) == multiset{1, 2}
  {
    RefsOfMore(CountedKeys(), [(1, 11)], (2, 12));
    RefsOfMore(CountedKeys(), [], (1, 11));
    assert [(1, 11)] + [(2, 12)] == [(1, 11), (2, 12)] && [] + [(1, 11)] == [(1, 11)];
  }

  ghost function ThreeThenDelete(): seq<Op<nat, nat>> {
    [OpUpdate(0, 10), OpUpdate(1, 11), OpUpdate(2, 12), OpDelete(0)]
  }

  lemma NextIsBlocked()
    ensures Blocked(NumberKeys(), CountedKeys(), State([(1, 11), (2, 12)], [Pair(2, 12)]), OpUpdate(3, 13))
  {
    assert CellRefs(CountedKeys(), Pair(2, 12))[2] == 1;
  }

  lemma AfterTwo()
    ensures Effect(NumberKeys(), State([], []), OpUpdate(0, 10)) == State([(0, 10)], [])
    ensures Effect(NumberKeys(), State([(0, 10)], []), OpUpdate(1, 11)) == State([(0, 10), (1, 11)], [])
  {
  }

  lemma AfterThree()
    ensures After(NumberKeys(), State([], []), ThreeThenDelete()) == State([(1, 11), (2, 12)], [Pair(2, 12)])
  {
    var ops := NumberKeys();
    var a, b, c, d: Op<nat, nat> := OpUpdate(0, 10), OpUpdate(1, 11), OpUpdate(2, 12), OpDelete(0);
    var three: Pairs<nat, nat> := [(0, 10), (1, 11), (2, 12)];
    AfterTwo();
    assert Effect(ops, State([(0, 10), (1, 11)], []), c) == State(three, []);
    assert ops.eq(three[0].0, 0) && Remove(ops, three, 0) == three[1..] == [(1, 11), (2, 12)];
    assert Effect(ops, State(three, []), d) == State([(1, 11), (2, 12)], [Pair(2, 12)]);
    hide Effect, NumberKeys;
    assert [a, b, c, d][1..] == [b, c, d] && [b, c, d][1..] == [c, d] && [c, d][1..] == [d] && [d][1..] == [];
  }
}
