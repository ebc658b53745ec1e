/**
 The abstract side of the hash map: a circular table of 1-based pair indexes searched by
 linear probing (src/pw_map.c). Nothing here changes state.
 */
module Probing {
  import opened Radix

  /** A key-value pair as kept in the pair array; cells never used hold the null value. */
  datatype Cell<K, V> = Empty | Pair(key: K, value: V)

  /** How the map sees its keys: a 64-bit hash and an equality. */
  datatype KeyOps<!K> = KeyOps(hash: K -> nat, eq: (K, K) -> bool)

  ghost predicate Lawful<K(!new)>(ops: KeyOps<K>) {
    && (forall a :: ops.eq(a, a))
    && (forall a, b :: ops.eq(a, b) ==> ops.eq(b, a))
    && (forall a, b, c :: ops.eq(a, b) && ops.eq(b, c) ==> ops.eq(a, c))
    && (forall a, b :: ops.eq(a, b) ==> ops.hash(a) == ops.hash(b))
  }

  /** Where probing ends: at a matching pair, at an unused slot, or never. */
  datatype Outcome = Found(index: nat, slot: nat, offset: nat) | Absent(slot: nat, offset: nat) | Endless

  function Home<K>(ops: KeyOps<K>, key: K, cap: nat): (h: nat)
    requires cap > 0
    ensures h < cap
  {
    Remainder(ops.hash(key), cap)
  }

  /** The slot d steps after h on the circle. */
  function Around(cap: nat, h: nat, d: nat): (s: nat)
    requires h < cap && d <= cap
    ensures s < cap
  {
    if h + d < cap then h + d else h + d - cap
  }

  lemma HomeIsRemainder<K>(ops: KeyOps<K>, key: K, cap: nat)
    requires cap > 0
    ensures Remainder(ops.hash(key), cap) == Home(ops, key, cap) == Around(cap, Home(ops, key, cap), 0)
  {
  }

  /** How many steps lead from h to s. */
  function Steps(cap: nat, h: nat, s: nat): (d: nat)
    requires h < cap && s < cap
    ensures d < cap && Around(cap, h, d) == s
  {
    if s >= h then s - h else s + cap - h
  }

  predicate Readable<K, V>(slots: seq<nat>, cells: seq<Cell<K, V>>) {
    forall s :: 0 <= s < |slots| ==> slots[s] <= |cells|
  }

  predicate Matches<K, V>(ops: KeyOps<K>, cell: Cell<K, V>, key: K) {
    cell.Pair? && ops.eq(cell.key, key)
  }

  /** The probe sequence from its d-th step; `Endless` when it comes full circle. */
  function Walk<K, V>(ops: KeyOps<K>, slots: seq<nat>, cells: seq<Cell<K, V>>, key: K, d: nat): (o: Outcome)
    requires |slots| > 0 && Readable(slots, cells)
    ensures o.Found? ==>
            o.slot < |slots| && slots[o.slot] == o.index + 1 && o.index < |cells| && Matches(ops, cells[o.index], key)
    ensures o.Absent? ==> o.slot < |slots| && slots[o.slot] == 0
    ensures !o.Endless? ==> d <= o.offset < |slots| && o.slot == Around(|slots|, Home(ops, key, |slots|), o.offset)
    decreases |slots| - d
  {
    if d >= |slots| then Endless
    else
      var s := Around(|slots|, Home(ops, key, |slots|), d);
      if slots[s] == 0 then Absent(s, d)
      else if Matches(ops, cells[slots[s] - 1], key) then Found(slots[s] - 1, s, d)
      else Walk(ops, slots, cells, key, d + 1)
  }

  /** One step of the probe. */
  lemma WalkStep<K, V>(ops: KeyOps<K>, slots: seq<nat>, cells: seq<Cell<K, V>>, key: K, d: nat, s: nat)
    requires |slots| > 0 && Readable(slots, cells) && !Walk(ops, slots, cells, key, d).Endless?
    requires d < |slots| ==> s == Around(|slots|, Home(ops, key, |slots|), d)
    ensures d < |slots| && s < |slots| && slots[s] <= |cells|
    ensures Walk(ops, slots, cells, key, d)
         == if slots[s] == 0 then Absent(s, d)
            else if Matches(ops, cells[slots[s] - 1], key) then Found(slots[s] - 1, s, d)
            else Walk(ops, slots, cells, key, d + 1)
  {
  }

  /** Occupied slots with other keys are passed over. */
  lemma {:induction false} WalkSkips<K, V>(ops: KeyOps<K>, slots: seq<nat>, cells: seq<Cell<K, V>>, key: K, d: nat,
                                           e: nat)
    requires |slots| > 0 && Readable(slots, cells) && d <= e < |slots|
    requires forall i :: d <= i < e ==>
                           var s := Around(|slots|, Home(ops, key, |slots|), i);
                           slots[s] != 0 && !Matches(ops, cells[slots[s] - 1], key)
    ensures Walk(ops, slots, cells, key, d) == Walk(ops, slots, cells, key, e)
    decreases e - d
  {
    if d < e {
      var s := Around(|slots|, Home(ops, key, |slots|), d);
      assert slots[s] != 0 && !Matches(ops, cells[slots[s] - 1], key);
      WalkSkips(ops, slots, cells, key, d + 1, e);
    }
  }

  // ----- the invariant -----

  ghost predicate DistinctKeys<K, V>(ops: KeyOps<K>, cells: seq<Cell<K, V>>, n: nat)
    requires n <= |cells|
  {
    && (forall i :: 0 <= i < n ==> cells[i].Pair?)
    && (forall i, j :: 0 <= i < n && 0 <= j < n && i != j ==> !ops.eq(cells[i].key, cells[j].key))
  }

  /** Pair i sits in slot pos[i]; every used slot belongs to exactly one pair. */
  ghost predicate Placed(slots: seq<nat>, n: nat, pos: seq<nat>) {
    && |pos| == n
    && (forall i :: 0 <= i < n ==> pos[i] < |slots| && slots[pos[i]] == i + 1)
    && (forall s :: 0 <= s < |slots| && slots[s] != 0 ==> slots[s] <= n && pos[slots[s] - 1] == s)
  }

  /** No unused slot between a pair's home and its slot. */
  ghost predicate NoGap(slots: seq<nat>, h: nat, s: nat)
    requires h < |slots| && s < |slots|
  {
    forall d :: 0 <= d < Steps(|slots|, h, s) ==> slots[Around(|slots|, h, d)] != 0
  }

  /** The probe has passed d used slots and has not gone past the unused slot z. */
  ghost predicate Passed(slots: seq<nat>, h: nat, d: nat, z: nat)
    requires h < |slots|
  {
    && z < |slots| && slots[z] == 0 && d <= Steps(|slots|, h, z)
    && forall i :: 0 <= i < d ==> slots[Around(|slots|, h, i)] != 0
  }

  lemma PassedStep(slots: seq<nat>, h: nat, d: nat, z: nat)
    requires h < |slots| && Passed(slots, h, d, z)
    ensures slots[Around(|slots|, h, d)] != 0 ==> Passed(slots, h, d + 1, z)
    ensures slots[Around(|slots|, h, d)] == 0 ==> NoGap(slots, h, Around(|slots|, h, d))
  {
  }

  ghost predicate Table<K, V>(ops: KeyOps<K>, slots: seq<nat>, cells: seq<Cell<K, V>>, n: nat, pos: seq<nat>): (b: bool)
    ensures b ==> n < |slots| && n <= |cells| && forall i :: 0 <= i < n ==> cells[i].Pair?
    ensures b ==> |pos| == n
  {
    && n < |slots| && n <= |cells|
    && DistinctKeys(ops, cells, n)
    && Placed(slots, n, pos)
    && forall i :: 0 <= i < n ==> NoGap(slots, Home(ops, cells[i].key, |slots|), pos[i])
  }

  // ----- counting -----

  /** An injection from [0, |s|) into [0, m) cannot have |s| above m. */
  lemma {:induction false} Pigeonhole(s: seq<nat>, m: nat)
    requires forall i :: 0 <= i < |s| ==> s[i] < m
    requires forall i, j :: 0 <= i < j < |s| ==> s[i] != s[j]
    ensures |s| <= m
    decreases m
  {
    if |s| != 0 {
      assert s[0] < m;
      if i :| 0 <= i < |s| && s[i] == m - 1 {
        Pigeonhole(s[..i] + s[i + 1..], m - 1);
      } else {
        Pigeonhole(s, m - 1);
      }
    }
  }

  /** A table with fewer pairs than slots has an unused slot. */
  lemma UnusedSlotExists(slots: seq<nat>, n: nat, pos: seq<nat>)
    requires Placed(slots, n, pos) && n < |slots|
    ensures exists z :: 0 <= z < |slots| && slots[z] == 0
  {
    if forall z :: 0 <= z < |slots| ==> slots[z] != 0 {
      Pigeonhole(seq(|slots|, s requires 0 <= s < |slots| => slots[s] - 1), n);
    }
  }

  lemma TableHasUnused<K, V>(ops: KeyOps<K>, slots: seq<nat>, cells: seq<Cell<K, V>>, n: nat, pos: seq<nat>)
    requires Table(ops, slots, cells, n, pos)
    ensures exists z :: 0 <= z < |slots| && slots[z] == 0
  {
    UnusedSlotExists(slots, n, pos);
  }

  /** A run of used slots is no longer than the number of pairs. */
  lemma RunBound(slots: seq<nat>, n: nat, pos: seq<nat>, h: nat, d: nat)
    requires Placed(slots, n, pos) && h < |slots| && d <= |slots|
    requires forall i :: 0 <= i < d ==> slots[Around(|slots|, h, i)] != 0
    ensures d <= n
  {
    var run := seq(d, i requires 0 <= i < d => slots[Around(|slots|, h, i)] - 1);
    forall i, j | 0 <= i < j < d
      ensures run[i] != run[j]
    {
      assert pos[run[i]] == Around(|slots|, h, i) && pos[run[j]] == Around(|slots|, h, j);
    }
    Pigeonhole(run, n);
  }

  // ----- lookup is right in every state satisfying the invariant -----

  /** Pair i is the one whose key equals `key`, and they share a home. */
  ghost predicate OnlyMatch<K, V>(ops: KeyOps<K>, cells: seq<Cell<K, V>>, n: nat, key: K, i: nat) {
    && i < n <= |cells|
    && (forall j :: 0 <= j < n ==> (Matches(ops, cells[j], key) <==> j == i))
    && cells[i].Pair? && ops.hash(cells[i].key) == ops.hash(key)
  }

  lemma MatchIsUnique<K(!new), V>(ops: KeyOps<K>, cells: seq<Cell<K, V>>, n: nat, key: K, i: nat)
    requires Lawful(ops) && n <= |cells| && DistinctKeys(ops, cells, n)
    requires i < n && ops.eq(cells[i].key, key)
    ensures OnlyMatch(ops, cells, n, key, i)
  {
    forall j | 0 <= j < n && j != i
      ensures !Matches(ops, cells[j], key)
    {
      assert ops.eq(key, cells[i].key);
    }
  }

  /** A key equal to pair i's leads the probe to exactly that pair. */
  lemma WalkFinds<K, V>(ops: KeyOps<K>, slots: seq<nat>, cells: seq<Cell<K, V>>, n: nat, pos: seq<nat>, key: K, i: nat)
    requires Table(ops, slots, cells, n, pos) && OnlyMatch(ops, cells, n, key, i)
    ensures Readable(slots, cells)
    ensures Walk(ops, slots, cells, key, 0) == Found(i, pos[i], Steps(|slots|, Home(ops, key, |slots|), pos[i]))
  {
    var cap := |slots|;
    var h := Home(ops, key, cap);
    assert h == Home(ops, cells[i].key, cap);
    var e := Steps(cap, h, pos[i]);
    forall d | 0 <= d < e
      ensures var s := Around(cap, h, d); slots[s] != 0 && !Matches(ops, cells[slots[s] - 1], key)
    {
      var s := Around(cap, h, d);
      assert NoGap(slots, h, pos[i]) && slots[s] != 0;
      assert pos[slots[s] - 1] == s;
    }
    WalkSkips(ops, slots, cells, key, 0, e);
  }

  /** A key equal to no pair's leads the probe to an unused slot. */
  lemma WalkMisses<K(!new), V>(ops: KeyOps<K>, slots: seq<nat>, cells: seq<Cell<K, V>>, n: nat, pos: seq<nat>, key: K)
    requires Lawful(ops) && Table(ops, slots, cells, n, pos)
    requires forall i :: 0 <= i < n ==> !ops.eq(cells[i].key, key)
    ensures Readable(slots, cells)
    ensures Walk(ops, slots, cells, key, 0).Absent?
    ensures NoGap(slots, Home(ops, key, |slots|), Walk(ops, slots, cells, key, 0).slot)
    ensures Walk(ops, slots, cells, key, 0).offset <= n
  {
    UnusedSlotExists(slots, n, pos);
    var z :| 0 <= z < |slots| && slots[z] == 0;
    var h := Home(ops, key, |slots|);
    var e := FirstUnused(slots, h, z);
    WalkSkips(ops, slots, cells, key, 0, e);
    RunBound(slots, n, pos, h, e);
  }

  lemma FirstUnused(slots: seq<nat>, h: nat, z: nat) returns (e: nat)
    requires h < |slots| && z < |slots| && slots[z] == 0
    ensures e < |slots| && slots[Around(|slots|, h, e)] == 0
    ensures forall d :: 0 <= d < e ==> slots[Around(|slots|, h, d)] != 0
  {
    e := 0;
    while slots[Around(|slots|, h, e)] != 0
      invariant e <= Steps(|slots|, h, z)
      invariant forall d :: 0 <= d < e ==> slots[Around(|slots|, h, d)] != 0
      decreases |slots| - e
    {
      e := e + 1;
    }
  }

  // ----- insertion -----

  /** Filling the first unused slot on a new key's probe sequence keeps the invariant. */
  lemma PlaceKeepsTable<K, V>(ops: KeyOps<K>, slots: seq<nat>, cells: seq<Cell<K, V>>, n: nat, pos: seq<nat>,
                              cells': seq<Cell<K, V>>, s: nat)
    requires Table(ops, slots, cells, n, pos) && n + 1 < |slots| && n < |cells'|
    requires forall i :: 0 <= i < n ==> cells'[i] == cells[i]
    requires DistinctKeys(ops, cells', n + 1)
    requires s < |slots| && slots[s] == 0
    requires NoGap(slots, Home(ops, cells'[n].key, |slots|), s)
    ensures Table(ops, slots[s := n + 1], cells', n + 1, pos + [s])
  {
    var slots', pos' := slots[s := n + 1], pos + [s];
    forall i | 0 <= i < n + 1
      ensures NoGap(slots', Home(ops, cells'[i].key, |slots'|), pos'[i])
    {
      assert NoGap(slots, Home(ops, cells'[i].key, |slots|), pos'[i]);
    }
  }

  /** An empty table satisfies the invariant. */
  lemma EmptyTable<K, V>(ops: KeyOps<K>, slots: seq<nat>, cells: seq<Cell<K, V>>)
    requires |slots| > 0 && forall s :: 0 <= s < |slots| ==> slots[s] == 0
    ensures Table(ops, slots, cells, 0, [])
  {
  }
}
