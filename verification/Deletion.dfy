/**
 Lookups in a slot table, and what deletion leaves of it (src/pw_map.c:161-210, 593-657). Lookups are taken as the code
 makes them: they follow the slots and the cells and do not look at the number of pairs.
 */
module Deletions {
  import opened Probing
  import opened AssocList
  import opened References

  // ----- what lookups read -----

  lemma TableReadable<K(!new), V>(ops: KeyOps<K>, slots: seq<nat>, cells: seq<Cell<K, V>>, n: nat, pos: seq<nat>)
    requires Table(ops, slots, cells, n, pos)
    ensures Readable(slots, cells) && n <= |cells|
    ensures |Live(cells, n)| == n && forall i :: 0 <= i < n ==>
            cells[i].Pair? && Live(cells, n)[i] == (cells[i].key, cells[i].value)
  {
  }

  /** Where probing for a key ends in a table. */
  lemma WalkAnswers<K(!new), V>(ops: KeyOps<K>, slots: seq<nat>, cells: seq<Cell<K, V>>, n: nat, pos: seq<nat>, key: K)
    requires Lawful(ops) && Table(ops, slots, cells, n, pos)
    ensures Readable(slots, cells) && |Live(cells, n)| == n && |pos| == n
    ensures var o := Walk(ops, slots, cells, key, 0);
            && (o.Found? ==> o.index < n && FirstAt(ops, Live(cells, n), key, o.index) && o.slot == pos[o.index])
            && (o.Absent? <==> Missing(ops, Live(cells, n), key))
            && !o.Endless? && o.offset <= n
  {
    TableReadable(ops, slots, cells, n, pos);
    hide Live, NoGap, Placed;
    if i :| 0 <= i < n && ops.eq(cells[i].key, key) {
      hide Table;
      MatchIsUnique(ops, cells, n, key, i);
      WalkFinds(ops, slots, cells, n, pos, key, i);
      var h := Home(ops, key, |slots|);
      RunBound(slots, n, pos, h, Steps(|slots|, h, pos[i]));
    } else {
      WalkMisses(ops, slots, cells, n, pos, key);
    }
  }

  /** The value read for a key; whether there is one is what has-key tells. */
  function RawGet<K, V>(ops: KeyOps<K>, slots: seq<nat>, cells: seq<Cell<K, V>>, key: K): Option<V>
    requires |slots| > 0 && Readable(slots, cells)
  {
    match Walk(ops, slots, cells, key, 0)
    case Found(i, _, _) => Some(cells[i].value)
    case _ => None
  }

  /** The lookup of a key ends, and reads what a list keeps with it. */
  ghost predicate ReadsAs<K, V>(ops: KeyOps<K>, slots: seq<nat>, cells: seq<Cell<K, V>>, ps: Pairs<K, V>, key: K) {
    && |slots| > 0 && Readable(slots, cells)
    && !Walk(ops, slots, cells, key, 0).Endless?
    && RawGet(ops, slots, cells, key) == Get(ops, ps, key)
  }

  ghost predicate AllReadAs<K(!new), V>(ops: KeyOps<K>, slots: seq<nat>, cells: seq<Cell<K, V>>, ps: Pairs<K, V>) {
    forall key :: ReadsAs(ops, slots, cells, ps, key)
  }

  /** A table that satisfies the invariant reads as the list of its pairs. */
  lemma TableReads<K(!new), V>(ops: KeyOps<K>, slots: seq<nat>, cells: seq<Cell<K, V>>, n: nat, pos: seq<nat>, key: K)
    requires Lawful(ops) && Table(ops, slots, cells, n, pos)
    ensures ReadsAs(ops, slots, cells, Live(cells, n), key)
  {
    TableReadable(ops, slots, cells, n, pos);
    WalkAnswers(ops, slots, cells, n, pos, key);
    hide Table, Walk, Lawful, Live;
    var o := Walk(ops, slots, cells, key, 0);
    if o.Found? {
      AtIndex(ops, Live(cells, n), key, cells[o.index].value, o.index);
    } else {
      GetMissing(ops, Live(cells, n), key);
    }
  }

  // ----- deletion -----

  /** The table after the slot of pair k is cleared and, when the code gets that far, later indexes drop by one. */
  function SlotsAfterDelete(slots: seq<nat>, n: nat, s: nat, k: nat): (r: seq<nat>)
    requires s < |slots| && k < n
    ensures |r| == |slots|
  {
    seq(|slots|, i requires 0 <= i < |slots| =>
      if i == s then 0
      else if k + 1 < n - 1 && slots[i] >= k + 2 then slots[i] - 1
      else slots[i])
  }

  /** The pair array after the tail has moved down one pair; what was the last pair stays behind as a stale copy. */
  function CellsAfterDelete<K, V>(cells: seq<Cell<K, V>>, n: nat, k: nat): (r: seq<Cell<K, V>>)
    requires k < n <= |cells|
    ensures |r| == |cells|
  {
    if k == n - 1 then cells[k := Empty] else cells[..k] + cells[k + 1..n] + cells[n - 1..]
  }

  /** Slot s lies on pair j's probe run, strictly before its own slot. */
  predicate Crosses<K, V>(ops: KeyOps<K>, slots: seq<nat>, cells: seq<Cell<K, V>>, pos: seq<nat>, j: nat, s: nat)
    requires j < |pos| && j < |cells| && cells[j].Pair? && s < |slots| && pos[j] < |slots|
  {
    var h := Home(ops, cells[j].key, |slots|);
    Steps(|slots|, h, s) < Steps(|slots|, h, pos[j])
  }

  /** No other pair's probe run crosses the slot of pair k. */
  ghost predicate NoneCrosses<K, V>(ops: KeyOps<K>, slots: seq<nat>, cells: seq<Cell<K, V>>, n: nat, pos: seq<nat>,
                                    k: nat) {
    && Table(ops, slots, cells, n, pos) && k < n
    && forall j :: 0 <= j < n && j != k ==> !Crosses(ops, slots, cells, pos, j, pos[k])
  }

  /** The exact condition under which deleting pair k leaves a map. */
  ghost predicate SafeToDelete<K, V>(ops: KeyOps<K>, slots: seq<nat>, cells: seq<Cell<K, V>>, n: nat, pos: seq<nat>,
                                     k: nat) {
    NoneCrosses(ops, slots, cells, n, pos, k) && k != n - 2
  }

  /** What the code leaves behind when it deletes pair k, safe or not. */
  ghost predicate DeletedFrom<K, V>(slots: seq<nat>, cells: seq<Cell<K, V>>, n: nat, pos: seq<nat>, k: nat,
                                    slots': seq<nat>, cells': seq<Cell<K, V>>, n': nat) {
    && k < n <= |cells| && |pos| == n && pos[k] < |slots|
    && slots' == SlotsAfterDelete(slots, n, pos[k], k)
    && cells' == CellsAfterDelete(cells, n, k)
    && n' == n - 1
  }

  /** Where the pair that ends up at index i was before pair k went. */
  function Before(i: nat, k: nat): nat {
    if i < k then i else i + 1
  }

  lemma CellsMoveDown<K, V>(cells: seq<Cell<K, V>>, n: nat, k: nat)
    requires k < n <= |cells|
    ensures forall i :: 0 <= i < n - 1 ==> CellsAfterDelete(cells, n, k)[i] == cells[Before(i, k)]
    ensures k < n - 1 ==> CellsAfterDelete(cells, n, k)[n - 1] == cells[n - 1]
  {
  }

  lemma LiveRemove<K, V>(cells: seq<Cell<K, V>>, n: nat, k: nat)
    requires k < n <= |cells| && forall i :: 0 <= i < n ==> cells[i].Pair?
    ensures forall i :: 0 <= i < n - 1 ==> CellsAfterDelete(cells, n, k)[i].Pair?
    ensures Live(CellsAfterDelete(cells, n, k), n - 1) == Live(cells, n)[..k] + Live(cells, n)[k + 1..]
  {
    CellsMoveDown(cells, n, k);
  }

  /** Renumbering keeps the one-to-one correspondence of slots and pairs. */
  lemma DeleteKeepsPlaced(slots: seq<nat>, n: nat, pos: seq<nat>, k: nat)
    requires Placed(slots, n, pos) && k < n && k != n - 2
    ensures Placed(SlotsAfterDelete(slots, n, pos[k], k), n - 1, pos[..k] + pos[k + 1..])
  {
    var slots', pos' := SlotsAfterDelete(slots, n, pos[k], k), pos[..k] + pos[k + 1..];
    forall i | 0 <= i < n - 1
      ensures pos'[i] == pos[Before(i, k)] && pos'[i] < |slots'| && slots'[pos'[i]] == i + 1
    {
      assert slots[pos[Before(i, k)]] == Before(i, k) + 1 && slots[pos[k]] == k + 1;
    }
    forall s | 0 <= s < |slots'| && slots'[s] != 0
      ensures slots'[s] <= n - 1 && pos'[slots'[s] - 1] == s
    {
      SlotMeans(slots, n, pos, k, s);
    }
    hide SlotsAfterDelete;
  }

  /** A slot in use after the deletion leads to the pair it led to. */
  lemma SlotMeans(slots: seq<nat>, n: nat, pos: seq<nat>, k: nat, s: nat)
    requires Placed(slots, n, pos) && k < n && k != n - 2 && s < |slots|
             && SlotsAfterDelete(slots, n, pos[k], k)[s] != 0
    ensures var i := SlotsAfterDelete(slots, n, pos[k], k)[s] - 1;
            i < n - 1 && pos[Before(i, k)] == s
  {
    assert slots[s] != 0;
    assert slots[s] <= n && pos[slots[s] - 1] == s;
    assert slots[pos[k]] == k + 1;
  }

  lemma DeleteKeepsNoGap(slots: seq<nat>, n: nat, pos: seq<nat>, k: nat, h: nat, s: nat)
    requires Placed(slots, n, pos) && k < n && h < |slots| && s < |slots|
    requires NoGap(slots, h, s) && Steps(|slots|, h, pos[k]) >= Steps(|slots|, h, s)
    ensures NoGap(SlotsAfterDelete(slots, n, pos[k], k), h, s)
  {
    var slots' := SlotsAfterDelete(slots, n, pos[k], k);
    forall d | 0 <= d < Steps(|slots|, h, s)
      ensures slots'[Around(|slots'|, h, d)] != 0
    {
      assert slots[Around(|slots|, h, d)] != 0 && Around(|slots|, h, d) != pos[k];
    }
  }

  /** Deleting safely re-establishes the whole invariant for the remaining pairs. */
  lemma SafeDeleteKeepsTable<K, V>(ops: KeyOps<K>, slots: seq<nat>, cells: seq<Cell<K, V>>, n: nat, pos: seq<nat>,
                                   k: nat)
    requires Table(ops, slots, cells, n, pos) && k < n
    requires SafeToDelete(ops, slots, cells, n, pos, k)
    ensures Table(ops, SlotsAfterDelete(slots, n, pos[k], k), CellsAfterDelete(cells, n, k), n - 1,
            pos[..k] + pos[k + 1..])
  {
    var slots', cells', pos' := SlotsAfterDelete(slots, n, pos[k], k), CellsAfterDelete(cells, n, k),
        pos[..k] + pos[k + 1..];
    CellsMoveDown(cells, n, k);
    DeleteKeepsPlaced(slots, n, pos, k);
    forall i | 0 <= i < n - 1
      ensures NoGap(slots', Home(ops, cells'[i].key, |slots'|), pos'[i])
    {
      var j := Before(i, k);
      assert cells'[i] == cells[j] && pos'[i] == pos[j];
      assert !Crosses(ops, slots, cells, pos, j, pos[k]);
      DeleteKeepsNoGap(slots, n, pos, k, Home(ops, cells[j].key, |slots|), pos[j]);
    }
  }

  lemma PlacedOnce<K, V>(ops: KeyOps<K>, slots: seq<nat>, cells: seq<Cell<K, V>>, n: nat, pos: seq<nat>, i: nat, s: nat)
    requires Table(ops, slots, cells, n, pos) && i < n && s < |slots|
    ensures slots[s] == i + 1 ==> s == pos[i]
  {
  }

  // ----- what lookups read after a deletion -----

  /** Two tables that lead to the same pairs from every slot but z, which the second one leaves unused. */
  ghost predicate SameButCleared<K, V>(slots: seq<nat>, cells: seq<Cell<K, V>>, slots': seq<nat>,
                                       cells': seq<Cell<K, V>>, z: nat) {
    && z < |slots| == |slots'| && Readable(slots, cells) && Readable(slots', cells') && slots'[z] == 0
    && forall s :: 0 <= s < |slots| && s != z ==> LeadsSame(slots, cells, slots', cells', s)
  }

  ghost predicate LeadsSame<K, V>(slots: seq<nat>, cells: seq<Cell<K, V>>, slots': seq<nat>, cells': seq<Cell<K, V>>,
                                  s: nat)
    requires s < |slots| == |slots'| && Readable(slots, cells) && Readable(slots', cells')
  {
    && (slots[s] == 0 <==> slots'[s] == 0)
    && (slots[s] != 0 ==> cells'[slots'[s] - 1] == cells[slots[s] - 1])
  }

  /** Deletion of any pair leaves such a table; the last but one pair's follower is reached through its stale copy. */
  lemma DeletedReadsSame<K, V>(ops: KeyOps<K>, slots: seq<nat>, cells: seq<Cell<K, V>>, n: nat, pos: seq<nat>, k: nat,
                               slots': seq<nat>, cells': seq<Cell<K, V>>)
    requires Table(ops, slots, cells, n, pos) && k < n && DeletedFrom(slots, cells, n, pos, k, slots', cells', n - 1)
    ensures SameButCleared(slots, cells, slots', cells', pos[k])
  {
    CellsMoveDown(cells, n, k);
    forall s | 0 <= s < |slots|
      ensures slots'[s] <= |cells'|
      ensures s != pos[k] ==>
              slots[s] != k + 1 && (slots[s] != 0 ==> slots'[s] != 0 && cells'[slots'[s] - 1] == cells[slots[s] - 1])
    {
      PlacedOnce(ops, slots, cells, n, pos, k, s);
      assert slots[s] != 0 ==> slots[s] <= n;
    }
  }

  /** How the walk goes that finds a slot cleared on its way, or does not come to it. */
  ghost predicate GoesOn<K, V>(cells: seq<Cell<K, V>>, cells': seq<Cell<K, V>>, o: Outcome, o': Outcome) {
    match o
    case Found(i, s, d) => o'.Found? && o'.slot == s && o'.offset == d && i < |cells| && o'.index < |cells'|
        && cells'[o'.index] == cells[i]
    case _ => o' == o
  }

  lemma {:induction false} WalkCleared<K, V>(ops: KeyOps<K>, slots: seq<nat>, cells: seq<Cell<K, V>>,
                                             slots': seq<nat>, cells': seq<Cell<K, V>>, z: nat, key: K, d: nat)
    requires |slots| > 0 && SameButCleared(slots, cells, slots', cells', z)
    ensures var e := Steps(|slots|, Home(ops, key, |slots|), z);
            var o, o' := Walk(ops, slots, cells, key, d), Walk(ops, slots', cells', key, d);
            if d <= e && (o.Endless? || o.offset >= e) then o' == Absent(z, e) else GoesOn(cells, cells', o, o')
    decreases |slots| - d
  {
    hide Home;
    var h := Home(ops, key, |slots|);
    if d < |slots| {
      var s := Around(|slots|, h, d);
      assert s == z <==> d == Steps(|slots|, h, z);
      if s != z {
        assert LeadsSame(slots, cells, slots', cells', s);
        WalkCleared(ops, slots, cells, slots', cells', z, key, d + 1);
      }
    }
  }

  /** The list without pair k, for a key that only pair i has. */
  lemma GetWithout<K, V>(ops: KeyOps<K>, cells: seq<Cell<K, V>>, n: nat, k: nat, key: K, i: nat)
    requires n <= |cells| && k < n && OnlyMatch(ops, cells, n, key, i) && DistinctKeys(ops, cells, n)
    ensures var ps := Live(cells, n)[..k] + Live(cells, n)[k + 1..];
            Get(ops, ps, key) == if i == k then None else Some(cells[i].value)
  {
    var ps := Live(cells, n)[..k] + Live(cells, n)[k + 1..];
    forall j | 0 <= j < |ps|
      ensures ps[j] == (cells[Before(j, k)].key, cells[Before(j, k)].value)
              && (ops.eq(ps[j].0, key) <==> Before(j, k) == i)
    {
      assert Matches(ops, cells[Before(j, k)], key) <==> Before(j, k) == i;
    }
    if i == k {
      GetMissing(ops, ps, key);
    } else {
      AtIndex(ops, ps, key, cells[i].value, if i < k then i else i - 1);
    }
  }

  lemma RemoveIs<K(!new), V>(ops: KeyOps<K>, cells: seq<Cell<K, V>>, n: nat, k: nat)
    requires Lawful(ops) && n <= |cells| && k < n && DistinctKeys(ops, cells, n)
    ensures Remove(ops, Live(cells, n), cells[k].key) == Live(cells, n)[..k] + Live(cells, n)[k + 1..]
  {
    AtIndex(ops, Live(cells, n), cells[k].key, cells[k].value, k);
  }

  /** The key is that of another pair than k, and the probe run to it crosses k's slot. */
  ghost predicate KeyCrosses<K, V>(ops: KeyOps<K>, slots: seq<nat>, cells: seq<Cell<K, V>>, n: nat, pos: seq<nat>,
                                   k: nat, key: K)
    requires Table(ops, slots, cells, n, pos) && k < n
  {
    exists j :: 0 <= j < n && j != k && ops.eq(cells[j].key, key) && Crosses(ops, slots, cells, pos, j, pos[k])
  }

  /** A key that is there: its walk reaches its pair before or after it comes to the cleared slot. */
  lemma ReadPresent<K(!new), V>(ops: KeyOps<K>, slots: seq<nat>, cells: seq<Cell<K, V>>, n: nat, pos: seq<nat>, k: nat,
                                slots': seq<nat>, cells': seq<Cell<K, V>>, key: K, i: nat)
    requires Table(ops, slots, cells, n, pos) && k < n && OnlyMatch(ops, cells, n, key, i)
    requires SameButCleared(slots, cells, slots', cells', pos[k])
    ensures var h := Home(ops, key, |slots|);
            && RawGet(ops, slots', cells', key) == (if Steps(|slots|, h, pos[k]) <= Steps(|slots|, h, pos[i]) then None
                else Some(cells[i].value))
            && !Walk(ops, slots', cells', key, 0).Endless?
            && (i == k <==> Steps(|slots|, h, pos[k]) == Steps(|slots|, h, pos[i]))
            && (i != k ==> (Crosses(ops, slots, cells, pos, i, pos[k]) <==>
                Steps(|slots|, h, pos[k]) < Steps(|slots|, h, pos[i])))
  {
    WalkFinds(ops, slots, cells, n, pos, key, i);
    WalkCleared(ops, slots, cells, slots', cells', pos[k], key, 0);
    PlacedOnce(ops, slots, cells, n, pos, i, pos[k]);
    assert Home(ops, cells[i].key, |slots|) == Home(ops, key, |slots|);
    assert slots[pos[i]] == i + 1 && slots[pos[k]] == k + 1;
    hide Walk, Home, Table, SameButCleared;
  }

  /**
   After a deletion a key is read right exactly when it is not that of a pair whose probe run crosses the cleared slot.
   */
  lemma ReadExactly<K(!new), V>(ops: KeyOps<K>, slots: seq<nat>, cells: seq<Cell<K, V>>, n: nat, pos: seq<nat>, k: nat,
                                slots': seq<nat>, cells': seq<Cell<K, V>>, key: K)
    requires Lawful(ops) && Table(ops, slots, cells, n, pos) && k < n
    requires DeletedFrom(slots, cells, n, pos, k, slots', cells', n - 1)
    ensures ReadsAs(ops, slots', cells', Remove(ops, Live(cells, n), cells[k].key), key) <==>
            !KeyCrosses(ops, slots, cells, n, pos, k, key)
  {
    DeletedReadsSame(ops, slots, cells, n, pos, k, slots', cells');
    RemoveIs(ops, cells, n, k);
    if i :| 0 <= i < n && ops.eq(cells[i].key, key) {
      MatchIsUnique(ops, cells, n, key, i);
      GetWithout(ops, cells, n, k, key, i);
      ReadPresent(ops, slots, cells, n, pos, k, slots', cells', key, i);
      assert forall j :: 0 <= j < n && ops.eq(cells[j].key, key) ==> Matches(ops, cells[j], key) && j == i;
      hide Table, Lawful, Walk, Crosses, DeletedFrom, Live, Remove, Steps, Home, RawGet, Readable;
      SameParts(slots, cells, slots', cells', pos[k]);
    } else {
      WalkMisses(ops, slots, cells, n, pos, key);
      WalkCleared(ops, slots, cells, slots', cells', pos[k], key, 0);
      MissingWithout(ops, cells, n, k, key);
      hide Table, Lawful, Walk, Crosses, DeletedFrom, Live, Remove, Steps, Home;
    }
  }

  lemma SameParts<K, V>(slots: seq<nat>, cells: seq<Cell<K, V>>, slots': seq<nat>, cells': seq<Cell<K, V>>, z: nat)
    requires SameButCleared(slots, cells, slots', cells', z)
    ensures |slots'| == |slots| > 0 && Readable(slots', cells')
  {
  }

  lemma MissingWithout<K, V>(ops: KeyOps<K>, cells: seq<Cell<K, V>>, n: nat, k: nat, key: K)
    requires k < n <= |cells| && forall i :: 0 <= i < n ==> cells[i].Pair? && !ops.eq(cells[i].key, key)
    ensures Get(ops, Live(cells, n)[..k] + Live(cells, n)[k + 1..], key) == None
  {
    GetMissing(ops, Live(cells, n)[..k] + Live(cells, n)[k + 1..], key);
  }

  /**
   All keys are read as the list without the pair says if and only if no other pair's probe run crosses the cleared
   slot. This includes the last but one pair, whose follower is read from the cell it was moved from.
   */
  lemma DeleteReadsExactly<K(!new), V>(ops: KeyOps<K>, slots: seq<nat>, cells: seq<Cell<K, V>>, n: nat, pos: seq<nat>,
                                       k: nat, slots': seq<nat>, cells': seq<Cell<K, V>>)
    requires Lawful(ops) && Table(ops, slots, cells, n, pos) && k < n
    requires DeletedFrom(slots, cells, n, pos, k, slots', cells', n - 1)
    ensures AllReadAs(ops, slots', cells', Remove(ops, Live(cells, n), cells[k].key)) <==>
            NoneCrosses(ops, slots, cells, n, pos, k)
  {
    var ps := Remove(ops, Live(cells, n), cells[k].key);
    forall key: K
      ensures ReadsAs(ops, slots', cells', ps, key) <==> !KeyCrosses(ops, slots, cells, n, pos, k, key)
    {
      ReadExactly(ops, slots, cells, n, pos, k, slots', cells', key);
    }
    assert pos[k] < |slots| && forall j :: 0 <= j < n ==> pos[j] < |slots|;
    hide Table, DeletedFrom, ReadsAs, Live, Crosses;
    forall j | 0 <= j < n && j != k && Crosses(ops, slots, cells, pos, j, pos[k])
      ensures !ReadsAs(ops, slots', cells', ps, cells[j].key)
    {
      assert KeyCrosses(ops, slots, cells, n, pos, k, cells[j].key);
    }
  }

  /** There are places that make a table of the slots and the first n cells. */
  ghost predicate IsTable<K, V>(ops: KeyOps<K>, slots: seq<nat>, cells: seq<Cell<K, V>>, n: nat) {
    exists pos :: Table(ops, slots, cells, n, pos)
  }

  /** The invariant holds again if and only if none crosses and the pair was not last but one. */
  lemma DeleteRestoresExactly<K(!new), V>(ops: KeyOps<K>, slots: seq<nat>, cells: seq<Cell<K, V>>, n: nat,
                                          pos: seq<nat>, k: nat, slots': seq<nat>, cells': seq<Cell<K, V>>)
    requires Lawful(ops) && Table(ops, slots, cells, n, pos) && k < n
    requires DeletedFrom(slots, cells, n, pos, k, slots', cells', n - 1)
    ensures IsTable(ops, slots', cells', n - 1) <==> SafeToDelete(ops, slots, cells, n, pos, k)
  {
    if SafeToDelete(ops, slots, cells, n, pos, k) {
      SafeDeleteKeepsTable(ops, slots, cells, n, pos, k);
    }
    var m := n - 1;
    if pos' :| Table(ops, slots', cells', m, pos') {
      TooHighIndex(ops, slots, cells, n, pos, k, slots', cells', pos');
      LiveRemove(cells, n, k);
      RemoveIs(ops, cells, n, k);
      hide Table, DeletedFrom, Live, SlotsAfterDelete, CellsAfterDelete, ReadsAs;
      forall key: K
        ensures ReadsAs(ops, slots', cells', Remove(ops, Live(cells, n), cells[k].key), key)
      {
        TableReads(ops, slots', cells', n - 1, pos', key);
      }
      DeleteReadsExactly(ops, slots, cells, n, pos, k, slots', cells');
    }
  }

  lemma LastIndexStays(slots: seq<nat>, n: nat, pos: seq<nat>)
    requires Placed(slots, n, pos) && n > 0
    ensures n >= 2 ==> SlotsAfterDelete(slots, n, pos[n - 2], n - 2)[pos[n - 1]] == n
  {
    assert n >= 2 ==> slots[pos[n - 2]] == n - 1;
  }

  /** The last but one pair's deletion leaves an index of the old length. */
  lemma TooHighIndex<K, V>(ops: KeyOps<K>, slots: seq<nat>, cells: seq<Cell<K, V>>, n: nat, pos: seq<nat>, k: nat,
                           slots': seq<nat>, cells': seq<Cell<K, V>>, pos': seq<nat>)
    requires Table(ops, slots, cells, n, pos) && k < n
    requires DeletedFrom(slots, cells, n, pos, k, slots', cells', n - 1) && Table(ops, slots', cells', n - 1, pos')
    ensures k != n - 2
  {
    LastIndexStays(slots, n, pos);
  }

  // ----- what a deletion leaves to be released -----

  /** What a deletion leaves in the cell behind the pairs: nothing if and only if it was the last pair. */
  lemma LeftByDeletion<K, V>(h: Holding<K, V>, cells: seq<Cell<K, V>>, n: nat, k: nat)
    requires k < n <= |cells| && forall i :: 0 <= i < n ==> cells[i].Pair?
    ensures CellsAfterDelete(cells, n, k)[n - 1] == if k == n - 1 then Empty else cells[n - 1]
    ensures CellsAfterDelete(cells, n, k)[n - 1] == Empty <==> k == n - 1
  {
  }

  /**
   After any deletion but that of the last pair, safe or not, the next new pair releases the last pair's references, and
   the count stays right if and only if that pair has none.
   */
  lemma InsertAfterDelete<K, V>(h: Holding<K, V>, cells: seq<Cell<K, V>>, n: nat, k: nat, taken: multiset<nat>,
                                dropped: multiset<nat>, pair: (K, V))
    requires k < n - 1 && n <= |cells| && forall i :: 0 <= i < n ==> cells[i].Pair?
    requires Balanced(h, Live(cells, n), taken, dropped)
    ensures var cells', ps := CellsAfterDelete(cells, n, k), Live(cells, n);
            var rest := ps[..k] + ps[k + 1..];
            var dropped', over := dropped + PairRefs(h, ps[k]), PairRefs(h, ps[n - 1]);
            && (forall i :: 0 <= i < n - 1 ==> cells'[i].Pair?) && Live(cells', n - 1) == rest
            && Balanced(h, rest, taken, dropped') && CellRefs(h, cells'[n - 1]) == over <= Refs(h, rest)
            && dropped' + over + Refs(h, rest + [pair]) == taken + PairRefs(h, pair) + over
            && (Balanced(h, rest + [pair], taken + PairRefs(h, pair), dropped' + over) <==> over == multiset{})
  {
    var cells', ps := CellsAfterDelete(cells, n, k), Live(cells, n);
    var rest := ps[..k] + ps[k + 1..];
    LiveRemove(cells, n, k);
    LeftByDeletion(h, cells, n, k);
    RefsOfRest(h, ps, k);
    RefsOfOne(h, rest, n - 2);
    hide Refs, CellsAfterDelete, Live;
    InsertExactly(h, rest, taken, dropped + PairRefs(h, ps[k]), cells'[n - 1], pair);
  }

  lemma StillDistinct<K, V>(ops: KeyOps<K>, cells: seq<Cell<K, V>>, n: nat, k: nat)
    requires k < n <= |cells| && DistinctKeys(ops, cells, n)
    ensures DistinctKeys(ops, CellsAfterDelete(cells, n, k), n - 1)
  {
    CellsMoveDown(cells, n, k);
    var cells' := CellsAfterDelete(cells, n, k);
    forall i, j | 0 <= i < n - 1 && 0 <= j < n - 1 && i != j
      ensures !ops.eq(cells'[i].key, cells'[j].key)
    {
      assert !ops.eq(cells[Before(i, k)].key, cells[Before(j, k)].key);
    }
  }

  // ----- the damage done by deleting the last but one pair -----

  /** Cells that agree in what they match are walked alike. */
  lemma {:induction false} WalkSameMatches<K, V>(ops: KeyOps<K>, slots: seq<nat>, cells: seq<Cell<K, V>>,
                                                 cells': seq<Cell<K, V>>, key: K, d: nat)
    requires |slots| > 0 && |cells'| == |cells| && Readable(slots, cells)
    requires forall i :: 0 <= i < |cells| ==> (Matches(ops, cells'[i], key) <==> Matches(ops, cells[i], key))
    ensures Walk(ops, slots, cells', key, d) == Walk(ops, slots, cells, key, d)
    decreases |slots| - d
  {
    if d < |slots| {
      WalkSameMatches(ops, slots, cells, cells', key, d + 1);
    }
  }

  lemma StaleFound<K(!new), V>(ops: KeyOps<K>, slots: seq<nat>, cells: seq<Cell<K, V>>, n: nat, pos: seq<nat>,
                               slots': seq<nat>, cells': seq<Cell<K, V>>)
    requires Lawful(ops) && n >= 2 && NoneCrosses(ops, slots, cells, n, pos, n - 2)
    requires DeletedFrom(slots, cells, n, pos, n - 2, slots', cells', n - 1)
    ensures |slots'| > 0 && Readable(slots', cells')
    ensures var o := Walk(ops, slots', cells', cells[n - 1].key, 0); o.Found? && o.index == n - 1
  {
    var key := cells[n - 1].key;
    DeletedReadsSame(ops, slots, cells, n, pos, n - 2, slots', cells');
    MatchIsUnique(ops, cells, n, key, n - 1);
    WalkFinds(ops, slots, cells, n, pos, key, n - 1);
    WalkCleared(ops, slots, cells, slots', cells', pos[n - 2], key, 0);
    assert !Crosses(ops, slots, cells, pos, n - 1, pos[n - 2]);
    assert slots[pos[n - 1]] == n && slots[pos[n - 2]] == n - 1;
    LastIndexStays(slots, n, pos);
    hide Walk, Home, Table, SlotsAfterDelete, CellsAfterDelete, Lawful;
  }

  /**
   The last pair is then found one past the end: setting its value changes the stale copy, which lookups read, and not
   the pair at its place in the order. It releases the old value, which that pair still shows; the count stays right if
   and only if the old and the new value hold the same references.
   */
  lemma StaleUpdate<K(!new), V>(ops: KeyOps<K>, slots: seq<nat>, cells: seq<Cell<K, V>>, n: nat, pos: seq<nat>,
                                slots': seq<nat>, cells': seq<Cell<K, V>>, value: V, h: Holding<K, V>,
                                taken: multiset<nat>, dropped: multiset<nat>)
    requires Lawful(ops) && n >= 2 && NoneCrosses(ops, slots, cells, n, pos, n - 2)
    requires DeletedFrom(slots, cells, n, pos, n - 2, slots', cells', n - 1)
    ensures |slots'| > 0 && Readable(slots', cells')
    ensures var key := cells[n - 1].key;
            var o := Walk(ops, slots', cells', key, 0);
            && o.Found? && o.index == n - 1
            && var after := cells'[o.index := Pair(cells'[o.index].key, value)];
               && RawGet(ops, slots', after, key) == Some(value)
               && n - 1 <= |after| && (forall i :: 0 <= i < n - 1 ==> after[i].Pair?)
               && var ps := Live(after, n - 1);
                  && ps[n - 2] == (key, cells'[o.index].value) == (key, cells[n - 1].value)
                  && var theOld, theNew := h.ofValue(cells[n - 1].value), h.ofValue(value);
                     Balanced(h, ps, taken, dropped) ==>
                       (Balanced(h, ps, taken + theNew, dropped + theOld) <==> theNew == theOld)
  {
    var key := cells[n - 1].key;
    StaleFound(ops, slots, cells, n, pos, slots', cells');
    CellsMoveDown(cells, n, n - 2);
    assert ops.eq(key, key) && forall i :: 0 <= i < n ==> cells[i].Pair?;
    hide Walk, Table, Lawful, NoneCrosses, SlotsAfterDelete, CellsAfterDelete;
    var o := Walk(ops, slots', cells', key, 0);
    var after := cells'[o.index := Pair(cells'[o.index].key, value)];
    WalkSameMatches(ops, slots', cells', after, key, 0);
    var ps := Live(after, n - 1);
    if Balanced(h, ps, taken, dropped) {
      Exchanged(taken, dropped, Refs(h, ps), h.ofValue(value), h.ofValue(cells[n - 1].value));
    }
  }

  lemma Exchanged(taken: multiset<nat>, dropped: multiset<nat>, held: multiset<nat>, a: multiset<nat>, b: multiset<nat>)
    requires taken == dropped + held
    ensures taken + a == dropped + b + held <==> a == b
  {
    if taken + a == dropped + b + held {
      forall x
        ensures a[x] == b[x]
      {
        assert (taken + a)[x] == (dropped + b + held)[x];
      }
    }
  }

  /**
   The next new pair, when it is entered without a rebuilding of the slot table, takes the stale cell: after that the
   last pair, though still in the order, is never found.
   */
  lemma StaleInsert<K(!new), V>(ops: KeyOps<K>, slots: seq<nat>, cells: seq<Cell<K, V>>, n: nat, pos: seq<nat>,
                                slots': seq<nat>, cells': seq<Cell<K, V>>, s: nat, key: K, value: V)
    requires Lawful(ops) && n >= 2 && Table(ops, slots, cells, n, pos)
    requires DeletedFrom(slots, cells, n, pos, n - 2, slots', cells', n - 1)
    requires s < |slots'| && slots'[s] == 0 && !ops.eq(key, cells[n - 1].key)
    ensures var slots2, cells2 := slots'[s := n], cells'[n - 1 := Pair(key, value)];
            && Readable(slots2, cells2) && cells2[n - 2] == cells[n - 1]
            && !Walk(ops, slots2, cells2, cells[n - 1].key, 0).Found?
  {
    var last := cells[n - 1].key;
    var slots2, cells2 := slots'[s := n], cells'[n - 1 := Pair(key, value)];
    CellsMoveDown(cells, n, n - 2);
    MatchIsUnique(ops, cells, n, last, n - 1);
    forall z | 0 <= z < |slots2|
      ensures slots2[z] <= n && slots2[z] != n - 1
    {
      PlacedOnce(ops, slots, cells, n, pos, n - 2, z);
      assert slots[z] != 0 ==> slots[z] <= n;
    }
    forall i | 0 <= i < n && i != n - 2
      ensures !Matches(ops, cells2[i], last)
    {
      assert i < n - 2 ==> cells2[i] == cells[i];
    }
    hide Walk, Home, NoGap, Table;
  }

  /** An unused slot right after the pair's own makes deletion of any pair but the last but one safe. */
  lemma FreeNextSlotIsSafe<K, V>(ops: KeyOps<K>, slots: seq<nat>, cells: seq<Cell<K, V>>, n: nat, pos: seq<nat>, k: nat)
    requires Table(ops, slots, cells, n, pos) && k < n && k != n - 2
    requires slots[Around(|slots|, pos[k], 1)] == 0
    ensures SafeToDelete(ops, slots, cells, n, pos, k)
  {
    var cap := |slots|;
    forall j | 0 <= j < n && j != k
      ensures !Crosses(ops, slots, cells, pos, j, pos[k])
    {
      var h := Home(ops, cells[j].key, cap);
      var e := Steps(cap, h, pos[k]);
      assert Around(cap, h, e + 1) == Around(cap, pos[k], 1);
      assert NoGap(slots, h, pos[j]);
    }
  }
}
