/**
 The references to counted blocks that a map holds through its keys and values, and what storing a pair releases: the
 value in the cell is destroyed first, whatever is in there (include/pw_types.h:769-779).
 */
module References {
  import opened Probing
  import opened AssocList

  /** The blocks that keys and values hold a reference to, by address; null and embedded values hold none. */
  datatype Holding<!K, !V> = Holding(ofKey: K -> multiset<nat>, ofValue: V -> multiset<nat>)

  function PairRefs<K, V>(h: Holding<K, V>, pair: (K, V)): multiset<nat> {
    h.ofKey(pair.0) + h.ofValue(pair.1)
  }

  /** What destroying the values in a cell releases. */
  function CellRefs<K, V>(h: Holding<K, V>, cell: Cell<K, V>): multiset<nat> {
    match cell
    case Empty => multiset{}
    case Pair(key, value) => PairRefs(h, (key, value))
  }

  /** All references of a list of pairs. */
  ghost function Refs<K, V>(h: Holding<K, V>, ps: Pairs<K, V>): multiset<nat> {
    if ps == [] then multiset{} else Refs(h, ps[..|ps| - 1]) + PairRefs(h, ps[|ps| - 1])
  }

  /**
   Of the references taken, exactly those of the pairs have not been dropped yet: each pair's blocks are counted for it,
   and nothing else is.
   */
  ghost predicate Balanced<K, V>(h: Holding<K, V>, ps: Pairs<K, V>, taken: multiset<nat>, dropped: multiset<nat>) {
    taken == dropped + Refs(h, ps)
  }

  lemma RefsOfMore<K, V>(h: Holding<K, V>, ps: Pairs<K, V>, pair: (K, V))
    ensures Refs(h, ps + [pair]) == Refs(h, ps) + PairRefs(h, pair)
  {
    assert (ps + [pair])[..|ps|] == ps;
  }

  lemma {:induction false} RefsOfChanged<K, V>(h: Holding<K, V>, ps: Pairs<K, V>, i: nat, pair: (K, V))
    requires i < |ps|
    ensures Refs(h, ps[i := pair]) + PairRefs(h, ps[i]) == Refs(h, ps) + PairRefs(h, pair)
    decreases |ps|
  {
    var n, after := |ps| - 1, ps[i := pair];
    if i < n {
      RefsOfChanged(h, ps[..n], i, pair);
      assert after[..n] == ps[..n][i := pair] && after[n] == ps[n];
      var a, b, x := Refs(h, after[..n]), Refs(h, ps[..n]), PairRefs(h, ps[n]);
      assert a + x + PairRefs(h, ps[i]) == a + PairRefs(h, ps[i]) + x == b + x + PairRefs(h, pair);
    } else {
      assert after[..n] == ps[..n];
    }
  }

  lemma {:induction false} RefsOfRest<K, V>(h: Holding<K, V>, ps: Pairs<K, V>, k: nat)
    requires k < |ps|
    ensures Refs(h, ps[..k] + ps[k + 1..]) + PairRefs(h, ps[k]) == Refs(h, ps)
    decreases |ps|
  {
    var n := |ps| - 1;
    if k < n {
      RefsOfRest(h, ps[..n], k);
      var rest := ps[..k] + ps[k + 1..];
      assert rest[..n - 1] == ps[..n][..k] + ps[..n][k + 1..] && rest[n - 1] == ps[n];
      assert ps[..n][k] == ps[k];
    } else {
      assert ps[..k] + ps[k + 1..] == ps[..n];
    }
  }

  /** A pair's references are among those of the list. */
  lemma RefsOfOne<K, V>(h: Holding<K, V>, ps: Pairs<K, V>, k: nat)
    requires k < |ps|
    ensures PairRefs(h, ps[k]) <= Refs(h, ps)
  {
    RefsOfRest(h, ps, k);
  }

  /** A value replaced in place: the old one is released, and the count stays right. */
  lemma OverwriteKeeps<K, V>(h: Holding<K, V>, ps: Pairs<K, V>, taken: multiset<nat>, dropped: multiset<nat>, i: nat,
                             value: V)
    requires Balanced(h, ps, taken, dropped) && i < |ps|
    ensures Balanced(h, ps[i := (ps[i].0, value)], taken + h.ofValue(value), dropped + h.ofValue(ps[i].1))
  {
    RefsOfChanged(h, ps, i, (ps[i].0, value));
    hide Refs;
    Cancelled(Refs(h, ps[i := (ps[i].0, value)]), Refs(h, ps), h.ofKey(ps[i].0), h.ofValue(ps[i].1), h.ofValue(value),
              dropped);
  }

  lemma Cancelled(changed: multiset<nat>, refs: multiset<nat>, key: multiset<nat>, was: multiset<nat>,
                  now: multiset<nat>, dropped: multiset<nat>)
    requires changed + (key + was) == refs + (key + now)
    ensures dropped + refs + now == dropped + was + changed
  {
    forall x
      ensures (dropped + refs + now)[x] == (dropped + was + changed)[x]
    {
      assert (changed + (key + was))[x] == (refs + (key + now))[x];
    }
  }

  /**
   A new pair goes into the cell behind the pairs and what is in there is released. The count stays right if and only if
   nothing counted is in there; otherwise just those references are missing from it.
   */
  lemma InsertExactly<K, V>(h: Holding<K, V>, ps: Pairs<K, V>, taken: multiset<nat>, dropped: multiset<nat>,
                            cell: Cell<K, V>, pair: (K, V))
    requires Balanced(h, ps, taken, dropped)
    ensures var taken', dropped' := taken + PairRefs(h, pair), dropped + CellRefs(h, cell);
            && dropped' + Refs(h, ps + [pair]) == taken' + CellRefs(h, cell)
            && (Balanced(h, ps + [pair], taken', dropped') <==> CellRefs(h, cell) == multiset{})
  {
    RefsOfMore(h, ps, pair);
    var over := CellRefs(h, cell);
    if over != multiset{} {
      var a :| a in over;
      assert (taken + PairRefs(h, pair) + over)[a] > (taken + PairRefs(h, pair))[a];
    }
  }
}
