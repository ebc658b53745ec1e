/** Method tables by interface, and what a chain of subtypes makes of them (src/pw_interfaces.c:128-236). */
module MethodTables {

  /** A method is named by a number; 0 is the null pointer. */
  type Method = nat

  datatype Entry = Entry(id: nat, methods: seq<Method>)

  /** Place of the entry for an interface, or the number of entries. */
  function Find(es: seq<Entry>, id: nat): (k: nat)
    ensures k <= |es| && (k < |es| ==> es[k].id == id)
    ensures forall i :: 0 <= i < k ==> es[i].id != id
    decreases |es|
  {
    if es == [] || es[0].id == id then 0
    else
      var k := Find(es[1..], id);
      assert forall i :: 0 < i < k + 1 ==> es[i] == es[1..][i - 1];
      k + 1
  }

  predicate Has(es: seq<Entry>, id: nat) {
    Find(es, id) < |es|
  }

  /** The methods kept for an interface. */
  function MethodsOf(es: seq<Entry>, id: nat): seq<Method>
    requires Has(es, id)
  {
    es[Find(es, id)].methods
  }

  predicate DistinctIds(es: seq<Entry>) {
    forall i, j :: 0 <= i < j < |es| ==> es[i].id != es[j].id
  }

  lemma FindIs(es: seq<Entry>, k: nat)
    requires k < |es| && DistinctIds(es)
    ensures Find(es, es[k].id) == k && Has(es, es[k].id) && MethodsOf(es, es[k].id) == es[k].methods
  {
  }

  /** Given methods where there are any, the old ones elsewhere. */
  function Override(was: seq<Method>, given: seq<Method>): (r: seq<Method>)
    ensures |r| == |was|
    ensures forall k :: 0 <= k < |r| ==> r[k] == if k < |given| && given[k] != 0 then given[k] else was[k]
  {
    seq(|was|, k requires 0 <= k < |was| => if k < |given| && given[k] != 0 then given[k] else was[k])
  }

  /** Entries after one interface is supplied. */
  function Put(es: seq<Entry>, s: Entry): seq<Entry> {
    var k := Find(es, s.id);
    if k < |es| then es[k := Entry(s.id, Override(es[k].methods, s.methods))] else es + [s]
  }

  /** Entries after a list of interfaces is supplied, in order. */
  function PutAll(es: seq<Entry>, ss: seq<Entry>): seq<Entry>
    decreases |ss|
  {
    if ss == [] then es else Put(PutAll(es, ss[..|ss| - 1]), ss[|ss| - 1])
  }

  lemma PutMeans(es: seq<Entry>, s: Entry, id: nat)
    requires DistinctIds(es)
    ensures DistinctIds(Put(es, s))
    ensures Has(Put(es, s), id) <==> Has(es, id) || id == s.id
    ensures Has(Put(es, s), id) ==>
              MethodsOf(Put(es, s), id) ==
                if id != s.id then MethodsOf(es, id) else if Has(es, id) then Override(MethodsOf(es, id), s.methods)
                    else s.methods
  {
    var ps, k := Put(es, s), Find(es, s.id);
    assert forall i :: 0 <= i < |es| ==> ps[i].id == es[i].id;
    hide Override;
    if Has(ps, id) {
      var j := Find(ps, id);
      FindIs(ps, j);
      if j < |es| {
        FindIs(es, j);
      }
    }
    if Has(es, id) {
      FindIs(ps, Find(es, id));
    }
    if id == s.id && k == |es| {
      FindIs(ps, k);
    }
  }

  /** What a list supplies for one interface is its only entry for it. */
  lemma {:induction false} PutAllMeans(es: seq<Entry>, ss: seq<Entry>, id: nat)
    requires DistinctIds(es) && DistinctIds(ss)
    ensures DistinctIds(PutAll(es, ss))
    ensures Has(PutAll(es, ss), id) <==> Has(es, id) || Has(ss, id)
    ensures Has(PutAll(es, ss), id) ==>
              MethodsOf(PutAll(es, ss), id) ==
                if !Has(ss, id) then MethodsOf(es, id)
                else if Has(es, id) then Override(MethodsOf(es, id), MethodsOf(ss, id)) else MethodsOf(ss, id)
    decreases |ss|
  {
    if ss != [] {
      var n := |ss| - 1;
      PutAllMeans(es, ss[..n], id);
      PutMeans(PutAll(es, ss[..n]), ss[n], id);
      HasLast(ss, id);
      hide Override, Put, Find;
    }
  }

  lemma HasLast(ss: seq<Entry>, id: nat)
    requires ss != [] && DistinctIds(ss)
    ensures var n := |ss| - 1;
            && DistinctIds(ss[..n])
            && (Has(ss, id) <==> Has(ss[..n], id) || id == ss[n].id)
            && (id == ss[n].id ==> !Has(ss[..n], id))
            && (Has(ss, id) ==> MethodsOf(ss, id) == if id == ss[n].id then ss[n].methods else MethodsOf(ss[..n], id))
  {
    var n := |ss| - 1;
    FindIs(ss, n);
    if Has(ss[..n], id) {
      FindIs(ss, Find(ss[..n], id));
    }
    if Has(ss, id) && Find(ss, id) < n {
      FindIs(ss[..n], Find(ss, id));
    }
  }

  // ----- what a chain of types supplies -----

  /** A type as registered: the type it was made from, if any, and the interfaces supplied for it. */
  datatype Registered = Registered(from: Origin, supplied: seq<Entry>)

  datatype Origin = Added | SubtypeOf(ancestor: nat)

  /** Subtypes come after their ancestors; each type is supplied an interface once. */
  ghost predicate ChainsValid(types: seq<Registered>) {
    forall t :: 0 <= t < |types| ==>
      DistinctIds(types[t].supplied) && (types[t].from.SubtypeOf? ==> types[t].from.ancestor < t)
  }

  /** Some type on the chain from t supplies the interface. */
  ghost predicate OnChain(types: seq<Registered>, t: nat, id: nat)
    requires ChainsValid(types) && t < |types|
    decreases t
  {
    Has(types[t].supplied, id) || (types[t].from.SubtypeOf? && OnChain(types, types[t].from.ancestor, id))
  }

  /** The method given by the nearest type on the chain that gives one; 0 if none does. */
  ghost function Nearest(types: seq<Registered>, t: nat, id: nat, k: nat): Method
    requires ChainsValid(types) && t < |types|
    decreases t
  {
    var own := if Has(types[t].supplied, id) then MethodsOf(types[t].supplied, id) else [];
    if k < |own| && own[k] != 0 then own[k]
    else if types[t].from.SubtypeOf? then Nearest(types, types[t].from.ancestor, id, k)
    else 0
  }

  /** A type's entries: one for each interface on its chain, complete, and each method the nearest one given. */
  ghost predicate EntriesRight(sizes: seq<nat>, types: seq<Registered>, t: nat, es: seq<Entry>)
    requires ChainsValid(types) && t < |types|
  {
    && DistinctIds(es)
    && (forall id {:trigger Has(es, id)} {:trigger OnChain(types, t, id)} :: Has(es, id) <==> OnChain(types, t, id))
    && forall id {:trigger MethodsOf(es, id)} :: Has(es, id) ==> TableRight(sizes, types, t, id, MethodsOf(es, id))
  }

  ghost predicate TableRight(sizes: seq<nat>, types: seq<Registered>, t: nat, id: nat, methods: seq<Method>)
    requires ChainsValid(types) && t < |types|
  {
    && id < |sizes| && |methods| == sizes[id]
    && forall k :: 0 <= k < |methods| ==> methods[k] != 0 && methods[k] == Nearest(types, t, id, k)
  }

  /** What is supplied has a method for every place of the interface, or only for those it overrides. */
  predicate SupplyFits(sizes: seq<nat>, s: Entry) {
    s.id < |sizes| && |s.methods| == sizes[s.id]
  }

  predicate Complete(s: Entry) {
    forall k :: 0 <= k < |s.methods| ==> s.methods[k] != 0
  }

  /** More types do not change what an older chain gives. */
  lemma {:induction false} OlderChain(types: seq<Registered>, more: Registered, t: nat, id: nat, k: nat)
    requires ChainsValid(types) && ChainsValid(types + [more]) && t < |types|
    ensures OnChain(types + [more], t, id) == OnChain(types, t, id)
    ensures Nearest(types + [more], t, id, k) == Nearest(types, t, id, k)
    decreases t
  {
    assert (types + [more])[t] == types[t];
    if types[t].from.SubtypeOf? {
      OlderChain(types, more, types[t].from.ancestor, id, k);
    }
  }

  lemma OlderRight(sizes: seq<nat>, types: seq<Registered>, more: Registered, t: nat, es: seq<Entry>)
    requires ChainsValid(types) && ChainsValid(types + [more]) && t < |types| && EntriesRight(sizes, types, t, es)
    ensures EntriesRight(sizes, types + [more], t, es)
  {
    hide DistinctIds, Find, ChainsValid;
    forall id
      ensures OnChain(types + [more], t, id) == OnChain(types, t, id)
    {
      OlderChain(types, more, t, id, 0);
    }
    forall id | Has(es, id)
      ensures TableRight(sizes, types + [more], t, id, MethodsOf(es, id))
    {
      assert TableRight(sizes, types, t, id, MethodsOf(es, id));
      forall k | 0 <= k < |MethodsOf(es, id)|
        ensures Nearest(types + [more], t, id, k) == Nearest(types, t, id, k)
      {
        OlderChain(types, more, t, id, k);
      }
    }
  }

  /** More interfaces do not disturb the ones there are. */
  lemma MoreSizes(sizes: seq<nat>, n: nat, types: seq<Registered>, t: nat, es: seq<Entry>)
    requires ChainsValid(types) && t < |types| && EntriesRight(sizes, types, t, es)
    ensures EntriesRight(sizes + [n], types, t, es)
  {
    hide Find, DistinctIds, ChainsValid, OnChain, Nearest;
    forall id | Has(es, id)
      ensures TableRight(sizes + [n], types, t, id, MethodsOf(es, id))
    {
      assert TableRight(sizes, types, t, id, MethodsOf(es, id));
    }
  }

  /** The entries of the ancestor with what is supplied put over them are right for the subtype. */
  lemma SubtypeRight(sizes: seq<nat>, types: seq<Registered>, ancestor: nat, es: seq<Entry>, supplied: seq<Entry>)
    requires ChainsValid(types) && ancestor < |types| && EntriesRight(sizes, types, ancestor, es)
             && DistinctIds(supplied)
    requires forall i :: 0 <= i < |supplied| ==>
               SupplyFits(sizes, supplied[i]) && (Has(es, supplied[i].id) || Complete(supplied[i]))
    ensures var types' := types + [Registered(SubtypeOf(ancestor), supplied)];
            ChainsValid(types') && EntriesRight(sizes, types', |types|, PutAll(es, supplied))
  {
    var sub := Registered(SubtypeOf(ancestor), supplied);
    var types', t, ps := types + [sub], |types|, PutAll(es, supplied);
    assert ChainsValid(types');
    forall id
      ensures Has(ps, id) <==> OnChain(types', t, id)
      ensures Has(ps, id) ==> TableRight(sizes, types', t, id, MethodsOf(ps, id))
    {
      PutAllMeans(es, supplied, id);
      OlderChain(types, sub, ancestor, id, 0);
      if Has(ps, id) {
        SubtypeTable(sizes, types, ancestor, es, supplied, id);
      }
    }
    PutAllMeans(es, supplied, 0);
  }

  lemma SubtypeTable(sizes: seq<nat>, types: seq<Registered>, ancestor: nat, es: seq<Entry>, supplied: seq<Entry>,
                     id: nat)
    requires ChainsValid(types) && ancestor < |types| && EntriesRight(sizes, types, ancestor, es)
             && DistinctIds(supplied)
    requires forall i :: 0 <= i < |supplied| ==>
               SupplyFits(sizes, supplied[i]) && (Has(es, supplied[i].id) || Complete(supplied[i]))
    requires ChainsValid(types + [Registered(SubtypeOf(ancestor), supplied)]) && Has(PutAll(es, supplied), id)
    ensures TableRight(sizes, types + [Registered(SubtypeOf(ancestor), supplied)], |types|, id,
            MethodsOf(PutAll(es, supplied), id))
  {
    var sub := Registered(SubtypeOf(ancestor), supplied);
    var types', t := types + [sub], |types|;
    PutAllMeans(es, supplied, id);
    var methods := MethodsOf(PutAll(es, supplied), id);
    assert types'[t] == sub;
    if Has(es, id) {
      assert TableRight(sizes, types, ancestor, id, MethodsOf(es, id));
    }
    hide PutAll, DistinctIds, Find, OnChain, EntriesRight;
    forall k | 0 <= k < |methods|
      ensures methods[k] != 0 && methods[k] == Nearest(types', t, id, k)
    {
      OlderChain(types, sub, ancestor, id, k);
      if !Has(es, id) {
        assert Complete(supplied[Find(supplied, id)]);
        FoundAt(supplied, id);
      }
    }
    if Has(supplied, id) {
      FoundAt(supplied, id);
      assert SupplyFits(sizes, supplied[Find(supplied, id)]);
    }
  }

  lemma FoundAt(es: seq<Entry>, id: nat)
    requires Has(es, id)
    ensures Find(es, id) < |es| && es[Find(es, id)].id == id && MethodsOf(es, id) == es[Find(es, id)].methods
  {
  }

  /** A type added on its own has what it is supplied. */
  lemma AddedRight(sizes: seq<nat>, types: seq<Registered>, supplied: seq<Entry>)
    requires ChainsValid(types) && DistinctIds(supplied)
    requires forall i :: 0 <= i < |supplied| ==> SupplyFits(sizes, supplied[i]) && Complete(supplied[i])
    ensures var types' := types + [Registered(Added, supplied)];
            ChainsValid(types') && EntriesRight(sizes, types', |types|, supplied)
  {
    var added := Registered(Added, supplied);
    var types', t := types + [added], |types|;
    assert ChainsValid(types') && types'[t] == added;
    hide DistinctIds, Find, ChainsValid;
    forall id | Has(supplied, id)
      ensures TableRight(sizes, types', t, id, MethodsOf(supplied, id))
    {
      FoundAt(supplied, id);
      assert SupplyFits(sizes, supplied[Find(supplied, id)]) && Complete(supplied[Find(supplied, id)]);
    }
  }
}
