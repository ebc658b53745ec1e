/**
 The type registry: adding types, subtypes and interfaces, and finding methods (src/pw_interfaces.c,
 src/pw_types.c:823-876).
 */
module Registries {
  import opened MethodTables

  /** An interface of a type; subtypes point to the table of their ancestor until they override a method. */
  datatype Iface = Iface(id: nat, methods: array<Method>)

  /** Type numbers have 16 bits. */
  const MAX_TYPES: nat := 0xFFFF

  ghost function Tables(ifaces: seq<Iface>): set<array<Method>> {
    set i | 0 <= i < |ifaces| :: ifaces[i].methods
  }

  /** The content of a type's tables. */
  ghost function View(ifaces: seq<Iface>): (es: seq<Entry>)
    reads Tables(ifaces)
    ensures |es| == |ifaces|
    ensures forall i :: 0 <= i < |ifaces| ==> es[i] == Entry(ifaces[i].id, ifaces[i].methods[..])
  {
    seq(|ifaces|, i requires 0 <= i < |ifaces| reads Tables(ifaces) => Entry(ifaces[i].id, ifaces[i].methods[..]))
  }

  /** _pw_lookup_interface: the place of an interface in a type, or the number of its interfaces. */
  method Lookup(ifaces: seq<Iface>, id: nat) returns (k: nat)
    ensures k == Find(View(ifaces), id)
  {
    k := 0;
    while k < |ifaces|
      invariant k <= |ifaces| && forall i :: 0 <= i < k ==> ifaces[i].id != id
    {
      if ifaces[k].id == id {
        return;
      }
      k := k + 1;
    }
  }

  /** make_interface_methods: a table of its own for an interface; refused when a method is missing. */
  method MakeTable(methods: seq<Method>) returns (ok: bool, table: array<Method>)
    ensures fresh(table)
    ensures ok <==> forall k :: 0 <= k < |methods| ==> methods[k] != 0
    ensures ok ==> table[..] == methods
  {
    table := new Method[|methods|](_ => 0);
    var i := 0;
    while i < |methods|
      invariant i <= |methods| && table[..i] == methods[..i]
      invariant forall k :: 0 <= k < i ==> methods[k] != 0
    {
      if methods[i] == 0 {
        return false, table;
      }
      table[i] := methods[i];
      i := i + 1;
    }
    ok := true;
  }

  /** A copy of a table with the given methods in place of the old ones. */
  method OverrideTable(source: array<Method>, given: seq<Method>) returns (table: array<Method>)
    requires |given| == source.Length
    ensures fresh(table) && table[..] == Override(source[..], given)
  {
    table := new Method[source.Length](i requires 0 <= i < source.Length reads source => source[i]);
    var i := 0;
    while i < source.Length
      invariant i <= source.Length
      invariant forall k :: 0 <= k < source.Length ==> table[k] == if k < i && given[k] != 0 then given[k]
                else source[k]
    {
      if given[i] != 0 {
        table[i] := given[i];
      }
      i := i + 1;
    }
    assert table[..] == Override(source[..], given);
  }

  ghost predicate AllSupplied(sizes: seq<nat>, supplied: seq<Entry>) {
    forall i :: 0 <= i < |supplied| ==> SupplyFits(sizes, supplied[i]) && Complete(supplied[i])
  }

  class Registry {
    /** Numbers of methods of the registered interfaces. */
    var sizes: seq<nat>
    /** Interfaces of the types. */
    var types: seq<seq<Iface>>
    /** How each type was registered. */
    ghost var registered: seq<Registered>
    ghost var Repr: set<array<Method>>

    ghost predicate Valid()
      reads this, Repr
    {
      && |types| == |registered| >= 1 && ChainsValid(registered)
      && (forall t :: 0 <= t < |types| ==> Tables(types[t]) <= Repr)
      && forall t :: 0 <= t < |types| ==> EntriesRight(sizes, registered, t, View(types[t]))
    }

    /** Only the null type, with number 0 and no interfaces. */
    constructor ()
      ensures Valid() && fresh(Repr) && sizes == [] && registered == [Registered(Added, [])]
    {
      sizes, types, registered, Repr := [], [[]], [Registered(Added, [])], {};
      new;
      AddedRight([], [], []);
      assert View(types[0]) == [];
      assert [] + registered == registered;
    }

    /** _pw_register_interface. */
    method RegisterInterface(methods: nat) returns (id: nat)
      requires Valid()
      modifies this`sizes
      ensures Valid() && id == |old(sizes)| && sizes == old(sizes) + [methods]
    {
      id := |sizes|;
      forall t | 0 <= t < |types|
        ensures EntriesRight(sizes + [methods], registered, t, View(types[t]))
      {
        MoreSizes(sizes, methods, registered, t, View(types[t]));
      }
      sizes := sizes + [methods];
    }

    /** All types there were have the same tables with the same content. */
    twostate predicate OlderSame()
      requires Valid() && old(Valid())
      reads this, Repr
    {
      |old(types)| <= |types| && forall t :: 0 <= t < |old(types)| ==>
          types[t] == old(types)[t] && View(types[t]) == old(View(types[t]))
    }

    /** The new type's interfaces are in place; everything older is as it was. */
    ghost method Commit(more: Registered, ifaces: seq<Iface>)
      requires Valid() && ChainsValid(registered + [more])
      requires EntriesRight(sizes, registered + [more], |registered|, View(ifaces))
      modifies this`registered, this`Repr
      ensures registered == old(registered) + [more] && Repr == old(Repr) + Tables(ifaces)
      ensures forall t :: 0 <= t < |types| ==>
              Tables(types[t]) <= Repr && EntriesRight(sizes, registered, t, View(types[t]))
    {
      forall t | 0 <= t < |types|
        ensures EntriesRight(sizes, registered + [more], t, View(types[t]))
      {
        OlderRight(sizes, registered, more, t, View(types[t]));
      }
      registered, Repr := registered + [more], Repr + Tables(ifaces);
    }

    /** _pw_create_interfaces: new tables for all that is supplied. */
    method CreateInterfaces(supplied: seq<Entry>) returns (ok: bool, ifaces: seq<Iface>)
      requires forall i :: 0 <= i < |supplied| && supplied[i].id < |sizes| ==>
               |supplied[i].methods| == sizes[supplied[i].id]
      ensures ok <==> AllSupplied(sizes, supplied)
      ensures ok ==> View(ifaces) == supplied && fresh(Tables(ifaces))
    {
      ifaces := [];
      var i := 0;
      while i < |supplied|
        invariant i <= |supplied| && |ifaces| == i && fresh(Tables(ifaces))
        invariant View(ifaces) == supplied[..i]
        invariant AllSupplied(sizes, supplied[..i])
      {
        var s := supplied[i];
        OneMoreSupplied(sizes, supplied, i);
        if s.id >= |sizes| {
          return false, [];
        }
        var done, table := MakeTable(s.methods);
        if !done {
          return false, [];
        }
        TablesMore(ifaces, Iface(s.id, table));
        ifaces := ifaces + [Iface(s.id, table)];
        i := i + 1;
      }
      assert supplied[..i] == supplied;
      ok := true;
    }

    /** _pw_add_type: refused (the program ends) for an unknown interface, a missing method or too many types. */
    method AddType(supplied: seq<Entry>) returns (ok: bool, id: nat)
      requires Valid() && DistinctIds(supplied)
      requires forall i :: 0 <= i < |supplied| && supplied[i].id < |sizes| ==>
               |supplied[i].methods| == sizes[supplied[i].id]
      modifies this
      ensures Valid() && fresh(Repr - old(Repr)) && sizes == old(sizes)
      ensures ok <==> |old(types)| < MAX_TYPES && AllSupplied(sizes, supplied)
      ensures if ok then id == |old(types)| && registered == old(registered) + [Registered(Added, supplied)]
              else types == old(types) && registered == old(registered)
      ensures OlderSame()
    {
      hide EntriesRight, DistinctIds, ChainsValid;
      id := |types|;
      if |types| >= MAX_TYPES {
        return false, id;
      }
      var ifaces;
      ok, ifaces := CreateInterfaces(supplied);
      if !ok {
        return;
      }
      AddedRight(sizes, registered, supplied);
      Commit(Registered(Added, supplied), ifaces);
      types := types + [ifaces];
      ok := true;
    }

    /**
     One round of its loop: an interface the ancestor has gets a changed copy of its table, another one a table of its
     own.
     */
    method UpdateInterface(base: seq<Iface>, ifaces: seq<Iface>, s: Entry) returns (ok: bool, more: seq<Iface>)
      requires s.id < |sizes| ==> |s.methods| == sizes[s.id]
      requires forall i :: 0 <= i < |base| ==> base[i].id < |sizes| && base[i].methods.Length == sizes[base[i].id]
      requires Has(View(ifaces), s.id) <==> Has(View(base), s.id)
      requires Has(View(base), s.id) ==> MethodsOf(View(ifaces), s.id) == MethodsOf(View(base), s.id)
      ensures ok <==> SupplyFits(sizes, s) && (Has(View(base), s.id) || Complete(s))
      ensures ok ==> View(more) == Put(View(ifaces), s) && fresh(Tables(more) - Tables(ifaces))
    {
      hide Override, Find, Tables;
      if s.id >= |sizes| {
        return false, [];
      }
      var k := Lookup(base, s.id);
      if k < |base| {
        var d := Lookup(ifaces, s.id);
        var table := OverrideTable(base[k].methods, s.methods);
        more := ifaces[d := Iface(s.id, table)];
        ok := true;
        TablesPut(ifaces, d, Iface(s.id, table));
        assert View(more) == View(ifaces)[d := Entry(s.id, table[..])];
      } else {
        var table;
        ok, table := MakeTable(s.methods);
        more := ifaces + [Iface(s.id, table)];
        TablesMore(ifaces, Iface(s.id, table));
        if ok {
          assert View(more) == View(ifaces) + [s];
        }
      }
    }

    /** The ancestor's interfaces with what is supplied put over them (_pw_update_interfaces). */
    method UpdateInterfaces(base: seq<Iface>, supplied: seq<Entry>) returns (ok: bool, ifaces: seq<Iface>)
      requires DistinctIds(View(base)) && DistinctIds(supplied)
      requires forall i :: 0 <= i < |base| ==> base[i].id < |sizes| && base[i].methods.Length == sizes[base[i].id]
      requires forall i :: 0 <= i < |supplied| && supplied[i].id < |sizes| ==>
               |supplied[i].methods| == sizes[supplied[i].id]
      ensures ok <==> forall i :: 0 <= i < |supplied| ==>
                        SupplyFits(sizes, supplied[i]) && (Has(View(base), supplied[i].id) || Complete(supplied[i]))
      ensures ok ==> View(ifaces) == PutAll(View(base), supplied) && fresh(Tables(ifaces) - Tables(base))
    {
      hide DistinctIds, PutAll, Put, Find, Complete, SupplyFits;
      ifaces := base;
      var j := 0;
      NothingPut(View(base), supplied);
      while j < |supplied|
        invariant j <= |supplied| && fresh(Tables(ifaces) - Tables(base))
        invariant View(ifaces) == PutAll(View(base), supplied[..j])
        invariant forall i :: 0 <= i < j ==>
                  SupplyFits(sizes, supplied[i]) && (Has(View(base), supplied[i].id) || Complete(supplied[i]))
      {
        PutNext(View(base), supplied, j);
        var done, more := UpdateInterface(base, ifaces, supplied[j]);
        if !done {
          return false, [];
        }
        ifaces := more;
        j := j + 1;
      }
      assert supplied[..j] == supplied;
      ok := true;
    }

    /** _pw_subtype. */
    method Subtype(ancestor: nat, supplied: seq<Entry>) returns (ok: bool, id: nat)
      requires Valid() && DistinctIds(supplied) && 0 < ancestor < |types|
      requires forall i :: 0 <= i < |supplied| && supplied[i].id < |sizes| ==>
               |supplied[i].methods| == sizes[supplied[i].id]
      modifies this
      ensures Valid() && fresh(Repr - old(Repr)) && sizes == old(sizes)
      ensures ok <==> |old(types)| < MAX_TYPES && forall i :: 0 <= i < |supplied| ==>
                        SupplyFits(sizes, supplied[i]) && (old(OnChain(registered, ancestor, supplied[i].id))
                            || Complete(supplied[i]))
      ensures if ok then id == |old(types)|
              && registered == old(registered) + [Registered(SubtypeOf(ancestor), supplied)]
              else types == old(types) && registered == old(registered)
      ensures OlderSame()
    {
      hide EntriesRight, DistinctIds, ChainsValid, OnChain, PutAll, Complete, SupplyFits, Find;
      id := |types|;
      if |types| >= MAX_TYPES {
        return false, id;
      }
      ghost var es := View(types[ancestor]);
      AncestorFacts(sizes, registered, ancestor, es);
      var ifaces;
      ok, ifaces := UpdateInterfaces(types[ancestor], supplied);
      if !ok {
        return;
      }
      SubtypeRight(sizes, registered, ancestor, es, supplied);
      Commit(Registered(SubtypeOf(ancestor), supplied), ifaces);
      types := types + [ifaces];
    }

    /** Calling a method: the nearest one given on the chain, whenever some type on it has the interface. */
    method GetMethod(t: nat, id: nat, k: nat) returns (ok: bool, m: Method)
      requires Valid() && t < |types| && (id < |sizes| ==> k < sizes[id])
      ensures ok <==> OnChain(registered, t, id)
      ensures ok ==> m != 0 && m == Nearest(registered, t, id, k)
    {
      var i := Lookup(types[t], id);
      ok := i < |types[t]|;
      ghost var es := View(types[t]);
      assert Has(es, id) <==> OnChain(registered, t, id);
      if ok {
        assert TableRight(sizes, registered, t, id, MethodsOf(es, id));
        m := types[t][i].methods[k];
      } else {
        m := 0;
      }
    }
  }

  lemma TablesMore(ifaces: seq<Iface>, x: Iface)
    ensures Tables(ifaces + [x]) == Tables(ifaces) + {x.methods}
  {
    var more := ifaces + [x];
    assert more[|ifaces|] == x;
    assert forall i :: 0 <= i < |ifaces| ==> more[i] == ifaces[i];
  }

  lemma TablesPut(ifaces: seq<Iface>, d: nat, x: Iface)
    requires d < |ifaces|
    ensures Tables(ifaces[d := x]) <= Tables(ifaces) + {x.methods}
  {
  }

  lemma OneMoreSupplied(sizes: seq<nat>, supplied: seq<Entry>, i: nat)
    requires i < |supplied|
    ensures supplied[..i + 1] == supplied[..i] + [supplied[i]]
    ensures AllSupplied(sizes, supplied[..i + 1]) <==>
              AllSupplied(sizes, supplied[..i]) && SupplyFits(sizes, supplied[i]) && Complete(supplied[i])
    ensures AllSupplied(sizes, supplied) ==> SupplyFits(sizes, supplied[i]) && Complete(supplied[i])
  {
  }

  lemma NothingPut(es: seq<Entry>, ss: seq<Entry>)
    ensures PutAll(es, ss[..0]) == es
  {
  }

  /** The next supplied interface is where it was in the ancestor, if it was there. */
  lemma PutNext(es: seq<Entry>, ss: seq<Entry>, j: nat)
    requires DistinctIds(es) && DistinctIds(ss) && j < |ss|
    ensures PutAll(es, ss[..j + 1]) == Put(PutAll(es, ss[..j]), ss[j])
    ensures Has(PutAll(es, ss[..j]), ss[j].id) <==> Has(es, ss[j].id)
    ensures Has(es, ss[j].id) ==> MethodsOf(PutAll(es, ss[..j]), ss[j].id) == MethodsOf(es, ss[j].id)
  {
    var front := ss[..j + 1];
    assert front[..j] == ss[..j];
    HasLast(front, ss[j].id);
    PutAllMeans(es, ss[..j], ss[j].id);
  }

  lemma AncestorFacts(sizes: seq<nat>, types: seq<Registered>, t: nat, es: seq<Entry>)
    requires ChainsValid(types) && t < |types| && EntriesRight(sizes, types, t, es)
    ensures DistinctIds(es)
    ensures forall id :: Has(es, id) <==> OnChain(types, t, id)
    ensures forall i :: 0 <= i < |es| ==> es[i].id < |sizes| && |es[i].methods| == sizes[es[i].id]
  {
    forall i | 0 <= i < |es|
      ensures es[i].id < |sizes| && |es[i].methods| == sizes[es[i].id]
    {
      FindIs(es, i);
      assert TableRight(sizes, types, t, es[i].id, MethodsOf(es, es[i].id));
    }
  }
}
