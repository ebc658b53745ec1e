/** The reference meaning of a map: an association list in insertion order. */
module AssocList {
  import opened Probing

  datatype Option<+T> = None | Some(value: T)

  type Pairs<K, V> = seq<(K, V)>

  /** The value kept with a key. */
  function Get<K, V>(ops: KeyOps<K>, ps: Pairs<K, V>, key: K): Option<V> {
    if ps == [] then None
    else if ops.eq(ps[0].0, key) then Some(ps[0].1)
    else Get(ops, ps[1..], key)
  }

  /** A present key keeps its place and gets the value; a new key goes last. */
  function Put<K, V>(ops: KeyOps<K>, ps: Pairs<K, V>, key: K, value: V): Pairs<K, V> {
    if ps == [] then [(key, value)]
    else if ops.eq(ps[0].0, key) then [(ps[0].0, value)] + ps[1..]
    else [ps[0]] + Put(ops, ps[1..], key, value)
  }

  /** The list without a key, order kept. */
  function Remove<K, V>(ops: KeyOps<K>, ps: Pairs<K, V>, key: K): Pairs<K, V> {
    if ps == [] then []
    else if ops.eq(ps[0].0, key) then ps[1..]
    else [ps[0]] + Remove(ops, ps[1..], key)
  }

  ghost predicate FirstAt<K, V>(ops: KeyOps<K>, ps: Pairs<K, V>, key: K, i: nat) {
    && i < |ps| && ops.eq(ps[i].0, key)
    && forall j :: 0 <= j < i ==> !ops.eq(ps[j].0, key)
  }

  ghost predicate Missing<K, V>(ops: KeyOps<K>, ps: Pairs<K, V>, key: K) {
    forall j :: 0 <= j < |ps| ==> !ops.eq(ps[j].0, key)
  }

  /** The operations read off from the index of the key. */
  lemma {:induction false} AtIndex<K, V>(ops: KeyOps<K>, ps: Pairs<K, V>, key: K, value: V, i: nat)
    requires FirstAt(ops, ps, key, i)
    ensures Get(ops, ps, key) == Some(ps[i].1)
    ensures Put(ops, ps, key, value) == ps[i := (ps[i].0, value)]
    ensures Remove(ops, ps, key) == ps[..i] + ps[i + 1..]
    decreases i
  {
    if i > 0 {
      AtIndex(ops, ps[1..], key, value, i - 1);
      assert ps == [ps[0]] + ps[1..];
    }
  }

  lemma {:induction false} GetMissing<K, V>(ops: KeyOps<K>, ps: Pairs<K, V>, key: K)
    requires Missing(ops, ps, key)
    ensures Get(ops, ps, key) == None
    decreases |ps|
  {
    if ps != [] {
      GetMissing(ops, ps[1..], key);
    }
  }

  lemma {:induction false} AtEnd<K, V>(ops: KeyOps<K>, ps: Pairs<K, V>, key: K, value: V)
    requires Missing(ops, ps, key)
    ensures Get(ops, ps, key) == None
    ensures Put(ops, ps, key, value) == ps + [(key, value)]
    ensures Remove(ops, ps, key) == ps
    decreases |ps|
  {
    if ps != [] {
      forall j | 0 <= j < |ps| - 1
        ensures !ops.eq(ps[1..][j].0, key)
      {
        assert ps[1..][j] == ps[j + 1];
      }
      AtEnd(ops, ps[1..], key, value);
      assert ps == [ps[0]] + ps[1..];
    }
  }

  /** The list that the first n cells of a pair array hold. */
  ghost function Live<K, V>(cells: seq<Cell<K, V>>, n: nat): (ps: Pairs<K, V>)
    requires n <= |cells| && forall i :: 0 <= i < n ==> cells[i].Pair?
    ensures |ps| == n
  {
    seq(n, i requires 0 <= i < n => (cells[i].key, cells[i].value))
  }
}
