/**
 * A `HashMap<K, V>` modelled as an association list whose keys are unique.
 * Decoding collects a sequence of key/value pairs into a map, inserting them
 * in order so that a later pair with a repeated key overwrites the earlier
 * one. `MapOf` is that fold into a Dafny `map`; `Collect` performs the same
 * inserts on an association list, keeping each key where it first appeared.
 */
module Assoc {

  predicate UniqueKeys<K(==), V>(ps: seq<(K, V)>) {
    forall i, j | 0 <= i < j < |ps| :: ps[i].0 != ps[j].0
  }

  predicate HasKey<K(==), V>(ps: seq<(K, V)>, k: K) {
    exists i | 0 <= i < |ps| :: ps[i].0 == k
  }

  /** The map that inserting the pairs of `ps` one by one, first to last, builds. */
  function MapOf<K(==), V>(ps: seq<(K, V)>): map<K, V> {
    if ps == [] then map[] else MapOf(ps[..|ps| - 1])[ps[|ps| - 1].0 := ps[|ps| - 1].1]
  }

  lemma {:induction false} MapOfAppend<K, V>(a: seq<(K, V)>, b: seq<(K, V)>)
    ensures MapOf(a + b) == MapOf(a) + MapOf(b)
    decreases |b|
  {
    if b == [] {
      assert a + b == a;
    } else {
      var b' := b[..|b| - 1];
      assert (a + b)[..|a + b| - 1] == a + b';
      MapOfAppend(a, b');
    }
  }

  lemma MapOfCons<K, V>(p: (K, V), q: seq<(K, V)>)
    ensures MapOf([p] + q) == map[p.0 := p.1] + MapOf(q)
  {
    MapOfAppend([p], q);
    assert [p][..0] == [];
  }

  /** A key no pair carries is absent from the collected map. */
  lemma {:induction false} AbsentKey<K, V>(ps: seq<(K, V)>, k: K)
    requires !HasKey(ps, k)
    ensures k !in MapOf(ps)
    decreases |ps|
  {
    if ps != [] {
      var init := ps[..|ps| - 1];
      forall i | 0 <= i < |init| ensures init[i].0 != k {
        assert init[i] == ps[i];
      }
      AbsentKey(init, k);
    }
  }

  /** `HashMap::insert` on the association list: overwrite the value of an
      existing key in place, or append a new pair. */
  function Insert<K(==), V>(ps: seq<(K, V)>, k: K, v: V): seq<(K, V)> {
    if ps == [] then [(k, v)]
    else if ps[0].0 == k then [(k, v)] + ps[1..]
    else [ps[0]] + Insert(ps[1..], k, v)
  }

  lemma HasKeyTail<K, V>(ps: seq<(K, V)>, k: K)
    requires ps != [] && ps[0].0 != k
    ensures HasKey(ps, k) <==> HasKey(ps[1..], k)
  {
    forall i | 0 <= i < |ps| - 1 ensures ps[1..][i] == ps[i + 1] { }
    if HasKey(ps, k) {
      var i :| 0 <= i < |ps| && ps[i].0 == k;
      assert ps[1..][i - 1].0 == k;
    }
  }

  /** Insert overwrites the pair holding `k` if there is one, and otherwise
      appends `(k, v)`; every other pair stays where it was. */
  lemma {:induction false} InsertShape<K, V>(ps: seq<(K, V)>, k: K, v: V)
    ensures var r := Insert(ps, k, v);
      && (HasKey(ps, k) ==> |r| == |ps|)
      && (!HasKey(ps, k) ==> r == ps + [(k, v)])
      && (forall j | 0 <= j < |r| :: (r[j] == (k, v) && (j < |ps| ==> ps[j].0 == k)) || (j < |ps| && r[j] == ps[j]))
    decreases |ps|
  {
    if ps != [] && ps[0].0 != k {
      InsertShape(ps[1..], k, v);
      HasKeyTail(ps, k);
      assert ps == [ps[0]] + ps[1..];
    }
  }

  lemma InsertUnique<K, V>(ps: seq<(K, V)>, k: K, v: V)
    requires UniqueKeys(ps)
    ensures UniqueKeys(Insert(ps, k, v))
  {
    var r := Insert(ps, k, v);
    InsertShape(ps, k, v);
    if !HasKey(ps, k) {
      forall i | 0 <= i < |ps| ensures ps[i].0 != k { }
    }
  }

  lemma {:induction false} InsertMapOf<K, V>(ps: seq<(K, V)>, k: K, v: V)
    requires UniqueKeys(ps)
    ensures MapOf(Insert(ps, k, v)) == MapOf(ps)[k := v]
    decreases |ps|
  {
    if ps == [] {
      MapOfCons((k, v), []);
      assert [(k, v)] + [] == [(k, v)];
    } else {
      var p, q := ps[0], ps[1..];
      assert ps == [p] + q;
      MapOfCons(p, q);
      if p.0 == k {
        forall i | 0 <= i < |q| ensures q[i].0 != k {
          assert ps[0].0 != ps[i + 1].0;
        }
        AbsentKey(q, k);
        MapOfCons((k, v), q);
      } else {
        InsertMapOf(q, k, v);
        MapOfCons(p, Insert(q, k, v));
      }
    }
  }

  /** `iter.collect::<HashMap<_, _>>()`, on association lists. */
  function Collect<K(==), V>(ps: seq<(K, V)>): (r: seq<(K, V)>)
    ensures UniqueKeys(r) && |r| <= |ps|
    ensures MapOf(r) == MapOf(ps)
  {
    if ps == [] then []
    else
      var init, last := Collect(ps[..|ps| - 1]), ps[|ps| - 1];
      InsertShape(init, last.0, last.1);
      InsertUnique(init, last.0, last.1);
      InsertMapOf(init, last.0, last.1);
      Insert(init, last.0, last.1)
  }

  /** Pairs whose keys are already unique are collected unchanged. */
  lemma {:induction false} CollectUnique<K, V>(ps: seq<(K, V)>)
    requires UniqueKeys(ps)
    ensures Collect(ps) == ps
    decreases |ps|
  {
    if ps != [] {
      var init := ps[..|ps| - 1];
      var last := ps[|ps| - 1];
      forall i, j | 0 <= i < j < |init| ensures init[i].0 != init[j].0 {
        assert init[i] == ps[i] && init[j] == ps[j];
      }
      CollectUnique(init);
      forall i | 0 <= i < |init| ensures init[i].0 != last.0 {
        assert init[i] == ps[i];
      }
      assert !HasKey(init, last.0);
      InsertShape(init, last.0, last.1);
      assert Collect(ps) == Insert(init, last.0, last.1) == init + [last];
      assert init + [last] == ps;
    }
  }

  /** Last write wins: a key maps to the value of the last pair that carries it. */
  lemma {:induction false} LastWriteWins<K, V>(ps: seq<(K, V)>, k: K, i: nat)
    requires i < |ps| && ps[i].0 == k
    requires forall j | i < j < |ps| :: ps[j].0 != k
    ensures k in MapOf(ps) && MapOf(ps)[k] == ps[i].1
    decreases |ps|
  {
    if i < |ps| - 1 {
      LastWriteWins(ps[..|ps| - 1], k, i);
    }
  }
}
