/** An Akita entity store as the ordered sequence of its entities, each
    identified by `key`. `add` skips an id that is already present, `update`
    of a missing id changes nothing, `remove` drops the id. */
module EntityStore {
  import opened Wrappers
  import Seqs

  predicate UniqueKeys<E>(es: seq<E>, key: E -> string) {
    forall i, j :: 0 <= i < j < |es| ==> key(es[i]) != key(es[j])
  }

  predicate HasKey<E>(es: seq<E>, key: E -> string, id: string) {
    exists i :: 0 <= i < |es| && key(es[i]) == id
  }

  lemma HasKeyTail<E>(es: seq<E>, key: E -> string, id: string)
    requires es != []
    ensures HasKey(es, key, id) <==> key(es[0]) == id || HasKey(es[1..], key, id)
  {
    if HasKey(es[1..], key, id) {
      var i :| 0 <= i < |es[1..]| && key(es[1..][i]) == id;
      assert key(es[i + 1]) == id;
    }
  }

  lemma HasKeySnoc<E>(es: seq<E>, key: E -> string, e: E, id: string)
    ensures HasKey(es + [e], key, id) <==> HasKey(es, key, id) || key(e) == id
  {
    if HasKey(es, key, id) {
      var i :| 0 <= i < |es| && key(es[i]) == id;
      assert (es + [e])[i] == es[i];
    }
    if HasKey(es + [e], key, id) && key(e) != id {
      var i :| 0 <= i < |es + [e]| && key((es + [e])[i]) == id;
      assert i < |es| && (es + [e])[i] == es[i];
    }
    if key(e) == id {
      assert (es + [e])[|es|] == e;
    }
  }

  /** The entity stored under `id`, if any (the first one). */
  function Find<E>(es: seq<E>, key: E -> string, id: string): (r: Option<E>)
    ensures r.None? <==> !HasKey(es, key, id)
    ensures r.Some? ==> key(r.value) == id && r.value in es
  {
    if es == [] then None
    else if key(es[0]) == id then Some(es[0])
    else
      HasKeyTail(es, key, id);
      Find(es[1..], key, id)
  }

  /** In a store with unique ids, `Find` returns the entity at any index
      holding the id. */
  lemma FindUnique<E>(es: seq<E>, key: E -> string, i: nat)
    requires UniqueKeys(es, key) && i < |es|
    ensures Find(es, key, key(es[i])) == Some(es[i])
  {
    if i > 0 {
      assert key(es[0]) != key(es[i]);
      FindUnique(es[1..], key, i - 1);
    }
  }

  /** `store.add(e)`. */
  function Add<E>(es: seq<E>, key: E -> string, e: E): (r: seq<E>)
    ensures HasKey(es, key, key(e)) ==> r == es
    ensures !HasKey(es, key, key(e)) ==> r == es + [e]
    ensures UniqueKeys(es, key) ==> UniqueKeys(r, key)
  {
    if HasKey(es, key, key(e)) then es else es + [e]
  }

  /** `store.update(id, f)`: `f` applied to the entity with that id. */
  function Update<E>(es: seq<E>, key: E -> string, id: string, f: E -> E): (r: seq<E>)
    ensures |r| == |es|
    ensures forall i :: 0 <= i < |es| && key(es[i]) != id ==> r[i] == es[i]
    ensures forall i :: 0 <= i < |es| && key(es[i]) == id ==> r[i] == f(es[i])
  {
    if es == [] then []
    else [if key(es[0]) == id then f(es[0]) else es[0]] + Update(es[1..], key, id, f)
  }

  /** `store.update(id, e)` with every field given: the entity with that id
      becomes `e`. */
  function Replace<E>(es: seq<E>, key: E -> string, id: string, e: E): (r: seq<E>)
    ensures |r| == |es|
    ensures forall i :: 0 <= i < |es| && key(es[i]) != id ==> r[i] == es[i]
    ensures forall i :: 0 <= i < |es| && key(es[i]) == id ==> r[i] == e
  {
    if es == [] then []
    else [if key(es[0]) == id then e else es[0]] + Replace(es[1..], key, id, e)
  }

  /** Updating with a key-preserving `f` keeps the ids and their order. */
  lemma UpdateKeepsKeys<E>(es: seq<E>, key: E -> string, id: string, f: E -> E)
    requires forall i :: 0 <= i < |es| ==> key(f(es[i])) == key(es[i])
    ensures forall i :: 0 <= i < |es| ==> key(Update(es, key, id, f)[i]) == key(es[i])
    ensures UniqueKeys(es, key) ==> UniqueKeys(Update(es, key, id, f), key)
  {
  }

  /** `store.remove(id)`: Akita filters the id list, so the survivors keep
      their order. */
  function Remove<E>(es: seq<E>, key: E -> string, id: string): (r: seq<E>)
    ensures |r| <= |es|
    ensures !HasKey(r, key, id)
    ensures forall i :: 0 <= i < |r| ==> r[i] in es
    ensures forall i :: 0 <= i < |es| && key(es[i]) != id ==> es[i] in r
    ensures UniqueKeys(es, key) ==> UniqueKeys(r, key)
  {
    if es == [] then []
    else
      var rest := Remove(es[1..], key, id);
      if key(es[0]) == id then rest
      else
        HeadKeyFresh(es, key, rest);
        [es[0]] + rest
  }

  /** Removing is filtering out the id, so the survivors keep their order. */
  lemma {:induction false} RemoveFilters<E>(es: seq<E>, key: E -> string, id: string)
    ensures Remove(es, key, id) == Seqs.Filter(es, (e: E) => key(e) != id)
  {
    if es != [] {
      RemoveFilters(es[1..], key, id);
    }
  }

  /** With unique ids, no entity drawn from the tail shares the head's id. */
  lemma HeadKeyFresh<E>(es: seq<E>, key: E -> string, rest: seq<E>)
    requires es != []
    requires forall i :: 0 <= i < |rest| ==> rest[i] in es[1..]
    ensures UniqueKeys(es, key) ==> forall i :: 0 <= i < |rest| ==> key(rest[i]) != key(es[0])
  {
    if UniqueKeys(es, key) {
      forall i | 0 <= i < |rest| ensures key(rest[i]) != key(es[0]) {
        var j :| 0 <= j < |es[1..]| && es[1..][j] == rest[i];
        assert es[j + 1] == rest[i];
      }
    }
  }

  /** Removing an absent id changes nothing. */
  lemma RemoveAbsent<E>(es: seq<E>, key: E -> string, id: string)
    requires !HasKey(es, key, id)
    ensures Remove(es, key, id) == es
  {
    if es != [] {
      HasKeyTail(es, key, id);
      RemoveAbsent(es[1..], key, id);
    }
  }
}
