/** Reconciliation of a per-instance data store with the list of configured
    instances, shared by `GitlabProjectsService` and the older
    `SearchParamsService`: the set diff of the stored ids against the config
    ids decides which blank entries are added (in config order) and which
    entries are removed. */
module DataSync {
  import opened Wrappers
  import opened Seqs
  import ArrayDiff
  import EntityStore

  function Keys<E>(es: seq<E>, key: E -> string): (r: seq<string>)
    ensures |r| == |es|
    ensures forall i :: 0 <= i < |es| ==> r[i] == key(es[i])
  {
    Map(es, key)
  }

  /** The entities, in order, whose key's membership in `ids` is `member`;
      with `member == false` this is `store.remove(ids)`. */
  function Select<E>(es: seq<E>, key: E -> string, ids: seq<string>, member: bool): (r: seq<E>)
    ensures |r| <= |es|
    ensures forall i :: 0 <= i < |r| ==> r[i] in es && (key(r[i]) in ids) == member
    ensures forall i :: 0 <= i < |es| && (key(es[i]) in ids) == member ==> es[i] in r
  {
    if es == [] then []
    else (if (key(es[0]) in ids) == member then [es[0]] else []) + Select(es[1..], key, ids, member)
  }

  /** `store.add(items)`: each item is added unless its id is present. */
  function AddAll<E>(es: seq<E>, key: E -> string, items: seq<E>): (r: seq<E>)
    decreases |items|
  {
    if items == [] then es else AddAll(EntityStore.Add(es, key, items[0]), key, items[1..])
  }

  /** Reference result of a sync: the entries whose id is still configured,
      in store order, followed by a blank entry for every configured id the
      store lacked, in config order. */
  function Synced<E>(es: seq<E>, key: E -> string, blank: string -> E, configIds: seq<string>): seq<E> {
    Select(es, key, configIds, true) + Map(ArrayDiff.Retain(configIds, Keys(es, key), false), blank)
  }

  /** The constructor's subscription: diff the stored ids against the config
      ids, add blanks for the configs whose id was added, then remove the
      removed ids. Config ids and store ids are keys of Akita stores, so
      neither repeats. */
  method Sync<E>(es: seq<E>, key: E -> string, blank: string -> E, configIds: seq<string>)
    returns (r: seq<E>, added: seq<string>, removed: seq<string>)
    requires Distinct(configIds) && Distinct(Keys(es, key))
    requires forall id :: key(blank(id)) == id
    ensures r == Synced(es, key, blank, configIds)
    ensures added == ArrayDiff.Retain(configIds, Keys(es, key), false)
    ensures forall x :: x in removed <==> x in Keys(es, key) && x !in configIds
  {
    var ks := Keys(es, key);
    var d := ArrayDiff.DiffArraysWithSets(ks, configIds);
    DedupDistinct(ks);
    DedupDistinct(configIds);
    assert d == ArrayDiff.SetDiff(ks, configIds);
    added := ArrayDiff.Retain(configIds, d.added, true);
    removed := d.removed;
    SyncSteps(es, key, blank, configIds);
    r := Select(AddAll(es, key, Map(added, blank)), key, removed, false);
  }

  /** The three steps of `Sync`, on the diff's reference definition. */
  lemma SyncSteps<E>(es: seq<E>, key: E -> string, blank: string -> E, configIds: seq<string>)
    requires Distinct(configIds)
    requires forall id :: key(blank(id)) == id
    ensures var d := ArrayDiff.SetDiff(Keys(es, key), configIds);
      && ArrayDiff.Retain(configIds, d.added, true) == ArrayDiff.Retain(configIds, Keys(es, key), false)
      && Select(AddAll(es, key, Map(ArrayDiff.Retain(configIds, d.added, true), blank)), key, d.removed, false)
         == Synced(es, key, blank, configIds)
  {
    var ks := Keys(es, key);
    var d := ArrayDiff.SetDiff(ks, configIds);
    ArrayDiff.SetDiffPartition(ks, configIds);
    RetainCongruent(configIds, d.added, true, ks, false);
    var missing := ArrayDiff.Retain(configIds, ks, false);
    ArrayDiff.RetainDistinct(configIds, ks, false);
    var items := Map(missing, blank);
    KeysOfBlanks(missing, blank, key);
    forall i | 0 <= i < |missing|
      ensures missing[i] !in ks && missing[i] in configIds
    {
      ArrayDiff.RetainMembership(configIds, ks, false, missing[i]);
    }
    AddAllFresh(es, key, items, missing);
    SelectConcat(es, items, key, d.removed, false);
    SelectCongruent(es, key, d.removed, false, configIds, true);
    SelectAll(items, key, d.removed, false);
  }

  lemma {:induction false} RetainCongruent(s: seq<string>, o1: seq<string>, m1: bool, o2: seq<string>, m2: bool)
    requires forall i :: 0 <= i < |s| ==> ((s[i] in o1) == m1 <==> (s[i] in o2) == m2)
    ensures ArrayDiff.Retain(s, o1, m1) == ArrayDiff.Retain(s, o2, m2)
  {
    if s != [] {
      RetainCongruent(s[1..], o1, m1, o2, m2);
    }
  }

  lemma {:induction false} SelectCongruent<E>(es: seq<E>, key: E -> string, o1: seq<string>, m1: bool, o2: seq<string>, m2: bool)
    requires forall i :: 0 <= i < |es| ==> ((key(es[i]) in o1) == m1 <==> (key(es[i]) in o2) == m2)
    ensures Select(es, key, o1, m1) == Select(es, key, o2, m2)
  {
    if es != [] {
      SelectCongruent(es[1..], key, o1, m1, o2, m2);
    }
  }

  lemma {:induction false} SelectAll<E>(es: seq<E>, key: E -> string, ids: seq<string>, member: bool)
    requires forall i :: 0 <= i < |es| ==> (key(es[i]) in ids) == member
    ensures Select(es, key, ids, member) == es
  {
    if es != [] {
      SelectAll(es[1..], key, ids, member);
    }
  }

  lemma {:induction false} SelectConcat<E>(a: seq<E>, b: seq<E>, key: E -> string, ids: seq<string>, member: bool)
    ensures Select(a + b, key, ids, member) == Select(a, key, ids, member) + Select(b, key, ids, member)
  {
    if a == [] {
      assert a + b == b;
    } else {
      assert (a + b)[1..] == a[1..] + b;
      SelectConcat(a[1..], b, key, ids, member);
    }
  }

  lemma {:induction false} SelectKeys<E>(es: seq<E>, key: E -> string, ids: seq<string>, member: bool)
    ensures Keys(Select(es, key, ids, member), key) == ArrayDiff.Retain(Keys(es, key), ids, member)
  {
    if es != [] {
      SelectKeys(es[1..], key, ids, member);
      KeysConcat(if (key(es[0]) in ids) == member then [es[0]] else [], Select(es[1..], key, ids, member), key);
      assert Keys(es, key)[1..] == Keys(es[1..], key);
    }
  }

  lemma {:induction false} KeysConcat<E>(a: seq<E>, b: seq<E>, key: E -> string)
    ensures Keys(a + b, key) == Keys(a, key) + Keys(b, key)
  {
    if a != [] {
      assert (a + b)[1..] == a[1..] + b;
      KeysConcat(a[1..], b, key);
    }
  }

  lemma {:induction false} KeysOfBlanks<E>(ids: seq<string>, blank: string -> E, key: E -> string)
    requires forall id :: key(blank(id)) == id
    ensures Keys(Map(ids, blank), key) == ids
  {
    if ids != [] {
      KeysOfBlanks(ids[1..], blank, key);
    }
  }

  lemma KeysHaveKey<E>(es: seq<E>, key: E -> string, id: string)
    ensures EntityStore.HasKey(es, key, id) <==> id in Keys(es, key)
  {
    if id in Keys(es, key) {
      var i :| 0 <= i < |es| && Keys(es, key)[i] == id;
      assert key(es[i]) == id;
    }
  }

  /** Adding items with new, distinct ids appends them. */
  lemma {:induction false} AddAllFresh<E>(es: seq<E>, key: E -> string, items: seq<E>, ids: seq<string>)
    requires Keys(items, key) == ids && Distinct(ids)
    requires forall i :: 0 <= i < |ids| ==> ids[i] !in Keys(es, key)
    ensures AddAll(es, key, items) == es + items
    decreases |items|
  {
    if items != [] {
      var id := ids[0];
      assert key(items[0]) == id;
      KeysHaveKey(es, key, id);
      assert !EntityStore.HasKey(es, key, id);
      var next := es + [items[0]];
      assert EntityStore.Add(es, key, items[0]) == next;
      KeysConcat(es, [items[0]], key);
      var nk := Keys(next, key);
      assert nk == Keys(es, key) + [id];
      var rest := ids[1..];
      assert Keys(items[1..], key) == rest;
      forall i | 0 <= i < |rest|
        ensures rest[i] !in nk
      {
        assert rest[i] == ids[i + 1];
        assert ids[i + 1] != ids[0];
      }
      AddAllFresh(next, key, items[1..], rest);
      assert AddAll(es, key, items) == AddAll(next, key, items[1..]);
      AppendFirst(es, items);
    }
  }

  lemma AppendFirst<E>(a: seq<E>, b: seq<E>)
    requires b != []
    ensures (a + [b[0]]) + b[1..] == a + b
  {
    assert b == [b[0]] + b[1..];
  }

  /** After a sync the stored ids are exactly the config ids. */
  lemma SyncedKeys<E>(es: seq<E>, key: E -> string, blank: string -> E, configIds: seq<string>)
    requires forall id :: key(blank(id)) == id
    ensures forall id :: id in Keys(Synced(es, key, blank, configIds), key) <==> id in configIds
  {
    var ks := Keys(es, key);
    var kept := Select(es, key, configIds, true);
    var missing := ArrayDiff.Retain(configIds, ks, false);
    KeysConcat(kept, Map(missing, blank), key);
    SelectKeys(es, key, configIds, true);
    KeysOfBlanks(missing, blank, key);
    var rk := Keys(Synced(es, key, blank, configIds), key);
    assert rk == ArrayDiff.Retain(ks, configIds, true) + missing;
    forall id
      ensures id in rk <==> id in configIds
    {
      ArrayDiff.RetainMembership(configIds, ks, false, id);
      ArrayDiff.RetainMembership(ks, configIds, true, id);
    }
  }

  /** A sync keeps every entry whose id is still configured, unchanged, and
      every entry after it is either such a kept entry or the blank entry of
      a configured id the store lacked. */
  lemma SyncedEntries<E>(es: seq<E>, key: E -> string, blank: string -> E, configIds: seq<string>)
    requires forall id :: key(blank(id)) == id
    ensures forall i :: 0 <= i < |es| && key(es[i]) in configIds ==> es[i] in Synced(es, key, blank, configIds)
    ensures forall e :: e in Synced(es, key, blank, configIds) ==>
              || (e in es && key(e) in configIds)
              || (key(e) !in Keys(es, key) && key(e) in configIds && e == blank(key(e)))
  {
    var ks := Keys(es, key);
    var kept := Select(es, key, configIds, true);
    var missing := ArrayDiff.Retain(configIds, ks, false);
    var blanks := Map(missing, blank);
    var r := Synced(es, key, blank, configIds);
    assert r == kept + blanks;
    forall e | e in r
      ensures || (e in es && key(e) in configIds)
              || (key(e) !in ks && key(e) in configIds && e == blank(key(e)))
    {
      if e !in kept {
        var j :| 0 <= j < |blanks| && blanks[j] == e;
        var id := missing[j];
        assert e == blank(id);
        ArrayDiff.RetainMembership(configIds, ks, false, id);
      }
    }
  }

  // ---------------------------------------------------------------------
  // The UI store
  // ---------------------------------------------------------------------

  /** The UI store, as a map from id to `isLoading`; `None` is an entry
      whose flag is undefined. */
  type LoadingFlags = map<string, Option<bool>>

  /** Akita's UI bookkeeping after an add: every added id lacking a UI
      entity gets the initial `{isLoading: false}`. */
  function UiAfterAdd(ui: LoadingFlags, ids: seq<string>): (r: LoadingFlags)
    ensures r.Keys == ui.Keys + set i | 0 <= i < |ids| :: ids[i]
    ensures forall id :: id in ui ==> r[id] == ui[id]
    ensures forall id :: id in r && id !in ui ==> r[id] == Some(false)
  {
    var created := set i | 0 <= i < |ids| && ids[i] !in ui :: ids[i];
    map id | id in ui.Keys + created :: if id in ui then ui[id] else Some(false)
  }

  /** A UI entity is removed with its entity. */
  function UiAfterRemove(ui: LoadingFlags, ids: seq<string>): (r: LoadingFlags)
    ensures forall id :: id in r <==> id in ui && id !in ids
    ensures forall id :: id in r ==> r[id] == ui[id]
  {
    map id | id in ui && id !in ids :: ui[id]
  }

  /** `ui.update(id, …)` of the `isLoading` flag; a missing id is left
      alone. */
  function SetLoading(ui: LoadingFlags, id: string, loading: bool): (r: LoadingFlags)
    ensures r.Keys == ui.Keys
    ensures id in ui ==> r[id] == Some(loading)
    ensures forall other :: other in ui && other != id ==> r[other] == ui[other]
  {
    if id in ui then ui[id := Some(loading)] else ui
  }
}
