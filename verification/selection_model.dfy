/** `SelectionModelTrackBy`: a selection stored as a `Map` from the
    `trackBy` key to the selected value, in insertion order, with a cached
    `selected` array that every mutation discards. The `trackBy` function
    the class keeps in a field is passed to each operation. */
module SelectionModel {
  import opened Wrappers
  import Seqs

  datatype Entry<K, T> = Entry(key: K, value: T)

  /** `_selection` (the map, as its entries in insertion order), `_multiple`
      and `_selected` (`None` for `null`). */
  datatype Selection<K, T> = Selection(entries: seq<Entry<K, T>>, multiple: bool, cache: Option<seq<T>>)

  /** The keys of the map. */
  function KeySet<K(==), T>(es: seq<Entry<K, T>>): set<K> {
    set i | 0 <= i < |es| :: es[i].key
  }

  /** The keys of some values. */
  function TrackedKeys<K(==), T>(values: seq<T>, trackBy: T -> K): set<K> {
    set i | 0 <= i < |values| :: trackBy(values[i])
  }

  /** `Array.from(map.values())`. */
  function Values<K, T>(es: seq<Entry<K, T>>): (r: seq<T>)
    ensures |r| == |es|
    ensures forall i :: 0 <= i < |es| ==> r[i] == es[i].value
  {
    if es == [] then [] else [es[0].value] + Values(es[1..])
  }

  /** A well-formed map: each key once, and each value stored under its own
      key. */
  predicate ValidEntries<K(==), T>(es: seq<Entry<K, T>>, trackBy: T -> K) {
    && (forall i, j :: 0 <= i < j < |es| ==> es[i].key != es[j].key)
    && (forall i :: 0 <= i < |es| ==> es[i].key == trackBy(es[i].value))
  }

  /** A well-formed selection: a well-formed map, at most one value in
      single mode, and a cache that is either dropped or the current
      values. */
  predicate Valid<K(==), T(==)>(m: Selection<K, T>, trackBy: T -> K) {
    && ValidEntries(m.entries, trackBy)
    && (!m.multiple ==> |m.entries| <= 1)
    && (m.cache.Some? ==> m.cache.value == Values(m.entries))
  }

  /** `isSelected(value)`: the value's key is in the map. */
  predicate IsSelected<K(==), T>(m: Selection<K, T>, trackBy: T -> K, value: T) {
    trackBy(value) in KeySet(m.entries)
  }

  /** `isEmpty()`: the map has size 0. */
  predicate IsEmpty<K, T>(m: Selection<K, T>) {
    |m.entries| == 0
  }

  /** `hasValue()`. */
  predicate HasValue<K, T>(m: Selection<K, T>) {
    !IsEmpty(m)
  }

  /** `isMultipleSelection()`. */
  predicate IsMultipleSelection<K, T>(m: Selection<K, T>) {
    m.multiple
  }

  /** A valid selection is empty exactly when no value is selected, and
      `hasValue` is its negation. */
  lemma EmptyIffNothingSelected<K, T(!new)>(m: Selection<K, T>, trackBy: T -> K)
    requires Valid(m, trackBy)
    ensures IsEmpty(m) <==> forall v :: !IsSelected(m, trackBy, v)
    ensures HasValue(m) <==> !IsEmpty(m)
  {
    if !IsEmpty(m) {
      assert IsSelected(m, trackBy, m.entries[0].value);
    }
  }

  lemma KeySetConcat<K, T>(a: seq<Entry<K, T>>, b: seq<Entry<K, T>>)
    ensures KeySet(a + b) == KeySet(a) + KeySet(b)
  {
    forall k | k in KeySet(a + b)
      ensures k in KeySet(a) + KeySet(b)
    {
      var i :| 0 <= i < |a + b| && (a + b)[i].key == k;
      if i < |a| {
        assert a[i].key == k;
      } else {
        assert b[i - |a|].key == k;
      }
    }
    forall k | k in KeySet(a) + KeySet(b)
      ensures k in KeySet(a + b)
    {
      if k in KeySet(a) {
        var i :| 0 <= i < |a| && a[i].key == k;
        assert (a + b)[i] == a[i];
      } else {
        var i :| 0 <= i < |b| && b[i].key == k;
        assert (a + b)[|a| + i] == b[i];
      }
    }
  }

  lemma KeySetEmpty<K, T>(es: seq<Entry<K, T>>)
    ensures KeySet(es) == {} <==> es == []
  {
    if es != [] {
      assert es[0].key in KeySet(es);
    }
  }

  lemma KeySetSingle<K, T>(e: Entry<K, T>)
    ensures KeySet([e]) == {e.key}
  {
    assert [e][0] == e;
  }

  lemma TrackedKeysSingle<K, T>(value: T, trackBy: T -> K)
    ensures TrackedKeys([value], trackBy) == {trackBy(value)}
  {
    assert [value][0] == value;
  }

  lemma TrackedKeysCons<K, T>(values: seq<T>, trackBy: T -> K)
    requires values != []
    ensures TrackedKeys(values, trackBy) == {trackBy(values[0])} + TrackedKeys(values[1..], trackBy)
  {
    forall k | k in TrackedKeys(values, trackBy)
      ensures k in {trackBy(values[0])} + TrackedKeys(values[1..], trackBy)
    {
      var i :| 0 <= i < |values| && trackBy(values[i]) == k;
      if i > 0 {
        assert values[1..][i - 1] == values[i];
      }
    }
    forall k | k in TrackedKeys(values[1..], trackBy)
      ensures k in TrackedKeys(values, trackBy)
    {
      var i :| 0 <= i < |values[1..]| && trackBy(values[1..][i]) == k;
      assert values[i + 1] == values[1..][i];
    }
  }

  // ---------------------------------------------------------------------
  // Private helpers, on the map
  // ---------------------------------------------------------------------

  /** `Map.delete(key)`: the entry goes, the others keep their order. */
  function Delete<K(==), T>(es: seq<Entry<K, T>>, key: K): (r: seq<Entry<K, T>>)
    ensures r == Seqs.Filter(es, (e: Entry<K, T>) => e.key != key)
    ensures |r| <= |es|
    ensures forall i :: 0 <= i < |r| ==> r[i] in es
  {
    if es == [] then []
    else (if es[0].key == key then [] else [es[0]]) + Delete(es[1..], key)
  }

  /** Deleting removes exactly the key. */
  lemma {:induction false} DeleteKeys<K, T>(es: seq<Entry<K, T>>, key: K)
    ensures KeySet(Delete(es, key)) == KeySet(es) - {key}
  {
    if es != [] {
      DeleteKeys(es[1..], key);
      var head := if es[0].key == key then [] else [es[0]];
      KeySetConcat(head, Delete(es[1..], key));
      KeySetConcat([es[0]], es[1..]);
      assert es == [es[0]] + es[1..];
    }
  }

  /** Putting an entry whose key is new in front of a well-formed map gives
      a well-formed map. */
  lemma ConsValid<K, T>(e: Entry<K, T>, rest: seq<Entry<K, T>>, trackBy: T -> K)
    requires ValidEntries(rest, trackBy) && e.key !in KeySet(rest) && e.key == trackBy(e.value)
    ensures ValidEntries([e] + rest, trackBy)
  {
    var r := [e] + rest;
    forall i, j | 0 <= i < j < |r| ensures r[i].key != r[j].key {
      assert r[j] == rest[j - 1];
      if i > 0 {
        assert r[i] == rest[i - 1];
      }
    }
  }

  /** Deleting keeps a well-formed map well formed. */
  lemma {:induction false} DeleteValid<K, T>(es: seq<Entry<K, T>>, trackBy: T -> K, key: K)
    ensures KeySet(Delete(es, key)) == KeySet(es) - {key}
    ensures ValidEntries(es, trackBy) ==> ValidEntries(Delete(es, key), trackBy)
  {
    DeleteKeys(es, key);
    if es != [] && ValidEntries(es, trackBy) {
      assert ValidEntries(es[1..], trackBy) by {
        forall i, j | 0 <= i < j < |es[1..]| ensures es[1..][i].key != es[1..][j].key {
          assert es[1..][i] == es[i + 1] && es[1..][j] == es[j + 1];
        }
      }
      DeleteValid(es[1..], trackBy, key);
      var rest := Delete(es[1..], key);
      if es[0].key != key {
        DeleteKeys(es[1..], key);
        forall k | k in KeySet(es[1..]) ensures k != es[0].key {
          var j :| 0 <= j < |es[1..]| && es[1..][j].key == k;
          assert es[j + 1].key == k;
        }
        ConsValid(es[0], rest, trackBy);
      }
    }
  }

  /** `_unmarkSelected(value)`. */
  function Unmark<K(==), T>(es: seq<Entry<K, T>>, trackBy: T -> K, value: T): seq<Entry<K, T>> {
    if trackBy(value) in KeySet(es) then Delete(es, trackBy(value)) else es
  }

  /** `_unmarkSelected` of each value in turn. */
  function UnmarkEach<K(==), T>(es: seq<Entry<K, T>>, trackBy: T -> K, values: seq<T>): seq<Entry<K, T>>
    decreases |values|
  {
    if values == [] then es else UnmarkEach(Unmark(es, trackBy, values[0]), trackBy, values[1..])
  }

  /** Unmarking some values removes exactly their keys and keeps a
      well-formed map well formed. */
  lemma {:induction false} UnmarkEachValid<K, T>(es: seq<Entry<K, T>>, trackBy: T -> K, values: seq<T>)
    ensures KeySet(UnmarkEach(es, trackBy, values)) == KeySet(es) - TrackedKeys(values, trackBy)
    ensures ValidEntries(es, trackBy) ==> ValidEntries(UnmarkEach(es, trackBy, values), trackBy)
    decreases |values|
  {
    if values != [] {
      var next := Unmark(es, trackBy, values[0]);
      DeleteValid(es, trackBy, trackBy(values[0]));
      assert KeySet(next) == KeySet(es) - {trackBy(values[0])};
      UnmarkEachValid(next, trackBy, values[1..]);
      TrackedKeysCons(values, trackBy);
    }
  }

  /** Unmarking some values keeps, in their order, exactly the entries
      whose key is not one of the values' keys. */
  lemma {:induction false} UnmarkEachFilters<K, T>(es: seq<Entry<K, T>>, trackBy: T -> K, values: seq<T>)
    ensures UnmarkEach(es, trackBy, values) == Seqs.Filter(es, (e: Entry<K, T>) => e.key !in TrackedKeys(values, trackBy))
    decreases |values|
  {
    if values == [] {
      Seqs.FilterAll(es, (e: Entry<K, T>) => e.key !in TrackedKeys(values, trackBy));
    } else {
      var k := trackBy(values[0]);
      var next := Unmark(es, trackBy, values[0]);
      assert next == Seqs.Filter(es, (e: Entry<K, T>) => e.key != k) by {
        if k !in KeySet(es) {
          Seqs.FilterAll(es, (e: Entry<K, T>) => e.key != k);
        }
      }
      UnmarkEachFilters(next, trackBy, values[1..]);
      TrackedKeysCons(values, trackBy);
      Seqs.FilterFilter(es, (e: Entry<K, T>) => e.key != k, (e: Entry<K, T>) => e.key !in TrackedKeys(values[1..], trackBy),
                        (e: Entry<K, T>) => e.key !in TrackedKeys(values, trackBy));
    }
  }

  /** Unmarking only ever removes stored entries. */
  lemma {:induction false} UnmarkEachSubset<K, T>(es: seq<Entry<K, T>>, trackBy: T -> K, values: seq<T>)
    ensures forall i :: 0 <= i < |UnmarkEach(es, trackBy, values)| ==> UnmarkEach(es, trackBy, values)[i] in es
    decreases |values|
  {
    if values != [] {
      var next := Unmark(es, trackBy, values[0]);
      UnmarkEachSubset(next, trackBy, values[1..]);
    }
  }

  /** `_unmarkAll()`: `_unmarkSelected` of every stored value, visiting the
      map in order while it shrinks. */
  function UnmarkAll<K(==), T>(es: seq<Entry<K, T>>, trackBy: T -> K): seq<Entry<K, T>> {
    if |es| == 0 then es else UnmarkEach(es, trackBy, Values(es))
  }

  /** In a well-formed map every stored value is unmarked under its own
      key, so nothing is left. */
  lemma UnmarkAllEmpties<K, T>(es: seq<Entry<K, T>>, trackBy: T -> K)
    requires ValidEntries(es, trackBy)
    ensures UnmarkAll(es, trackBy) == []
  {
    if es != [] {
      UnmarkEachValid(es, trackBy, Values(es));
      var r := UnmarkAll(es, trackBy);
      forall k | k in KeySet(es) ensures k in TrackedKeys(Values(es), trackBy) {
        var i :| 0 <= i < |es| && es[i].key == k;
        assert trackBy(Values(es)[i]) == k;
      }
      KeySetEmpty(r);
    }
  }

  /** `_markSelected(value)`: a value whose key is present changes nothing;
      otherwise, in single mode the map is emptied first, and the value is
      added at the end. */
  function Mark<K(==), T>(es: seq<Entry<K, T>>, multiple: bool, trackBy: T -> K, value: T): (r: seq<Entry<K, T>>)
    ensures trackBy(value) in KeySet(es) ==> r == es
  {
    if trackBy(value) in KeySet(es) then es
    else
      var base := if !multiple then UnmarkAll(es, trackBy) else es;
      base + [Entry(trackBy(value), value)]
  }

  /** `_markSelected` of each value in turn. */
  function MarkEach<K(==), T>(es: seq<Entry<K, T>>, multiple: bool, trackBy: T -> K, values: seq<T>): seq<Entry<K, T>>
    decreases |values|
  {
    if values == [] then es else MarkEach(Mark(es, multiple, trackBy, values[0]), multiple, trackBy, values[1..])
  }

  lemma MarkEachSingle<K, T>(es: seq<Entry<K, T>>, multiple: bool, trackBy: T -> K, value: T)
    ensures MarkEach(es, multiple, trackBy, [value]) == Mark(es, multiple, trackBy, value)
  {
    assert [value][1..] == [];
  }

  /** Appending an absent key to a well-formed map keeps it well formed. */
  lemma AppendValid<K, T>(es: seq<Entry<K, T>>, trackBy: T -> K, value: T)
    requires ValidEntries(es, trackBy) && trackBy(value) !in KeySet(es)
    ensures ValidEntries(es + [Entry(trackBy(value), value)], trackBy)
    ensures KeySet(es + [Entry(trackBy(value), value)]) == KeySet(es) + {trackBy(value)}
  {
    var e := Entry(trackBy(value), value);
    var r := es + [e];
    KeySetConcat(es, [e]);
    KeySetSingle(e);
    forall i, j | 0 <= i < j < |r| ensures r[i].key != r[j].key {
      if j == |es| {
        assert es[i].key in KeySet(es);
      } else {
        assert r[i] == es[i] && r[j] == es[j];
      }
    }
  }

  /** Marking keeps the map well formed and selects the value. In multiple
      mode it adds the value's key and nothing else, keeping the stored
      entries in order; in single mode the value's key is then the only
      one. */
  lemma MarkValid<K, T>(es: seq<Entry<K, T>>, multiple: bool, trackBy: T -> K, value: T)
    requires ValidEntries(es, trackBy) && (!multiple ==> |es| <= 1)
    ensures ValidEntries(Mark(es, multiple, trackBy, value), trackBy)
    ensures trackBy(value) in KeySet(Mark(es, multiple, trackBy, value))
    ensures multiple ==> KeySet(Mark(es, multiple, trackBy, value)) == KeySet(es) + {trackBy(value)}
    ensures multiple ==> es <= Mark(es, multiple, trackBy, value)
    ensures !multiple ==> |Mark(es, multiple, trackBy, value)| <= 1
  {
    var e := Entry(trackBy(value), value);
    if trackBy(value) !in KeySet(es) {
      if multiple {
        AppendValid(es, trackBy, value);
      } else {
        UnmarkAllEmpties(es, trackBy);
        assert Mark(es, multiple, trackBy, value) == [e];
        KeySetSingle(e);
      }
    } else if !multiple {
      assert |es| == 1;
    }
  }

  lemma {:induction false} MarkEachValid<K, T>(es: seq<Entry<K, T>>, multiple: bool, trackBy: T -> K, values: seq<T>)
    requires ValidEntries(es, trackBy) && (!multiple ==> |es| <= 1)
    ensures ValidEntries(MarkEach(es, multiple, trackBy, values), trackBy)
    ensures !multiple ==> |MarkEach(es, multiple, trackBy, values)| <= 1
    ensures multiple ==> KeySet(MarkEach(es, multiple, trackBy, values)) == KeySet(es) + TrackedKeys(values, trackBy)
    ensures multiple ==> es <= MarkEach(es, multiple, trackBy, values)
    decreases |values|
  {
    if values != [] {
      var next := Mark(es, multiple, trackBy, values[0]);
      MarkValid(es, multiple, trackBy, values[0]);
      MarkEachValid(next, multiple, trackBy, values[1..]);
      TrackedKeysCons(values, trackBy);
    }
  }

  // ---------------------------------------------------------------------
  // Public operations
  // ---------------------------------------------------------------------

  const MultipleValuesError := "Cannot pass multiple values into SelectionModelTrackBy with single-value mode."

  /** `_verifyValueAssignment`: several values are refused in single mode. */
  function VerifyValueAssignment<K, T>(m: Selection<K, T>, values: seq<T>): (r: Option<string>)
    ensures r.Some? <==> |values| > 1 && !m.multiple
  {
    if |values| > 1 && !m.multiple then Some(MultipleValuesError) else None
  }

  /** `select(...values)`: throws in single mode with several values;
      otherwise each value is marked and the cache is dropped. */
  function Select<K(==), T>(m: Selection<K, T>, trackBy: T -> K, values: seq<T>): (r: Result<Selection<K, T>, string>)
    ensures r.Failure? <==> |values| > 1 && !m.multiple
    ensures r.Success? ==> r.value.cache.None? && r.value.multiple == m.multiple
  {
    match VerifyValueAssignment(m, values)
    case Some(e) => Failure(e)
    case None => Success(Selection(MarkEach(m.entries, m.multiple, trackBy, values), m.multiple, None))
  }

  /** `deselect(...values)`: throws in single mode with several values;
      otherwise the keys of the values go, every other key stays. */
  function Deselect<K(==), T>(m: Selection<K, T>, trackBy: T -> K, values: seq<T>): (r: Result<Selection<K, T>, string>)
    ensures r.Failure? <==> |values| > 1 && !m.multiple
    ensures r.Success? ==> r.value.cache.None? && r.value.multiple == m.multiple
    ensures r.Success? ==> KeySet(r.value.entries) == KeySet(m.entries) - TrackedKeys(values, trackBy)
    ensures r.Success? ==> r.value.entries == Seqs.Filter(m.entries, (e: Entry<K, T>) => e.key !in TrackedKeys(values, trackBy))
  {
    match VerifyValueAssignment(m, values)
    case Some(e) => Failure(e)
    case None =>
      UnmarkEachValid(m.entries, trackBy, values);
      UnmarkEachFilters(m.entries, trackBy, values);
      Success(Selection(UnmarkEach(m.entries, trackBy, values), m.multiple, None))
  }

  /** `toggle(value)`: deselect a selected value, select an unselected one;
      one value never throws. */
  function Toggle<K(==), T>(m: Selection<K, T>, trackBy: T -> K, value: T): (r: Selection<K, T>)
    ensures r.cache.None? && r.multiple == m.multiple
  {
    if IsSelected(m, trackBy, value) then Deselect(m, trackBy, [value]).value
    else Select(m, trackBy, [value]).value
  }

  /** `clear()`: in a well-formed map, nothing is left. */
  function Clear<K(==), T>(m: Selection<K, T>, trackBy: T -> K): (r: Selection<K, T>)
    ensures r.cache.None? && r.multiple == m.multiple
    ensures ValidEntries(m.entries, trackBy) ==> IsEmpty(r) && KeySet(r.entries) == {}
  {
    var r := Selection(UnmarkAll(m.entries, trackBy), m.multiple, None);
    assert ValidEntries(m.entries, trackBy) ==> r.entries == [] by {
      if ValidEntries(m.entries, trackBy) {
        UnmarkAllEmpties(m.entries, trackBy);
      }
    }
    r
  }

  /** The `selected` getter: the cached array, or the map's values, which
      are then cached. */
  function Selected<K, T>(m: Selection<K, T>): (r: (seq<T>, Selection<K, T>))
    ensures r.1.entries == m.entries && r.1.multiple == m.multiple
    ensures r.1.cache == Some(r.0)
  {
    match m.cache
    case Some(c) => (c, m)
    case None => (Values(m.entries), m.(cache := Some(Values(m.entries))))
  }

  /** The constructor: every initial value in multiple mode, only the first
      one in single mode. */
  function New<K(==), T>(trackBy: T -> K, multiple: bool, initial: seq<T>): (r: Selection<K, T>)
    ensures r.multiple == multiple && r.cache.None?
  {
    if initial == [] then Selection([], multiple, None)
    else if multiple then Selection(MarkEach([], true, trackBy, initial), true, None)
    else Selection(Mark([], false, trackBy, initial[0]), false, None)
  }

  // ---------------------------------------------------------------------
  // Properties
  // ---------------------------------------------------------------------

  /** A successful select keeps the selection valid, so in single mode at
      most one value is stored afterwards. In multiple mode the stored
      entries are kept, in order, and exactly the values' keys are added. */
  lemma SelectValid<K, T>(m: Selection<K, T>, trackBy: T -> K, values: seq<T>)
    requires Valid(m, trackBy) && Select(m, trackBy, values).Success?
    ensures Valid(Select(m, trackBy, values).value, trackBy)
    ensures !m.multiple ==> |Select(m, trackBy, values).value.entries| <= 1
    ensures m.multiple ==> m.entries <= Select(m, trackBy, values).value.entries
    ensures m.multiple ==> KeySet(Select(m, trackBy, values).value.entries) == KeySet(m.entries) + TrackedKeys(values, trackBy)
  {
    MarkEachValid(m.entries, m.multiple, trackBy, values);
  }

  /** In single mode, selecting an unselected value leaves it as the only
      stored value. */
  lemma SelectSingleReplaces<K, T>(m: Selection<K, T>, trackBy: T -> K, value: T)
    requires Valid(m, trackBy) && !m.multiple && !IsSelected(m, trackBy, value)
    ensures Select(m, trackBy, [value]).value.entries == [Entry(trackBy(value), value)]
  {
    MarkEachSingle(m.entries, m.multiple, trackBy, value);
    UnmarkAllEmpties(m.entries, trackBy);
  }

  /** Selecting a value whose key is present changes neither the stored
      values nor their order. */
  lemma SelectPresentKeepsStored<K, T>(m: Selection<K, T>, trackBy: T -> K, value: T)
    requires IsSelected(m, trackBy, value)
    ensures Select(m, trackBy, [value]).value.entries == m.entries
  {
    MarkEachSingle(m.entries, m.multiple, trackBy, value);
  }

  /** A successful deselect keeps the selection valid. */
  lemma DeselectValid<K, T>(m: Selection<K, T>, trackBy: T -> K, values: seq<T>)
    requires Valid(m, trackBy) && Deselect(m, trackBy, values).Success?
    ensures Valid(Deselect(m, trackBy, values).value, trackBy)
  {
    UnmarkEachValid(m.entries, trackBy, values);
    if !m.multiple && |m.entries| == 1 {
      assert |values| <= 1;
      if values != [] {
        assert [values[0]][1..] == [];
        assert values == [values[0]];
        DeleteValid(m.entries, trackBy, trackBy(values[0]));
      }
    }
  }

  /** A successful deselect keeps only entries that were stored before. */
  lemma DeselectKeepsStored<K, T>(m: Selection<K, T>, trackBy: T -> K, values: seq<T>)
    requires Deselect(m, trackBy, values).Success?
    ensures forall i :: 0 <= i < |Deselect(m, trackBy, values).value.entries| ==> Deselect(m, trackBy, values).value.entries[i] in m.entries
  {
    UnmarkEachSubset(m.entries, trackBy, values);
  }

  /** `toggle` flips `isSelected(value)` and keeps the selection valid; in
      multiple mode no other key changes. */
  lemma ToggleFlips<K, T>(m: Selection<K, T>, trackBy: T -> K, value: T)
    requires Valid(m, trackBy)
    ensures IsSelected(Toggle(m, trackBy, value), trackBy, value) == !IsSelected(m, trackBy, value)
    ensures Valid(Toggle(m, trackBy, value), trackBy)
    ensures m.multiple ==> KeySet(Toggle(m, trackBy, value).entries) - {trackBy(value)} == KeySet(m.entries) - {trackBy(value)}
  {
    MarkEachSingle(m.entries, m.multiple, trackBy, value);
    TrackedKeysSingle(value, trackBy);
    if IsSelected(m, trackBy, value) {
      DeselectValid(m, trackBy, [value]);
    } else {
      SelectValid(m, trackBy, [value]);
      MarkValid(m.entries, m.multiple, trackBy, value);
    }
  }

  /** Reading `selected` from a valid selection yields the stored values in
      insertion order, and caching them keeps the selection valid. */
  lemma SelectedReflectsEntries<K, T>(m: Selection<K, T>, trackBy: T -> K)
    requires Valid(m, trackBy)
    ensures Selected(m).0 == Values(m.entries)
    ensures Valid(Selected(m).1, trackBy)
  {
  }

  /** The constructor selects every initial value in multiple mode and only
      the first one in single mode, and the result is valid. */
  lemma NewSelects<K, T>(trackBy: T -> K, multiple: bool, initial: seq<T>)
    ensures Valid(New(trackBy, multiple, initial), trackBy)
    ensures multiple ==> KeySet(New(trackBy, multiple, initial).entries) == TrackedKeys(initial, trackBy)
    ensures !multiple && initial != [] ==> New(trackBy, multiple, initial).entries == [Entry(trackBy(initial[0]), initial[0])]
    ensures initial == [] ==> IsEmpty(New(trackBy, multiple, initial))
  {
    if initial != [] {
      if multiple {
        MarkEachValid([], true, trackBy, initial);
        assert KeySet<K, T>([]) == {};
      } else {
        assert UnmarkAll<K, T>([], trackBy) == [];
      }
    }
  }
}
