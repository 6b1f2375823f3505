/** The Categories page: which category keys still lack translations, editing one
    category's translations, and reordering categories by drag and drop. */
module CategoriesPage {
  import opened Wrappers
  import opened Seqs
  import opened Strings
  import opened AssocList
  import opened Packages
  import opened CategoriesRoutes

  /** The lowered categories of every module item, minus the system categories (compared
      lowered too). `groups` holds, per module group, its items' categories. */
  function ModuleCategoryKeys(groups: seq<seq<string>>, system: seq<string>): seq<string> {
    var lowSystem := LowerAll(system);
    Filter(LowerAll(Flatten(groups)), key => key !in lowSystem)
  }

  /** Some item of some module group has category `c` once lowered. */
  predicate UsedCategory(groups: seq<seq<string>>, k: string) {
    exists i, j :: 0 <= i < |groups| && 0 <= j < |groups[i]| && Lower(groups[i][j]) == k
  }

  lemma ModuleCategoryKeysMembers(groups: seq<seq<string>>, system: seq<string>, k: string)
    ensures k in ModuleCategoryKeys(groups, system) <==> UsedCategory(groups, k) && k !in LowerAll(system)
  {
    var flat := Flatten(groups);
    if k in LowerAll(flat) {
      var n :| 0 <= n < |flat| && LowerAll(flat)[n] == k;
      assert flat[n] in flat;
      var i :| 0 <= i < |groups| && flat[n] in groups[i];
      var j :| 0 <= j < |groups[i]| && groups[i][j] == flat[n];
    }
    if UsedCategory(groups, k) {
      var i, j :| 0 <= i < |groups| && 0 <= j < |groups[i]| && Lower(groups[i][j]) == k;
      assert groups[i][j] in flat;
      var n :| 0 <= n < |flat| && flat[n] == groups[i][j];
      assert LowerAll(flat)[n] == k;
    }
  }

  /** `missingKeys`: the known category keys that have no translations, each once. A key
      is missing exactly when some module uses it (lowered), it is not a system category,
      and the document has no entry for it: document values are objects, so any entry
      counts as translated. */
  function MissingKeys(t: Translations, groups: seq<seq<string>>, system: seq<string>): (r: seq<string>)
    ensures NoDup(r)
    ensures forall k :: k in r <==> k !in Keys(t) && k !in LowerAll(system) && UsedCategory(groups, k)
  {
    var allKeys := Dedup(Keys(t) + ModuleCategoryKeys(groups, system));
    var r := Filter(allKeys, key => key !in Keys(t));
    NoDupFilter(allKeys, key => key !in Keys(t));
    forall k ensures k in r <==> k !in Keys(t) && k !in LowerAll(system) && UsedCategory(groups, k) {
      ModuleCategoryKeysMembers(groups, system, k);
    }
    r
  }

  /** `handleModify`: on a copy of the document, deletes `oldKey` when it is a non-empty
      string, then assigns the new value to the new key. */
  function HandleModify(t: Translations, newKey: string, newValue: Assoc<string, string>, oldKey: Option<string>): (r: Translations)
    ensures Get(r, newKey) == Some(newValue)
    ensures Truthy(oldKey) && oldKey.value != newKey ==> oldKey.value !in Keys(r)
    ensures forall k :: k != newKey && !(Truthy(oldKey) && k == oldKey.value) ==> Get(r, k) == Get(t, k)
    ensures forall k :: k in Keys(r) <==> k == newKey || (k in Keys(t) && !(Truthy(oldKey) && k == oldKey.value))
    ensures DistinctKeys(t) ==> DistinctKeys(r)
    ensures Truthy(oldKey) && (newKey == oldKey.value || newKey !in Keys(t)) ==>
      Keys(r) == Filter(Keys(t), Other(oldKey.value)) + [newKey]
    ensures Truthy(oldKey) && newKey != oldKey.value && newKey in Keys(t) ==>
      Keys(r) == Filter(Keys(t), Other(oldKey.value))
    ensures !Truthy(oldKey) && newKey !in Keys(t) ==> Keys(r) == Keys(t) + [newKey]
    ensures !Truthy(oldKey) && newKey in Keys(t) ==> Keys(r) == Keys(t)
  {
    var pruned := if Truthy(oldKey) then Delete(t, oldKey.value) else t;
    assert Truthy(oldKey) ==> Keys(pruned) == Filter(Keys(t), Other(oldKey.value)) by {
      if Truthy(oldKey) {
        DeleteKeys(t, oldKey.value);
      }
    }
    assert DistinctKeys(t) ==> DistinctKeys(pruned) by {
      if Truthy(oldKey) && DistinctKeys(t) {
        DeleteDistinct(t, oldKey.value);
      }
    }
    var r := Assign(pruned, newKey, newValue);
    assert newKey !in Keys(pruned) ==> Keys(r) == Keys(pruned) + [newKey] by {
      if newKey !in Keys(pruned) {
        KeysAppend(pruned, [(newKey, newValue)]);
      }
    }
    forall k ensures k in Keys(r) <==> k == newKey || k in Keys(pruned) {
      assert Get(r, k).Some? <==> k in Keys(r);
      assert Get(pruned, k).Some? <==> k in Keys(pruned);
    }
    r
  }

  /** Saving an existing category under its own key deletes it and adds it back, so it
      moves to the end of the display order. */
  lemma EditMovesCategoryLast(t: Translations, key: string, value: Assoc<string, string>)
    requires key != ""
    ensures HandleModify(t, key, value, Some(key)) == Delete(t, key) + [(key, value)]
  {
  }

  /** Creating a category under a key that already exists overwrites it in place. */
  lemma CreateOverExistingKeepsOrder(t: Translations, key: string, value: Assoc<string, string>)
    requires key in Keys(t)
    ensures Keys(HandleModify(t, key, value, None)) == Keys(t)
  {
  }

  datatype DragOutcome = NoChange | Reordered(items: Translations, sent: Translations)

  /** Entry `i` of `items` has key `id`. */
  predicate KeyAt(items: Translations, id: string, i: int) {
    0 <= i < |items| && items[i].0 == id
  }

  lemma KeyAtUnique(items: Translations, id: string, i: int)
    requires DistinctKeys(items) && KeyAt(items, id, i)
    ensures i == IndexOf(Keys(items), id)
  {
    var n := IndexOf(Keys(items), id);
    assert Keys(items)[i] == id;
  }

  /** `moved` is `items` with the entry at `from` moved to `to`: it sits at `to`, and
      without it both sequences list the other entries in the same order. */
  predicate MovedTo(items: Translations, moved: Translations, from: int, to: int) {
    && 0 <= from < |items| && 0 <= to < |moved|
    && moved[to] == items[from]
    && RemoveAt(moved, to) == RemoveAt(items, from)
  }

  /** Moving an entry keeps the keys distinct, so rebuilding an object from the moved
      entries gives them back in the same order. */
  lemma MoveKeepsDistinct(items: Translations, from: nat, to: nat)
    requires DistinctKeys(items) && from < |items| && to < |items|
    ensures DistinctKeys(ArrayMove(items, from, to))
    ensures FromEntries(ArrayMove(items, from, to)) == ArrayMove(items, from, to)
  {
    KeysArrayMove(items, from, to);
    NoDupArrayMove(Keys(items), from, to);
    FromEntriesOfDistinct(ArrayMove(items, from, to));
  }

  /** `handleDragEnd`: nothing happens without a drop target or when an item is dropped
      on itself; otherwise the dragged entry moves to the target's position and the
      reordered entries, rebuilt into an object, are sent as the new document. The
      sortable ids are the entries' keys, so both ids are keys. */
  function HandleDragEnd(items: Translations, activeId: string, overId: Option<string>): (r: DragOutcome)
    requires DistinctKeys(items)
    requires activeId in Keys(items)
    requires overId.Some? ==> overId.value in Keys(items)
    ensures r.NoChange? <==> overId.None? || overId.value == activeId
    ensures r.Reordered? ==> |r.items| == |items| && multiset(r.items) == multiset(items) && DistinctKeys(r.items) && r.sent == r.items
    ensures r.Reordered? ==> forall from, to :: KeyAt(items, activeId, from) && KeyAt(items, overId.value, to) ==>
      MovedTo(items, r.items, from, to)
  {
    if overId.None? || overId.value == activeId then NoChange
    else
      var oldIndex := IndexOf(Keys(items), activeId);
      var newIndex := IndexOf(Keys(items), overId.value);
      var newItems := ArrayMove(items, oldIndex, newIndex);
      MoveKeepsDistinct(items, oldIndex, newIndex);
      assert MovedTo(items, newItems, oldIndex, newIndex);
      forall from, to | KeyAt(items, activeId, from) && KeyAt(items, overId.value, to)
        ensures MovedTo(items, newItems, from, to)
      {
        KeyAtUnique(items, activeId, from);
        KeyAtUnique(items, overId.value, to);
      }
      Reordered(newItems, FromEntries(newItems))
  }

  lemma MoveFirstToLast(a: Assoc<string, string>, b: Assoc<string, string>, c: Assoc<string, string>)
    ensures ArrayMove([("food", a), ("work", b), ("life", c)], 0, 2) == [("work", b), ("life", c), ("food", a)]
  {
    var items := [("food", a), ("work", b), ("life", c)];
    var r := ArrayMove(items, 0, 2);
    assert RemoveAt(items, 0) == [("work", b), ("life", c)];
    assert r == RemoveAt(r, 2) + [r[2]];
  }

  lemma ThreeKeys(a: Assoc<string, string>, b: Assoc<string, string>, c: Assoc<string, string>)
    ensures Keys([("food", a), ("work", b), ("life", c)]) == ["food", "work", "life"]
    ensures IndexOf(["food", "work", "life"], "food") == 0
    ensures IndexOf(["food", "work", "life"], "life") == 2
  {
    assert Keys([("food", a), ("work", b), ("life", c)]) == ["food", "work", "life"];
    assert "life" !in ["food", "work", "life"][..2];
  }

  /** Dragging the first of three categories onto the last puts it last. */
  lemma DragScenario(a: Assoc<string, string>, b: Assoc<string, string>, c: Assoc<string, string>)
    ensures
      var items := [("food", a), ("work", b), ("life", c)];
      && Keys(items) == ["food", "work", "life"]
      && HandleDragEnd(items, "food", Some("life")) == Reordered([("work", b), ("life", c), ("food", a)], [("work", b), ("life", c), ("food", a)])
  {
    var items := [("food", a), ("work", b), ("life", c)];
    ThreeKeys(a, b, c);
    MoveFirstToLast(a, b, c);
  }
}
