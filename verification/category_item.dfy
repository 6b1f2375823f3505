/** One row of the Categories page: deleting the category, editing it, and the spacing
    classes of its translation labels. */
module CategoryItem {
  import opened Wrappers
  import opened Seqs
  import opened AssocList
  import opened CategoriesRoutes
  import opened CategoriesPage

  /** `handleDelete`: a copy of the document without the row's key. The other entries
      keep their values and their order. */
  function HandleDelete(t: Translations, key: string): (r: Translations)
    ensures key !in Keys(r)
    ensures forall k :: k != key ==> Get(r, k) == Get(t, k)
    ensures key !in Keys(t) ==> r == t
    ensures forall i :: DistinctKeys(t) && KeyAt(t, key, i) ==> r == RemoveAt(t, i)
  {
    var r := Delete(t, key);
    assert key !in Keys(t) ==> r == t by {
      if key !in Keys(t) {
        DeleteAbsent(t, key);
      }
    }
    forall i | DistinctKeys(t) && KeyAt(t, key, i) ensures r == RemoveAt(t, i) {
      DeleteAt(t, i);
    }
    r
  }

  /** The edit action: the modal's result is handed to `handleModify` with the row's own
      key as the old key, so a renamed category loses its old key. */
  function EditSubmit(t: Translations, key: string, newKey: string, newValue: Assoc<string, string>): (r: Translations)
    ensures Get(r, newKey) == Some(newValue)
    ensures key != "" && key != newKey ==> key !in Keys(r)
    ensures forall k :: k != newKey && k != key ==> Get(r, k) == Get(t, k)
  {
    HandleModify(t, newKey, newValue, Some(key))
  }

  /** Renaming a category keeps every other category and adds the new key at the end. */
  lemma RenameAppends(t: Translations, key: string, newKey: string, newValue: Assoc<string, string>)
    requires key != "" && newKey != key && newKey !in Keys(t)
    ensures EditSubmit(t, key, newKey, newValue) == Delete(t, key) + [(newKey, newValue)]
  {
  }

  /** The spacing class of the label at `index` in a row of `count` labels: right padding
      for the first, left padding for the last, both for the others. */
  function SeparatorClass(index: nat, count: nat): (c: string)
    ensures index == 0 ==> c == "pr-2"
    ensures index != 0 && index == count - 1 ==> c == "pl-2"
    ensures index != 0 && index != count - 1 ==> c == "px-2"
  {
    if index == 0 then "pr-2"
    else if index == count - 1 then "pl-2"
    else "px-2"
  }

  /** The classes of a whole row of labels, left to right. */
  function SeparatorClasses(count: nat): (cs: seq<string>)
    ensures |cs| == count
  {
    seq(count, i requires 0 <= i < count => SeparatorClass(i, count))
  }

  /** A row of one label pads it on the right only; a longer row pads the first on the
      right, the last on the left and every label between on both sides. */
  lemma SeparatorRow(count: nat)
    ensures count == 1 ==> SeparatorClasses(count) == ["pr-2"]
    ensures count >= 2 ==> SeparatorClasses(count) == ["pr-2"] + seq(count - 2, _ => "px-2") + ["pl-2"]
  {
    if count >= 2 {
      var cs := SeparatorClasses(count);
      var expected := ["pr-2"] + seq(count - 2, _ => "px-2") + ["pl-2"];
      forall i | 0 <= i < count ensures cs[i] == expected[i] {
        if 0 < i < count - 1 {
          assert expected[i] == seq(count - 2, _ => "px-2")[i - 1];
        }
      }
    }
  }
}
