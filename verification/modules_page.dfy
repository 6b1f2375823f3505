/** The Modules page: installed modules grouped under their categories, and the
    translated name shown for each category. */
module ModulesPage {
  import opened Wrappers
  import opened Seqs
  import opened Strings
  import opened AssocList
  import opened Packages
  import opened CategoriesRoutes

  /** The group a module is shown in: its category, or "Miscellaneous" when empty. */
  function GroupKey(m: InstalledModule): (k: string)
    ensures k != ""
    ensures m.category != "" ==> k == m.category
    ensures m.category == "" ==> k == "Miscellaneous"
  {
    if m.category != "" then m.category else "Miscellaneous"
  }

  function GroupKeys(mods: seq<InstalledModule>): (ks: seq<string>)
    ensures |ks| == |mods|
    ensures forall i :: 0 <= i < |mods| ==> ks[i] == GroupKey(mods[i])
  {
    seq(|mods|, i requires 0 <= i < |mods| => GroupKey(mods[i]))
  }

  /** The test selecting the modules of group `k`. */
  function InGroup(k: string): InstalledModule -> bool {
    m => GroupKey(m) == k
  }

  type Groups = Assoc<string, seq<InstalledModule>>

  /** One step of the grouping loop: push `last` onto the group of its key. */
  function Push(g: Groups, last: InstalledModule): Groups {
    var k := GroupKey(last);
    Assign(g, k, Get(g, k).GetOr([]) + [last])
  }

  /** The grouping loop over `mods`: each module is pushed onto its group's array, the
      array being created on the group's first module. */
  function Group(mods: seq<InstalledModule>): (g: Groups)
    ensures DistinctKeys(g)
    ensures Keys(g) == Dedup(GroupKeys(mods))
    ensures forall k :: k in Keys(g) ==> Get(g, k).value == Filter(mods, InGroup(k))
  {
    if |mods| == 0 then []
    else
      var prefix := mods[..|mods| - 1];
      var last := mods[|mods| - 1];
      var prev := Group(prefix);
      PushKeys(mods, prev);
      PushValues(mods, prev);
      Push(prev, last)
  }

  lemma PushKeys(mods: seq<InstalledModule>, prev: Groups)
    requires |mods| > 0 && Keys(prev) == Dedup(GroupKeys(mods[..|mods| - 1]))
    ensures Keys(Push(prev, mods[|mods| - 1])) == Dedup(GroupKeys(mods))
  {
    var prefix := mods[..|mods| - 1];
    var last := mods[|mods| - 1];
    assert GroupKeys(mods)[..|mods| - 1] == GroupKeys(prefix);
    assert GroupKeys(mods)[|mods| - 1] == GroupKey(last);
    var k := GroupKey(last);
    if k !in Keys(prev) {
      KeysAppend(prev, [(k, [last])]);
    }
  }

  lemma PushValues(mods: seq<InstalledModule>, prev: Groups)
    requires |mods| > 0 && Keys(prev) == Dedup(GroupKeys(mods[..|mods| - 1]))
    requires forall k :: k in Keys(prev) ==> Get(prev, k).value == Filter(mods[..|mods| - 1], InGroup(k))
    ensures forall j :: j in Keys(Push(prev, mods[|mods| - 1])) ==>
      Get(Push(prev, mods[|mods| - 1]), j).value == Filter(mods, InGroup(j))
  {
    var prefix := mods[..|mods| - 1];
    var last := mods[|mods| - 1];
    assert mods == prefix + [last];
    var k := GroupKey(last);
    var g := Push(prev, last);
    forall j | j in Keys(g) ensures Get(g, j).value == Filter(mods, InGroup(j)) {
      FilterAppend(prefix, [last], InGroup(j));
      FilterSingle(last, InGroup(j));
      if j == k && k !in Keys(prev) {
        NoneInGroup(prefix, k);
      }
    }
  }

  /** A key that is no module's key selects no module. */
  lemma NoneInGroup(mods: seq<InstalledModule>, k: string)
    requires k !in Dedup(GroupKeys(mods))
    ensures Filter(mods, InGroup(k)) == []
  {
  }

  /** `groupedModules`: no groups before the list has loaded. */
  function GroupModules(data: Option<seq<InstalledModule>>): (g: Groups)
    ensures data.None? ==> g == []
    ensures data.Some? ==> g == Group(data.value)
  {
    match data
    case None => []
    case Some(mods) => Group(mods)
  }

  /** How many modules the groups hold in all. */
  function Total(g: Groups): nat {
    if |g| == 0 then 0 else |g[0].1| + Total(g[1..])
  }

  lemma TotalAppend(a: Groups, b: Groups)
    ensures Total(a + b) == Total(a) + Total(b)
  {
    if |a| == 0 {
      assert a + b == b;
    } else {
      assert (a + b)[1..] == a[1..] + b;
      TotalAppend(a[1..], b);
    }
  }

  lemma {:induction false} TotalReplace(g: Groups, k: string, v: seq<InstalledModule>)
    requires DistinctKeys(g) && k in Keys(g)
    ensures Total(Replace(g, k, v)) + |Get(g, k).value| == Total(g) + |v|
  {
    KeysCons(g);
    NoDupCons(g[0].0, Keys(g[1..]));
    var r := Replace(g, k, v);
    assert r[1..] == Replace(g[1..], k, v);
    if g[0].0 == k {
      assert Replace(g[1..], k, v) == g[1..];
    } else {
      TotalReplace(g[1..], k, v);
    }
  }

  /** A push adds exactly one module to the groups. */
  lemma TotalPush(g: Groups, m: InstalledModule)
    requires DistinctKeys(g)
    ensures Total(Push(g, m)) == Total(g) + 1
  {
    var k := GroupKey(m);
    if k in Keys(g) {
      TotalReplace(g, k, Get(g, k).value + [m]);
    } else {
      assert Get(g, k).GetOr([]) + [m] == [m];
      TotalAppend(g, [(k, [m])]);
      assert Total([(k, [m])]) == 1;
    }
  }

  /** Every module is counted once: the groups hold as many modules as the list. */
  lemma {:induction false} GroupTotal(mods: seq<InstalledModule>)
    ensures Total(Group(mods)) == |mods|
  {
    if |mods| > 0 {
      var prefix := mods[..|mods| - 1];
      GroupTotal(prefix);
      TotalPush(Group(prefix), mods[|mods| - 1]);
    }
  }

  /** Each module sits in the group of its own key and in no other group. */
  lemma ModuleInOneGroup(mods: seq<InstalledModule>, i: nat)
    requires i < |mods|
    ensures GroupKey(mods[i]) in Keys(Group(mods))
    ensures mods[i] in Get(Group(mods), GroupKey(mods[i])).value
    ensures forall k :: k in Keys(Group(mods)) && k != GroupKey(mods[i]) ==> mods[i] !in Get(Group(mods), k).value
  {
    var g := Group(mods);
    var k := GroupKey(mods[i]);
    assert GroupKeys(mods)[i] == k;
    assert k in Keys(g);
    assert mods[i] in mods && InGroup(k)(mods[i]);
    assert mods[i] in Filter(mods, InGroup(k));
  }

  /** Listed modules always carry a category, so each is grouped under its own one. */
  lemma ListedModulesGroupByCategory(mods: seq<InstalledModule>)
    requires forall i :: 0 <= i < |mods| ==> mods[i].category != ""
    ensures forall i :: 0 <= i < |mods| ==> GroupKey(mods[i]) == mods[i].category
  {
  }

  /** `getCategoryName`: the label for `language` in the translations stored under the
      lowered category, when both exist and the label is non-empty; the category itself
      otherwise. */
  function GetCategoryName(t: Translations, category: string, language: string): (name: string)
    ensures Get(t, Lower(category)).Some? && Truthy(Get(Get(t, Lower(category)).value, language)) ==>
      name == Get(Get(t, Lower(category)).value, language).value
    ensures Get(t, Lower(category)).None? || !Truthy(Get(Get(t, Lower(category)).value, language)) ==>
      name == category
  {
    match Get(t, Lower(category))
    case None => category
    case Some(translations) => OrElse(Get(translations, language), category)
  }

  /** A category whose lowered key has no translations is shown under its own name. */
  lemma UntranslatedShowsItself(t: Translations, category: string, language: string)
    requires Lower(category) !in Keys(t)
    ensures GetCategoryName(t, category, language) == category
  {
  }

  /** A non-empty label stored under the lowered category is what the page shows. */
  lemma TranslatedShowsLabel(t: Translations, category: string, language: string, text: string, value: Assoc<string, string>)
    requires text != "" && Get(value, language) == Some(text)
    requires Get(t, Lower(category)) == Some(value)
    ensures GetCategoryName(t, category, language) == text
  {
  }
}
