/** The dev-mode route: `toggle` adds a module name to the stored dev-mode list or removes
    it, and reports which it did. */
module DevModeRoutes {
  import opened Wrappers
  import opened Seqs

  datatype ToggleResponse = ToggleResponse(success: bool, isDevMode: bool)

  /** The list a toggle writes back to the dev-mode document, and its answer. */
  datatype ToggleOutcome = ToggleOutcome(written: seq<string>, response: ToggleResponse)

  /** `i` is the position of the first occurrence of `x` in `l`. */
  predicate FirstOccurrence(l: seq<string>, x: string, i: int) {
    0 <= i < |l| && l[i] == x && x !in l[..i]
  }

  /** `toggle`: None when the request body is rejected (an empty module name). Otherwise
      the stored list (empty when there is none) gets the name appended when absent, or
      loses the name's first occurrence when present. */
  function Toggle(stored: Option<seq<string>>, moduleName: string): (r: Option<ToggleOutcome>)
    ensures r.None? <==> moduleName == ""
    ensures r.Some? ==> r.value.response.success
    ensures r.Some? && moduleName !in stored.GetOr([]) ==>
      r.value.written == stored.GetOr([]) + [moduleName] && r.value.response.isDevMode
    ensures r.Some? && moduleName in stored.GetOr([]) ==>
      && !r.value.response.isDevMode
      && exists i :: FirstOccurrence(stored.GetOr([]), moduleName, i) && r.value.written == RemoveAt(stored.GetOr([]), i)
  {
    if moduleName == "" then None
    else
      var modules := stored.GetOr([]);
      var index := IndexOf(modules, moduleName);
      if index == -1 then
        Some(ToggleOutcome(modules + [moduleName], ToggleResponse(true, true)))
      else
        assert FirstOccurrence(modules, moduleName, index);
        Some(ToggleOutcome(RemoveAt(modules, index), ToggleResponse(true, false)))
  }

  /** Toggling an absent name twice restores the stored list exactly. */
  lemma ToggleTwiceRestores(l: seq<string>, name: string)
    requires name != "" && name !in l
    ensures
      var once := Toggle(Some(l), name).value;
      var twice := Toggle(Some(once.written), name).value;
      once.response.isDevMode && !twice.response.isDevMode && twice.written == l
  {
    var once := Toggle(Some(l), name).value;
    assert once.written == l + [name];
    assert FirstOccurrence(l + [name], name, |l|);
    var twice := Toggle(Some(once.written), name).value;
    var i :| FirstOccurrence(once.written, name, i) && twice.written == RemoveAt(once.written, i);
    assert twice.written == l;
  }

  /** The test that keeps every name except `name`. */
  function Others(name: string): string -> bool {
    y => y != name
  }

  lemma AppendKeepsOthers(l: seq<string>, name: string)
    ensures Filter(l + [name], Others(name)) == Filter(l, Others(name))
  {
    FilterAppend(l, [name], Others(name));
    FilterSingle(name, Others(name));
  }

  lemma RemoveKeepsOthers(l: seq<string>, name: string, i: nat)
    requires i < |l| && l[i] == name
    ensures Filter(RemoveAt(l, i), Others(name)) == Filter(l, Others(name))
  {
    var f := Others(name);
    assert l == (l[..i] + [name]) + l[i + 1..];
    FilterAppend(l[..i] + [name], l[i + 1..], f);
    AppendKeepsOthers(l[..i], name);
    FilterAppend(l[..i], l[i + 1..], f);
  }

  /** Every other name keeps its place relative to the rest. */
  lemma ToggleKeepsOthers(stored: Option<seq<string>>, name: string)
    requires name != ""
    ensures Filter(Toggle(stored, name).value.written, Others(name)) == Filter(stored.GetOr([]), Others(name))
  {
    var l := stored.GetOr([]);
    if name !in l {
      AppendKeepsOthers(l, name);
    } else {
      RemoveKeepsOthers(l, name, IndexOf(l, name));
    }
  }

  /** On a duplicate-free list, a toggle keeps the list duplicate-free, flips the name's
      membership, and reports the membership it leaves behind. */
  lemma ToggleFlipsMembership(l: seq<string>, name: string)
    requires name != "" && NoDup(l)
    ensures
      var r := Toggle(Some(l), name).value;
      && NoDup(r.written)
      && (name in r.written <==> name !in l)
      && (r.response.isDevMode <==> name in r.written)
  {
    var r := Toggle(Some(l), name).value;
    if name in l {
      var i :| FirstOccurrence(l, name, i) && r.written == RemoveAt(l, i);
      forall j | 0 <= j < |r.written| ensures r.written[j] != name {
        if j < i {
          assert r.written[j] == l[j];
        } else {
          assert r.written[j] == l[j + 1];
        }
      }
    } else {
      assert r.written == l + [name];
    }
  }

  /** On an empty store, the first toggle of a name enables dev mode and the second
      disables it, leaving the list empty again. */
  lemma ToggleScenario()
    ensures Toggle(None, "x").value == ToggleOutcome(["x"], ToggleResponse(true, true))
    ensures Toggle(Some(["x"]), "x").value == ToggleOutcome([], ToggleResponse(true, false))
  {
    assert FirstOccurrence(["x"], "x", 0);
  }
}
