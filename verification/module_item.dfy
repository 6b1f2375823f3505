/** One card of the Modules page: the module's translation key, its author line, and
    which chips and menu entries it shows. */
module ModuleItem {
  import opened Wrappers
  import opened Strings
  import opened Packages
  import opened DevModeRoutes
  import opened ModulesRoutes

  /** The module's translation namespace: its package name with the first "@lifeforge/"
      removed. None when the module has no name, where the card cannot render. */
  function ModuleKey(name: Option<string>): (k: Option<string>)
    ensures k.None? <==> name.None?
    ensures name.Some? && (forall j :: !OccursAt(name.value, Scope, j)) ==> k == name
    ensures forall d :: name == Some(Scope + d) ==> k == Some(d)
    ensures forall i :: name.Some? && OccursAt(name.value, Scope, i) && (forall j :: 0 <= j < i ==> !OccursAt(name.value, Scope, j)) ==>
      k == Some(name.value[..i] + name.value[i + |Scope|..])
  {
    match name
    case None => None
    case Some(n) =>
      var r := ReplaceFirst(n, Scope, "");
      forall i | OccursAt(n, Scope, i) && (forall j :: 0 <= j < i ==> !OccursAt(n, Scope, j))
        ensures r == n[..i] + n[i + |Scope|..]
      {
        assert n[..i] + "" + n[i + |Scope|..] == n[..i] + n[i + |Scope|..];
      }
      assert forall d :: n == Scope + d ==> r == d by {
        forall d | n == Scope + d ensures r == d {
          assert OccursAt(n, Scope, 0);
        }
      }
      Some(r)
  }

  /** The key of a scoped package is the rest of its name. */
  lemma ModuleKeyOfScoped(d: string)
    ensures ModuleKey(Some(Scope + d)) == Some(d)
  {
  }

  /** The author line: nothing for an empty author; otherwise the part before the first
      '<' (the e-mail address), trimmed. */
  function AuthorLabel(author: string): (r: Option<string>)
    ensures r.None? <==> author == ""
    ensures r.Some? ==> '<' !in r.value
    ensures r.Some? && |r.value| > 0 ==> !IsWhitespace(r.value[0]) && !IsWhitespace(r.value[|r.value| - 1])
    ensures r.Some? ==> exists i :: TrimmedAt(BeforeFirst(author, '<'), r.value, i)
    ensures r.Some? ==> r.value == Trim(BeforeFirst(author, '<'))
  {
    if author == "" then None
    else
      var name := BeforeFirst(author, '<');
      var r := Trim(name);
      var i :| TrimmedAt(name, r, i);
      NotInInfix(name, r, i, '<');
      Some(r)
  }

  /** The usual `Name <address>` form, with any white space around the name: the line
      shows exactly the name. */
  lemma AuthorNameOnly(pre: string, name: string, post: string, address: string)
    requires forall j :: 0 <= j < |pre| ==> IsWhitespace(pre[j])
    requires forall j :: 0 <= j < |post| ==> IsWhitespace(post[j])
    requires |name| > 0 ==> !IsWhitespace(name[0]) && !IsWhitespace(name[|name| - 1])
    requires '<' !in pre + name + post
    ensures AuthorLabel(pre + name + post + "<" + address) == Some(name)
  {
    var padded := pre + name + post;
    var author := padded + "<" + address;
    BeforeFirstUpTo(padded, '<', address);
    assert InfixAt(padded, name, |pre|) by {
      assert padded[|pre|..|pre| + |name|] == name;
    }
    assert TrimmedAt(padded, name, |pre|);
    TrimUnique(padded, name, |pre|);
  }

  /** An author without an address is shown trimmed. */
  lemma AuthorWithoutAddress(author: string)
    requires author != "" && '<' !in author
    ensures AuthorLabel(author) == Some(Trim(author))
  {
    var b := BeforeFirst(author, '<');
    assert b == author;
  }

  /** The "dev mode" chip shows for a module in dev mode while the client runs in
      development. */
  function ShowsDevChip(m: InstalledModule, client: string): (b: bool)
    ensures b <==> m.isDevMode && DevModeMenu(m, client).Some?
    ensures b ==> DevModeMenu(m, client) == Some(MenuItem("tabler:code-off", "devMode.disable"))
  {
    m.isDevMode && client == "development"
  }

  /** The "not built" chip shows when the module has no client bundle. */
  predicate ShowsNotBuiltChip(m: InstalledModule) {
    !m.hasClientDist
  }

  datatype MenuItem = MenuItem(icon: string, caption: string)

  /** The dev-mode menu entry: present only in development, offering to disable dev mode
      for a module in it and to enable it otherwise. */
  function DevModeMenu(m: InstalledModule, client: string): (r: Option<MenuItem>)
    ensures r.Some? <==> client == "development"
    ensures r.Some? && m.isDevMode ==> r.value == MenuItem("tabler:code-off", "devMode.disable")
    ensures r.Some? && !m.isDevMode ==> r.value == MenuItem("tabler:code", "devMode.enable")
  {
    if client != "development" then None
    else if m.isDevMode then Some(MenuItem("tabler:code-off", "devMode.disable"))
    else Some(MenuItem("tabler:code", "devMode.enable"))
  }

  /** The confirmation asks to enable dev mode exactly when the module is not in it. */
  function IsEnabling(m: InstalledModule): (b: bool)
    ensures b <==> DevModeMenu(m, "development") == Some(MenuItem("tabler:code", "devMode.enable"))
  {
    !m.isDevMode
  }

  /** A listed module's menu and confirmation agree with what the toggle then does: the
      toggle sends the module's name, and reports dev mode on exactly when the dialog
      asked to enable it. */
  lemma ToggleMatchesMenu(raw: RawPackage, devs: seq<string>, hasClientDist: bool)
    requires raw.name.Some? && raw.name.value != ""
    ensures
      var m := Summary(raw, devs, hasClientDist);
      Toggle(Some(devs), m.name.value).value.response.isDevMode == IsEnabling(m)
  {
  }

  /** The chips of a listed module: "not built" exactly when its directory has no bundle,
      and "dev mode" exactly in development when its package name is in the dev-mode list. */
  lemma ListedChips(e: DirEntry, devs: seq<string>, env: Env, client: string)
    requires IsCandidate(e) && Readable(e.packageFile)
    ensures ShowsNotBuiltChip(ListEntry(e, devs, env).value) <==> !BundleExists(e, env)
    ensures ShowsDevChip(ListEntry(e, devs, env).value, client) <==>
      client == "development" && ListEntry(e, devs, env).value.name.Some? && ListEntry(e, devs, env).value.name.value in devs
  {
  }

  /** Unless in development, a module in dev mode shows no dev chip and no dev menu, so it
      cannot be toggled from the page. */
  lemma NoDevControlsOutsideDevelopment(m: InstalledModule, client: string)
    requires client != "development"
    ensures !ShowsDevChip(m, client) && DevModeMenu(m, client).None?
  {
  }
}
