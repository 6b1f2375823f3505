/** The module routes: `manifest` (two scans concatenated), `list` (the operator's view of
    the installed modules) and `uninstall` (delegated to an external command). */
module ModulesRoutes {
  import opened Wrappers
  import opened Seqs
  import opened Packages
  import opened Scan

  /** URL prefixes of the installed and the internal module bundles. */
  const AppsUrlPrefix := "/modules"
  const InternalUrlPrefix := "/internal-modules"

  /** The stored dev-mode document read as a list; a missing document reads as empty. */
  function DevModeList(stored: Option<seq<string>>): (l: seq<string>)
    ensures stored.None? ==> l == []
    ensures stored.Some? ==> l == stored.value
  {
    stored.GetOr([])
  }

  /** The arguments of the first scan: installed modules, with the dev-mode list. */
  function InstalledConfig(stored: Option<seq<string>>, env: Env, validate: Validator): ScanConfig {
    ScanConfig(false, AppsUrlPrefix, Some(DevModeList(stored)), env, validate)
  }

  /** The arguments of the second scan: internal modules, with no dev-mode list. */
  function InternalConfig(env: Env, validate: Validator): ScanConfig {
    ScanConfig(true, InternalUrlPrefix, None, env, validate)
  }

  /** The first `k` entries are installed modules and the rest internal ones, each with the
      URL prefix of its kind; internal entries are never in dev mode. */
  predicate InstalledThenInternal(r: seq<ManifestEntry>, k: int) {
    && 0 <= k <= |r|
    && (forall i :: 0 <= i < k ==>
          !r[i].isInternal && r[i].remoteEntryUrl == RemoteEntryUrl(AppsUrlPrefix, r[i].name))
    && (forall i :: k <= i < |r| ==>
          r[i].isInternal && !r[i].isDevMode && r[i].remoteEntryUrl == RemoteEntryUrl(InternalUrlPrefix, r[i].name))
  }

  /** `manifest`: the installed modules' scan followed by the internal modules' scan. */
  function Manifest(appsDir: Directory, internalDir: Directory, stored: Option<seq<string>>, env: Env, validate: Validator)
    : (r: seq<ManifestEntry>)
    ensures exists k :: (
      && InstalledThenInternal(r, k)
      && r[..k] == ScanEntries(EntriesOf(appsDir), InstalledConfig(stored, env, validate))
      && r[k..] == ScanEntries(EntriesOf(internalDir), InternalConfig(env, validate)))
    ensures forall i :: 0 <= i < |r| && r[i].isInternal ==>
      exists j :: 0 <= j < |EntriesOf(internalDir)|
        && EntriesOf(internalDir)[j].name == r[i].name && BundleExists(EntriesOf(internalDir)[j], env)
    ensures appsDir.Absent? && internalDir.Absent? ==> r == []
  {
    var installed := ScanFederatedModules(appsDir, [], InstalledConfig(stored, env, validate));
    var r := ScanFederatedModules(internalDir, installed, InternalConfig(env, validate));
    ScansJoined(appsDir, internalDir, stored, env, validate);
    JoinedInternalBuilt(appsDir, internalDir, stored, env, validate);
    r
  }

  /** The two scans, run one after the other, split at the end of the first. */
  lemma ScansJoined(appsDir: Directory, internalDir: Directory, stored: Option<seq<string>>, env: Env, validate: Validator)
    ensures var installed := ScanFederatedModules(appsDir, [], InstalledConfig(stored, env, validate));
      var r := ScanFederatedModules(internalDir, installed, InternalConfig(env, validate));
      && InstalledThenInternal(r, |installed|)
      && r[..|installed|] == ScanEntries(EntriesOf(appsDir), InstalledConfig(stored, env, validate))
      && r[|installed|..] == ScanEntries(EntriesOf(internalDir), InternalConfig(env, validate))
  {
    var cfg := InstalledConfig(stored, env, validate);
    var icfg := InternalConfig(env, validate);
    var installed := ScanFederatedModules(appsDir, [], cfg);
    var r := ScanFederatedModules(internalDir, installed, icfg);
    assert installed == ScanEntries(EntriesOf(appsDir), cfg);
    assert r == installed + ScanEntries(EntriesOf(internalDir), icfg);
    assert forall i :: 0 <= i < |installed| ==> r[i] == installed[i];
  }

  /** Every internal entry of the joined scans names an internal directory with a bundle. */
  lemma JoinedInternalBuilt(appsDir: Directory, internalDir: Directory, stored: Option<seq<string>>, env: Env, validate: Validator)
    ensures var installed := ScanFederatedModules(appsDir, [], InstalledConfig(stored, env, validate));
      var r := ScanFederatedModules(internalDir, installed, InternalConfig(env, validate));
      forall i :: 0 <= i < |r| && r[i].isInternal ==>
        exists j :: 0 <= j < |EntriesOf(internalDir)|
          && EntriesOf(internalDir)[j].name == r[i].name && BundleExists(EntriesOf(internalDir)[j], env)
  {
    var cfg := InstalledConfig(stored, env, validate);
    var icfg := InternalConfig(env, validate);
    var installed := ScanFederatedModules(appsDir, [], cfg);
    var r := ScanFederatedModules(internalDir, installed, icfg);
    ScanEntriesInternal(EntriesOf(appsDir), cfg);
    assert forall i :: 0 <= i < |installed| ==> !r[i].isInternal;
    forall i | 0 <= i < |r| && r[i].isInternal
      ensures exists j :: (0 <= j < |EntriesOf(internalDir)|
        && EntriesOf(internalDir)[j].name == r[i].name && BundleExists(EntriesOf(internalDir)[j], env))
    {
      var j :| 0 <= j < |EntriesOf(internalDir)| && ScanEntry(EntriesOf(internalDir)[j], icfg) == Some(r[i]);
      InternalEligibleIff(EntriesOf(internalDir)[j], env, validate);
    }
  }

  /** What the internal scan emits: the entry of every internal directory with a built
      bundle, and only those. */
  lemma InternalScanMembers(internal: seq<DirEntry>, env: Env, validate: Validator)
    ensures forall j :: 0 <= j < |internal| && InternalEligible(internal[j], env, validate) ==>
      ScanEntry(internal[j], InternalConfig(env, validate)).value in ScanEntries(internal, InternalConfig(env, validate))
    ensures forall m :: m in ScanEntries(internal, InternalConfig(env, validate)) ==>
      exists j :: 0 <= j < |internal| && InternalEligible(internal[j], env, validate)
        && ScanEntry(internal[j], InternalConfig(env, validate)) == Some(m)
  {
    var icfg := InternalConfig(env, validate);
    forall j | 0 <= j < |internal| && InternalEligible(internal[j], env, validate)
      ensures ScanEntry(internal[j], icfg).value in ScanEntries(internal, icfg)
    {
      InternalEligibleIff(internal[j], env, validate);
    }
    forall m | m in ScanEntries(internal, icfg)
      ensures exists j :: 0 <= j < |internal| && InternalEligible(internal[j], env, validate) && ScanEntry(internal[j], icfg) == Some(m)
    {
      var j :| 0 <= j < |internal| && ScanEntry(internal[j], icfg) == Some(m);
      InternalEligibleIff(internal[j], env, validate);
    }
  }

  /** An internal module is loadable exactly when it is a visible directory whose package
      passes the schema and whose bundle is built: no dev-mode list reaches the internal
      scan. */
  predicate InternalEligible(e: DirEntry, env: Env, validate: Validator) {
    IsCandidate(e) && Validated(e, validate).Some? && BundleExists(e, env)
  }

  lemma InternalEligibleIff(e: DirEntry, env: Env, validate: Validator)
    ensures Eligible(e, InternalConfig(env, validate)) <==> InternalEligible(e, env, validate)
  {
  }

  /** The manifest is the installed scan followed by the internal scan. */
  lemma ManifestSplit(appsDir: Directory, internalDir: Directory, stored: Option<seq<string>>, env: Env, validate: Validator)
    ensures Manifest(appsDir, internalDir, stored, env, validate) ==
      ScanEntries(EntriesOf(appsDir), InstalledConfig(stored, env, validate)) + ScanEntries(EntriesOf(internalDir), InternalConfig(env, validate))
  {
    var r := Manifest(appsDir, internalDir, stored, env, validate);
    var k :| (
      && InstalledThenInternal(r, k)
      && r[..k] == ScanEntries(EntriesOf(appsDir), InstalledConfig(stored, env, validate))
      && r[k..] == ScanEntries(EntriesOf(internalDir), InternalConfig(env, validate)));
    assert r == r[..k] + r[k..];
  }

  /** Which installed modules the manifest holds: the entry of every installed directory
      the scan accepts, and no other installed module. */
  lemma ManifestInstalledMembers(appsDir: Directory, internalDir: Directory, stored: Option<seq<string>>, env: Env, validate: Validator)
    ensures var r := Manifest(appsDir, internalDir, stored, env, validate);
      var cfg := InstalledConfig(stored, env, validate);
      forall j :: 0 <= j < |EntriesOf(appsDir)| && Eligible(EntriesOf(appsDir)[j], cfg) ==>
        ScanEntry(EntriesOf(appsDir)[j], cfg).value in r
    ensures var r := Manifest(appsDir, internalDir, stored, env, validate);
      var cfg := InstalledConfig(stored, env, validate);
      forall m :: m in r && !m.isInternal ==>
        exists j :: 0 <= j < |EntriesOf(appsDir)| && Eligible(EntriesOf(appsDir)[j], cfg) && ScanEntry(EntriesOf(appsDir)[j], cfg) == Some(m)
  {
    var cfg := InstalledConfig(stored, env, validate);
    var icfg := InternalConfig(env, validate);
    var installed := ScanEntries(EntriesOf(appsDir), cfg);
    var added := ScanEntries(EntriesOf(internalDir), icfg);
    ManifestSplit(appsDir, internalDir, stored, env, validate);
    ScanEntriesInternal(EntriesOf(internalDir), icfg);
  }

  /** Which internal modules the manifest holds: the entry of every internal directory
      with a built bundle, and no other internal module. */
  lemma ManifestInternalMembers(appsDir: Directory, internalDir: Directory, stored: Option<seq<string>>, env: Env, validate: Validator)
    ensures var r := Manifest(appsDir, internalDir, stored, env, validate);
      forall j :: 0 <= j < |EntriesOf(internalDir)| && InternalEligible(EntriesOf(internalDir)[j], env, validate) ==>
        ScanEntry(EntriesOf(internalDir)[j], InternalConfig(env, validate)).value in r
    ensures var r := Manifest(appsDir, internalDir, stored, env, validate);
      forall m :: m in r && m.isInternal ==>
        exists j :: 0 <= j < |EntriesOf(internalDir)| && InternalEligible(EntriesOf(internalDir)[j], env, validate)
          && ScanEntry(EntriesOf(internalDir)[j], InternalConfig(env, validate)) == Some(m)
  {
    var cfg := InstalledConfig(stored, env, validate);
    var icfg := InternalConfig(env, validate);
    var internal := EntriesOf(internalDir);
    var installed := ScanEntries(EntriesOf(appsDir), cfg);
    var added := ScanEntries(internal, icfg);
    ManifestSplit(appsDir, internalDir, stored, env, validate);
    ScanEntriesInternal(EntriesOf(appsDir), cfg);
    InternalScanMembers(internal, env, validate);
  }

  function IconOf(raw: RawPackage): Option<string> {
    if raw.lifeforge.Some? then raw.lifeforge.value.icon else None
  }

  function CategoryOf(raw: RawPackage): Option<string> {
    if raw.lifeforge.Some? then raw.lifeforge.value.category else None
  }

  /** The summary `list` builds from a package file's fields, with its per-field defaults. */
  function Summary(raw: RawPackage, devModeModules: seq<string>, hasClientDist: bool): (m: InstalledModule)
    ensures m.name == raw.name
    ensures m.displayName == (if Truthy(raw.displayName) then raw.displayName else raw.name)
    ensures m.version == OrElse(raw.version, "0.0.0") && m.version != ""
    ensures m.description == OrElse(raw.description, "")
    ensures m.author == OrElse(raw.author, "")
    ensures m.icon == OrElse(IconOf(raw), "tabler:package") && m.icon != ""
    ensures m.category == OrElse(CategoryOf(raw), "Miscellaneous") && m.category != ""
    ensures !m.isInternal && m.hasClientDist == hasClientDist
    ensures m.isDevMode <==> raw.name.Some? && raw.name.value in devModeModules
  {
    InstalledModule(
      raw.name,
      if Truthy(raw.displayName) then raw.displayName else raw.name,
      OrElse(raw.version, "0.0.0"),
      OrElse(raw.description, ""),
      OrElse(raw.author, ""),
      OrElse(IconOf(raw), "tabler:package"),
      OrElse(CategoryOf(raw), "Miscellaneous"),
      false,
      raw.name.Some? && raw.name.value in devModeModules,
      hasClientDist)
  }

  /** The package file parses to a value whose fields can be read: anything but `null`
      (field access on a number, string or array yields `undefined`). */
  predicate Readable(f: PackageFile) {
    f.JsonObject? || f.JsonNonObject?
  }

  /** One iteration of the `list` loop: the summary pushed for `e`, or None when skipped. */
  function ListEntry(e: DirEntry, devModeModules: seq<string>, env: Env): (r: Option<InstalledModule>)
    ensures r.Some? <==> IsCandidate(e) && Readable(e.packageFile)
    ensures r.Some? ==> r.value.hasClientDist == BundleExists(e, env) && !r.value.isInternal
    ensures r.Some? ==> (r.value.isDevMode <==> r.value.name.Some? && r.value.name.value in devModeModules)
  {
    if !IsCandidate(e) then None
    else
      match e.packageFile
      case NoPackageFile => None
      case Unparseable => None
      case JsonNull => None
      case JsonNonObject => Some(Summary(NoFields, devModeModules, BundleExists(e, env)))
      case JsonObject(raw) => Some(Summary(raw, devModeModules, BundleExists(e, env)))
  }

  /** The summaries the `list` loop pushes for a listing, in listing order. */
  function ListEntries(es: seq<DirEntry>, devModeModules: seq<string>, env: Env): (r: seq<InstalledModule>)
    ensures |r| <= |es|
    ensures forall m :: m in r <==> exists j :: 0 <= j < |es| && ListEntry(es[j], devModeModules, env) == Some(m)
  {
    Collect(es, e => ListEntry(e, devModeModules, env))
  }

  lemma ListSingle(e: DirEntry, devModeModules: seq<string>, env: Env)
    ensures ListEntries([e], devModeModules, env) == ToSeq(ListEntry(e, devModeModules, env))
  {
    CollectSingle(e, e => ListEntry(e, devModeModules, env));
  }

  lemma ListOrder(es: seq<DirEntry>, i: nat, devModeModules: seq<string>, env: Env)
    requires i < |es|
    ensures ListEntries(es, devModeModules, env) ==
      ListEntries(es[..i], devModeModules, env) + ToSeq(ListEntry(es[i], devModeModules, env)) + ListEntries(es[i + 1..], devModeModules, env)
  {
    assert es == es[..i] + [es[i]] + es[i + 1..];
    CollectAround(es[..i], es[i], es[i + 1..], e => ListEntry(e, devModeModules, env));
  }

  /** `list`: a summary of every installed module directory with a readable package file,
      built or not. */
  function ListInstalled(appsDir: Directory, stored: Option<seq<string>>, env: Env): (r: seq<InstalledModule>)
    ensures appsDir.Absent? ==> r == []
    ensures appsDir.Listing? ==> r == ListEntries(appsDir.entries, DevModeList(stored), env)
    ensures |r| <= |EntriesOf(appsDir)|
    ensures forall m :: m in r <==>
      exists j :: 0 <= j < |EntriesOf(appsDir)| && ListEntry(EntriesOf(appsDir)[j], DevModeList(stored), env) == Some(m)
    ensures forall i :: 0 <= i < |r| ==>
      !r[i].isInternal && r[i].version != "" && r[i].icon != "" && r[i].category != ""
  {
    match appsDir
    case Absent => []
    case Listing(es) =>
      var devs := DevModeList(stored);
      var r := ListEntries(es, devs, env);
      forall i | 0 <= i < |r|
        ensures !r[i].isInternal && r[i].version != "" && r[i].icon != "" && r[i].category != ""
      {
        assert r[i] in r;
        var j :| 0 <= j < |es| && ListEntry(es[j], devs, env) == Some(r[i]);
      }
      r
  }

  /** The list reads only the package's own display fields: members it does not read
      (such as `lifeforge.APIKeyAccess`, which only the package schema checks) cannot
      change a directory's summary. */
  lemma ListIgnoresOtherMembers(e: DirEntry, raw: RawPackage, others: seq<(string, Json)>, devModeModules: seq<string>, env: Env)
    requires e.packageFile == JsonObject(raw)
    ensures ListEntry(e.(packageFile := JsonObject(raw.(others := others))), devModeModules, env) == ListEntry(e, devModeModules, env)
    ensures raw.lifeforge.Some? ==>
      var section := raw.lifeforge.value.(others := others);
      ListEntry(e.(packageFile := JsonObject(raw.(lifeforge := Some(section)))), devModeModules, env) == ListEntry(e, devModeModules, env)
  {
  }

  /** Every directory the manifest's installed scan emits is also listed, and its summary
      says it is built or in dev mode. */
  lemma ManifestEntriesAreListed(e: DirEntry, stored: Option<seq<string>>, env: Env, validate: Validator)
    requires Eligible(e, InstalledConfig(stored, env, validate))
    ensures ListEntry(e, DevModeList(stored), env).Some?
    ensures ListEntry(e, DevModeList(stored), env).value.hasClientDist || !IsProduction(env)
  {
  }

  /** A module with a valid package file but no bundle, outside dev mode, is hidden from the
      manifest yet listed with `hasClientDist = false`. */
  lemma UnbuiltHiddenButListed(e: DirEntry, stored: Option<seq<string>>, env: Env, validate: Validator)
    requires IsCandidate(e) && Validated(e, validate).Some?
    requires !BundleExists(e, env) && !InDevMode(e.name, InstalledConfig(stored, env, validate))
    ensures ScanEntry(e, InstalledConfig(stored, env, validate)).None?
    ensures ListEntry(e, DevModeList(stored), env).Some?
    ensures !ListEntry(e, DevModeList(stored), env).value.hasClientDist
  {
  }

  /** When the package is named `@lifeforge/<directory name>`, the list's dev-mode flag
      agrees with the manifest's outside production. */
  lemma DevModeFlagsAgree(e: DirEntry, raw: RawPackage, stored: Option<seq<string>>, env: Env, validate: Validator)
    requires IsCandidate(e) && e.packageFile == JsonObject(raw)
    requires raw.name == Some(Scope + e.name) && !IsProduction(env)
    ensures ListEntry(e, DevModeList(stored), env).value.isDevMode == InDevMode(e.name, InstalledConfig(stored, env, validate))
  {
  }

  /** As written, the two views match dev mode on different names: a package named after
      its directory without the scope is in dev mode for `list` but is not exempted from
      the bundle gate by the scan. */
  lemma DevModeNamesDiverge()
    ensures
      var raw := RawPackage(Some("wallet"), None, None, None, None, None, []);
      var e := DirEntry("wallet", true, JsonObject(raw), {});
      var env := Env(None, None);
      var validate: Validator := _ => Some(Descriptor("Wallet", "1.0.0", "", "", "tabler:wallet", "finance", None));
      && ListEntry(e, ["wallet"], env).value.isDevMode
      && ScanEntry(e, InstalledConfig(Some(["wallet"]), env, validate)).None?
  {
    var e := DirEntry("wallet", true, JsonObject(RawPackage(Some("wallet"), None, None, None, None, None, [])), {});
    assert Scope + e.name != "wallet";
  }

  /** The package schema of the three-module scenario: it requires a name. */
  function ScenarioSchema(raw: RawPackage): Option<Descriptor> {
    if raw.name.Some? then Some(Descriptor("Module", "1.0.0", "", "", "tabler:package", "tools", None)) else None
  }

  /** The scenario of three installed modules: `a` valid and built, `b` rejected by the
      schema for lacking a name, `c` valid but unbuilt and not in dev mode. The manifest
      holds only `a`. */
  lemma ScenarioManifest(a: DirEntry, b: DirEntry, c: DirEntry)
    requires a == DirEntry("a", true, JsonObject(RawPackage(Some("@lifeforge/a"), None, None, None, None, None, [])), {"dist"})
    requires b == DirEntry("b", true, JsonObject(NoFields), {"dist"})
    requires c == DirEntry("c", true, JsonObject(RawPackage(Some("@lifeforge/c"), None, None, None, None, None, [])), {})
    ensures
      var manifest := Manifest(Listing([a, b, c]), Absent, None, Env(Some("production"), None), ScenarioSchema);
      |manifest| == 1 && manifest[0].name == "a"
  {
    var env := Env(Some("production"), None);
    var cfg := InstalledConfig(None, env, ScenarioSchema);
    var es := [a, b, c];
    assert ScanEntry(b, cfg).None?;
    assert ScanEntry(c, cfg).None?;
    var sa := ScanEntry(a, cfg);
    assert sa.Some? && sa.value.name == "a";
    assert es[..1] == [a] && es[2..] == [c];
    ScanOrder(es, 1, cfg);
    ScanOrder([a], 0, cfg);
    ScanOrder([c], 0, cfg);
    assert [a][..0] == [] && [a][1..] == [] && [c][..0] == [] && [c][1..] == [];
    assert ScanEntries([], cfg) == [];
    assert ScanEntries([c], cfg) == [];
    assert ScanEntries([a], cfg) == [sa.value];
    assert ScanEntries(es, cfg) == [sa.value];
    var installed := ScanFederatedModules(Listing(es), [], cfg);
    assert installed == [sa.value];
    assert Manifest(Listing(es), Absent, None, env, ScenarioSchema) == installed;
  }

  lemma ListInstalledOfListing(es: seq<DirEntry>, stored: Option<seq<string>>, env: Env)
    ensures ListInstalled(Listing(es), stored, env) == ListEntries(es, DevModeList(stored), env)
  {
  }

  lemma ListOfThree(a: DirEntry, b: DirEntry, c: DirEntry, devModeModules: seq<string>, env: Env)
    ensures ListEntries([a, b, c], devModeModules, env) ==
      ToSeq(ListEntry(a, devModeModules, env)) + ToSeq(ListEntry(b, devModeModules, env)) + ToSeq(ListEntry(c, devModeModules, env))
  {
    var es := [a, b, c];
    assert es[..1] == [a] && es[2..] == [c];
    ListOrder(es, 1, devModeModules, env);
    ListSingle(a, devModeModules, env);
    ListSingle(c, devModeModules, env);
  }

  /** The summary `list` pushes for a directory whose package file is a JSON object. */
  lemma ListedObject(e: DirEntry, devModeModules: seq<string>, env: Env)
    requires IsCandidate(e) && e.packageFile.JsonObject?
    ensures ListEntry(e, devModeModules, env) == Some(Summary(e.packageFile.raw, devModeModules, BundleExists(e, env)))
  {
  }

  /** The same three modules as the list sees them: it does not apply the schema, so it
      holds all three, with `c` flagged as not built. */
  lemma ScenarioList(a: DirEntry, b: DirEntry, c: DirEntry)
    requires a == DirEntry("a", true, JsonObject(RawPackage(Some("@lifeforge/a"), None, None, None, None, None, [])), {"dist"})
    requires b == DirEntry("b", true, JsonObject(NoFields), {"dist"})
    requires c == DirEntry("c", true, JsonObject(RawPackage(Some("@lifeforge/c"), None, None, None, None, None, [])), {})
    ensures
      var list := ListInstalled(Listing([a, b, c]), None, Env(Some("production"), None));
      && |list| == 3
      && list[0].name == Some("@lifeforge/a") && list[1].name == None && list[2].name == Some("@lifeforge/c")
      && list[0].hasClientDist && !list[2].hasClientDist
  {
    var env := Env(Some("production"), None);
    ScenarioSummaries(a, b, c);
    ListInstalledOfListing([a, b, c], None, env);
  }

  lemma ScenarioSummaries(a: DirEntry, b: DirEntry, c: DirEntry)
    requires a.isDir && a.name == "a" && a.packageFile.JsonObject? && a.bundles == {"dist"}
    requires b.isDir && b.name == "b" && b.packageFile.JsonObject? && b.bundles == {"dist"}
    requires c.isDir && c.name == "c" && c.packageFile.JsonObject? && c.bundles == {}
    ensures
      var env := Env(Some("production"), None);
      ListEntries([a, b, c], [], env) ==
        [Summary(a.packageFile.raw, [], true), Summary(b.packageFile.raw, [], true), Summary(c.packageFile.raw, [], false)]
  {
    var env := Env(Some("production"), None);
    assert DistDir(env) == "dist";
    ListedObject(a, [], env);
    ListedObject(b, [], env);
    ListedObject(c, [], env);
    ListOfThree(a, b, c, [], env);
  }

  /** What running the external uninstall command produced. */
  datatype ExecOutcome =
    | ExitedCleanly
    | ThrewError(message: string)   // a non-zero exit or spawn failure, thrown as an Error
    | ThrewOther                    // something that is not an Error was thrown

  datatype UninstallResponse = UninstallResponse(success: bool, error: Option<string>)

  /** The shell command that uninstalls a module. */
  function UninstallCommand(moduleName: string): string {
    "bun forge modules uninstall " + moduleName
  }

  /** `uninstall`: None when the request body is rejected (an empty module name); otherwise
      the command's outcome, with failures reported rather than thrown. */
  function Uninstall(moduleName: string, run: string -> ExecOutcome): (r: Option<UninstallResponse>)
    ensures r.None? <==> moduleName == ""
    ensures r.Some? ==> (r.value.success <==> run(UninstallCommand(moduleName)).ExitedCleanly?)
    ensures r.Some? && r.value.success ==> r.value.error.None?
    ensures r.Some? && !r.value.success ==> r.value.error.Some?
    ensures r.Some? && run(UninstallCommand(moduleName)).ThrewOther? ==> r.value.error == Some("Uninstall failed")
  {
    if moduleName == "" then None
    else
      match run(UninstallCommand(moduleName))
      case ExitedCleanly => Some(UninstallResponse(true, None))
      case ThrewError(message) => Some(UninstallResponse(false, Some(message)))
      case ThrewOther => Some(UninstallResponse(false, Some("Uninstall failed")))
  }
}
