/** `scanFederatedModules`: walks one root directory and appends a manifest entry for
    every module directory that is usable at runtime. */
module Scan {
  import opened Wrappers
  import opened Seqs
  import opened Packages

  /** The arguments of one scan besides the directory and the list appended to. */
  datatype ScanConfig = ScanConfig(
    isInternal: bool,
    urlPrefix: string,
    devModeModules: Option<seq<string>>,
    env: Env,
    validate: Validator)

  /** Dev mode as the scan decides it: outside production, and the scoped name
      `@lifeforge/<directory name>` is in the dev-mode list, when a list is given. */
  predicate InDevMode(dirName: string, c: ScanConfig) {
    !IsProduction(c.env) && c.devModeModules.Some? && Scope + dirName in c.devModeModules.value
  }

  /** The URL the runtime loader fetches a module's remote entry from. */
  function RemoteEntryUrl(urlPrefix: string, dirName: string): string {
    urlPrefix + "/" + dirName + "/assets/remoteEntry.js"
  }

  /** The descriptor of an entry's package file, when it parses to an object the schema accepts. */
  function Validated(e: DirEntry, validate: Validator): Option<Descriptor> {
    match e.packageFile
    case JsonObject(raw) => validate(raw)
    case _ => None
  }

  /** The condition under which the scan emits an entry. */
  predicate Eligible(e: DirEntry, c: ScanConfig) {
    && IsCandidate(e)
    && Validated(e, c.validate).Some?
    && (BundleExists(e, c.env) || InDevMode(e.name, c))
  }

  /** The manifest entry carries the descriptor's data. */
  predicate CarriesDescriptor(m: ManifestEntry, d: Descriptor) {
    && m.displayName == d.displayName && m.version == d.version
    && m.description == d.description && m.author == d.author
    && m.icon == d.icon && m.category == d.category
    && m.apiKeyAccess == d.apiKeyAccess
  }

  /** One iteration of the scan loop: the entry pushed for `e`, or None when it is skipped. */
  function ScanEntry(e: DirEntry, c: ScanConfig): (r: Option<ManifestEntry>)
    ensures r.Some? <==> Eligible(e, c)
    ensures r.Some? ==>
      && r.value.name == e.name
      && r.value.remoteEntryUrl == RemoteEntryUrl(c.urlPrefix, e.name)
      && r.value.isInternal == c.isInternal
      && r.value.isDevMode == InDevMode(e.name, c)
      && CarriesDescriptor(r.value, Validated(e, c.validate).value)
  {
    if !IsCandidate(e) then None
    else
      var isDevMode := InDevMode(e.name, c);
      match e.packageFile
      case NoPackageFile => None
      case Unparseable => None
      case JsonNull => None
      case JsonNonObject => None
      case JsonObject(raw) =>
        match c.validate(raw)
        case None => None
        case Some(d) =>
          if !BundleExists(e, c.env) && !isDevMode then None
          else
            Some(ManifestEntry(
              e.name, d.displayName, d.version, d.description, d.author, d.icon, d.category,
              RemoteEntryUrl(c.urlPrefix, e.name), c.isInternal, d.apiKeyAccess, isDevMode))
  }

  /** The entries the loop pushes for a listing, in listing order. */
  function ScanEntries(es: seq<DirEntry>, c: ScanConfig): (r: seq<ManifestEntry>)
    ensures |r| <= |es|
    ensures forall m :: m in r <==> exists i :: 0 <= i < |es| && ScanEntry(es[i], c) == Some(m)
  {
    Collect(es, e => ScanEntry(e, c))
  }

  /** Every entry a scan emits carries the scan's internal flag. */
  lemma ScanEntriesInternal(es: seq<DirEntry>, c: ScanConfig)
    ensures forall m :: m in ScanEntries(es, c) ==> m.isInternal == c.isInternal
  {
    forall m | m in ScanEntries(es, c)
      ensures m.isInternal == c.isInternal
    {
      var i :| 0 <= i < |es| && ScanEntry(es[i], c) == Some(m);
    }
  }

  /** Partial-failure isolation: an entry the scan skips (hidden, not a directory, no or
      malformed package file, rejected by the schema, unbuilt outside dev mode) has no effect
      on what is emitted for its siblings. */
  lemma ScanSkipsIneligible(a: seq<DirEntry>, e: DirEntry, b: seq<DirEntry>, c: ScanConfig)
    requires !Eligible(e, c)
    ensures ScanEntries(a + [e] + b, c) == ScanEntries(a + b, c)
  {
    CollectSkip(a, e, b, x => ScanEntry(x, c));
  }

  /** Listing order: what is emitted for the entries before position `i` comes first, then
      the entry for `es[i]` if any, then what is emitted for the entries after it. */
  lemma ScanOrder(es: seq<DirEntry>, i: nat, c: ScanConfig)
    requires i < |es|
    ensures ScanEntries(es, c) == ScanEntries(es[..i], c) + ToSeq(ScanEntry(es[i], c)) + ScanEntries(es[i + 1..], c)
  {
    assert es == es[..i] + [es[i]] + es[i + 1..];
    CollectAround(es[..i], es[i], es[i + 1..], x => ScanEntry(x, c));
  }

  /** `scanFederatedModules(baseDir, modules, ...)`: `modules` extended by the entries of
      the eligible module directories. */
  function ScanFederatedModules(baseDir: Directory, modules: seq<ManifestEntry>, c: ScanConfig): (r: seq<ManifestEntry>)
    ensures baseDir.Absent? ==> r == modules
    ensures baseDir.Listing? ==> r == modules + ScanEntries(baseDir.entries, c)
    ensures |modules| <= |r| <= |modules| + |EntriesOf(baseDir)| && r[..|modules|] == modules
    ensures forall i :: |modules| <= i < |r| ==>
      && !IsHidden(r[i].name)
      && r[i].isInternal == c.isInternal
      && r[i].remoteEntryUrl == RemoteEntryUrl(c.urlPrefix, r[i].name)
      && (r[i].isDevMode <==> InDevMode(r[i].name, c))
    ensures forall i :: |modules| <= i < |r| ==>
      exists j :: 0 <= j < |EntriesOf(baseDir)| && ScanEntry(EntriesOf(baseDir)[j], c) == Some(r[i])
    ensures forall j :: 0 <= j < |EntriesOf(baseDir)| && Eligible(EntriesOf(baseDir)[j], c) ==>
      ScanEntry(EntriesOf(baseDir)[j], c).value in r[|modules|..]
  {
    match baseDir
    case Absent => modules
    case Listing(es) =>
      var added := ScanEntries(es, c);
      var r := modules + added;
      assert r[|modules|..] == added;
      forall i | |modules| <= i < |r|
        ensures exists j :: 0 <= j < |es| && ScanEntry(es[j], c) == Some(r[i])
      {
        assert r[i] in added;
      }
      r
  }
}
