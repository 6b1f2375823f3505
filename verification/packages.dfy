/** The data the module scanner works on: directory listings, package files as parsed
    JSON, the descriptor the package schema yields, and the two kinds of module record
    the server returns. */
module Packages {
  import opened Wrappers

  /** One entry of a module's `APIKeyAccess` record. */
  datatype KeyAccess = KeyAccess(usage: string, required: bool)

  /** A parsed JSON value. */
  datatype Json =
    | JNull
    | JBool(b: bool)
    | JNumber(n: int)
    | JString(s: string)
    | JArray(items: seq<Json>)
    | JObject(members: seq<(string, Json)>)

  /** The `lifeforge` section of a package file; absent fields are None. `others` holds
      the remaining members (such as `APIKeyAccess`), which only the package schema reads. */
  datatype LifeforgeSection = LifeforgeSection(icon: Option<string>, category: Option<string>, others: seq<(string, Json)>)

  /** A package file read as a JSON object: the fields the list route reads (absent fields
      are None), and every other member in `others`, which only the package schema reads. */
  datatype RawPackage = RawPackage(
    name: Option<string>,
    displayName: Option<string>,
    version: Option<string>,
    description: Option<string>,
    author: Option<string>,
    lifeforge: Option<LifeforgeSection>,
    others: seq<(string, Json)>)

  /** A package file with no members at all. */
  const NoFields := RawPackage(None, None, None, None, None, None, [])

  /** What a module directory's `package.json` turns out to be. */
  datatype PackageFile =
    | NoPackageFile            // the file does not exist
    | Unparseable              // reading it or JSON.parse throws
    | JsonNull                 // it parses to `null`
    | JsonNonObject            // it parses to a number, string, boolean or array
    | JsonObject(raw: RawPackage)

  /** The data of a package file the package schema accepts. */
  datatype Descriptor = Descriptor(
    displayName: string,
    version: string,
    description: string,
    author: string,
    icon: string,
    category: string,
    apiKeyAccess: Option<seq<(string, KeyAccess)>>)

  /** The package schema's `safeParse`: the descriptor when the object is accepted. The
      schema is an object schema, so `null` and non-objects never reach it. */
  type Validator = RawPackage -> Option<Descriptor>

  /** One entry of a `readdirSync(..., { withFileTypes: true })` listing. `bundles` holds
      the build-output directory names `d` for which `client/d/assets/remoteEntry.js`
      exists under the entry. */
  datatype DirEntry = DirEntry(name: string, isDir: bool, packageFile: PackageFile, bundles: set<string>)

  /** A root directory: missing, or present with its listing in `readdirSync` order. */
  datatype Directory = Absent | Listing(entries: seq<DirEntry>)

  function EntriesOf(d: Directory): seq<DirEntry> {
    if d.Listing? then d.entries else []
  }

  /** The environment variables the scanner consults. */
  datatype Env = Env(nodeEnv: Option<string>, dockerMode: Option<string>)

  /** `NODE_ENV === 'production'`. */
  predicate IsProduction(env: Env) {
    env.nodeEnv == Some("production")
  }

  /** The build-output directory probed for a module's bundle. */
  function DistDir(env: Env): (d: string)
    ensures d == "dist-docker" || d == "dist"
  {
    if env.dockerMode == Some("true") then "dist-docker" else "dist"
  }

  /** `client/<dist>/assets/remoteEntry.js` exists under the entry. */
  predicate BundleExists(e: DirEntry, env: Env) {
    DistDir(env) in e.bundles
  }

  /** The npm scope of LifeForge module package names. */
  const Scope := "@lifeforge/"

  /** `name.startsWith('.')`. */
  predicate IsHidden(name: string) {
    |name| > 0 && name[0] == '.'
  }

  /** Survives the listing filter: a directory whose name does not start with a dot. */
  predicate IsCandidate(e: DirEntry) {
    e.isDir && !IsHidden(e.name)
  }

  /** A module as listed in the runtime manifest. */
  datatype ManifestEntry = ManifestEntry(
    name: string,
    displayName: string,
    version: string,
    description: string,
    author: string,
    icon: string,
    category: string,
    remoteEntryUrl: string,
    isInternal: bool,
    apiKeyAccess: Option<seq<(string, KeyAccess)>>,
    isDevMode: bool)

  /** A module as listed for the operator. `name` and `displayName` stay absent when the
      package file has no name. */
  datatype InstalledModule = InstalledModule(
    name: Option<string>,
    displayName: Option<string>,
    version: string,
    description: string,
    author: string,
    icon: string,
    category: string,
    isInternal: bool,
    isDevMode: bool,
    hasClientDist: bool)

  /** JavaScript truthiness of an optional string: present and non-empty. */
  predicate Truthy(o: Option<string>) {
    o.Some? && o.value != ""
  }

  /** `o || fallback` for an optional string and a string fallback. */
  function OrElse(o: Option<string>, fallback: string): (r: string)
    ensures Truthy(o) ==> r == o.value
    ensures !Truthy(o) ==> r == fallback
  {
    if Truthy(o) then o.value else fallback
  }
}
