# Lifeforge module manager, modelled in Dafny

The module manager discovers the feature modules ("apps") installed in a Lifeforge
host. It builds the manifest the host's runtime loader uses to fetch each module's remote
UI bundle. It also keeps two small documents for the operator:

- the list of modules in dev mode;
- the category document, which maps each category key to its per-language labels. The
  key order of this document is the display order of the categories.

This project models that logic as pure functions over abstract inputs and proves what
each operation promises:

- **Scan** (`scan.dfy`). A walk over a directory listing. Each entry is either skipped or
  turned into a manifest entry: the directory name, a derived `remoteEntryUrl`, the
  internal flag, the dev-mode flag and the schema-checked package data.
- **Module routes** (`registry.dfy`).
  - `manifest` concatenates two scans: installed modules, then internal modules.
  - `list` is a coarser pass with per-field defaults. It reports bundle presence as a flag
    instead of filtering on it.
  - `uninstall` delegates to an external command.
- **Dev-mode route** (`devmode.dfy`). `toggle` appends an absent name or removes the
  first occurrence of a present one.
- **Category routes** (`categories_server.dfy`).
  - `update` and `list` write and read the category document whole.
  - `aiTranslate` checks a provider's reply against one string field per requested
    language.
- **Categories page** (`categories_page.dfy`, `category_item.dfy`,
  `modify_category_modal.dfy`):
  - the missing-key report;
  - editing as delete-then-assign on the ordered document;
  - deletion;
  - drag-and-drop reordering with `arrayMove`;
  - the category dialog's form: validation, row add, rename, edit and remove, create
    mode, and AI-filled rows.
- **Modules page** (`modules_page.dfy`, `module_item.dfy`):
  - grouping modules by category;
  - the translated category name;
  - a module's translation key and author line;
  - the dev-mode controls.

Shared vocabulary lives in `wrappers.dfy` (Option), `seqs.dfy` (array operations),
`strings.dfy` (trim, lower-case, replace, split) and `assoc.dfy`. In `assoc.dfy` a
JavaScript object is an association list in insertion order:

- `delete` filters the key out;
- assignment replaces the value in place, or appends the key when it is new;
- `Object.fromEntries` is a fold of assignment.

Inputs are modelled as follows:

- **Filesystem.** A `Directory` is either `Absent` or a listing of `DirEntry` records.
  Each record has a name, an is-directory flag, the package file's parse result, and the
  build-output directories that hold `assets/remoteEntry.js`.
- **Package schema.** The schema (`packageJSONSchema`) is a function parameter `Validator`.
  It receives the whole package object. `RawPackage` names the six members the list reads;
  every other member, at the top level or inside `lifeforge` (such as `APIKeyAccess`), is
  kept as a generic `Json` value in an `others` field.
- **Environment.** The environment variables are an explicit `Env` value.
- **Outside calls.** The external uninstall command and the AI provider's reply are
  parameters.

## Behaviour as written

The model follows the code, including where the code departs from what the module
manager is meant to do:

- **Internal modules need a bundle.** Internal modules are meant to load whether or not
  their bundle is built. The internal scan gets no dev-mode list
  (server/routes/modules.ts:29), so internal modules are gated on bundle presence like
  installed ones (server/utils/scanFederatedModules.ts:66).
  `ModulesRoutes.ManifestInternalMembers` states which internal modules the manifest holds.
- **The list skips schema validation.** `list` only parses the package file and never
  applies the schema (server/routes/modules.ts:69).
  - A module whose package fails the schema, such as one without a name, is missing from
    the manifest but is still listed, with `name` absent (`ModulesRoutes.ScenarioList`).
  - Any parsed non-null value is listed, even a number or an array, with every field
    defaulted.
- **Dev mode is keyed differently.** The scan matches dev mode on `"@lifeforge/" +
  directory name` (server/utils/scanFederatedModules.ts:41). `list` and `toggle` use the
  package name (`ModulesRoutes.DevModeNamesDiverge`).
- **Manifest names.** The scan emits the directory name as the module's `name`, not the
  package name.
- **Editing reorders.** Editing a category deletes its old key before assigning. Saving
  an edit therefore moves the category to the end of the display order, even when the
  key is unchanged (`CategoriesPage.EditMovesCategoryLast`).

## Model

| member | source | states |
|---|---|---|
| Scan.ScanEntry | server/utils/scanFederatedModules.ts:38-83 | an entry is emitted iff it is a non-hidden directory with a package file that parses, passes the schema, and has a bundle or is in dev mode; the emitted entry has the directory name, the derived URL, the scan's internal flag, the dev-mode flag and the schema's data |
| Scan.ScanEntries | server/utils/scanFederatedModules.ts:38-84 | the emitted entries are exactly the results of the eligible listing entries, at most one per entry |
| Scan.ScanSkipsIneligible | server/utils/scanFederatedModules.ts:45-83 | an entry that is skipped for any reason does not change what is emitted for its siblings |
| Scan.ScanOrder | server/utils/scanFederatedModules.ts:38-80 | entries are emitted in listing order: the results before position i, then the result for entry i, then the results after it |
| Scan.ScanFederatedModules | server/utils/scanFederatedModules.ts:25-85 | an absent directory leaves the list unchanged; otherwise the existing entries stay in place and only eligible, non-hidden entries are appended, each with the URL `prefix/dir/assets/remoteEntry.js`, the given internal flag and dev mode iff not production and `@lifeforge/dir` is listed; every eligible entry is emitted; exactly the scan's results are appended, in listing order |
| ModulesRoutes.DevModeList | server/routes/modules.ts:22-23 | a missing dev-mode document reads as the empty list |
| ModulesRoutes.Manifest | server/routes/modules.ts:15-32 | the installed scan's entries followed by the internal scan's, each with its own URL prefix; internal entries are never in dev mode and always come from a directory whose bundle exists; two absent roots give an empty manifest |
| ModulesRoutes.ManifestInstalledMembers | server/routes/modules.ts:22-25 | an installed directory's entry is in the manifest iff the scan accepts it (visible, schema-valid, built or in dev mode) |
| ModulesRoutes.ManifestInternalMembers | server/routes/modules.ts:27-29 | an internal directory's entry is in the manifest iff it is visible, schema-valid and built; dev mode never admits an internal module |
| ModulesRoutes.Summary | server/routes/modules.ts:86-97 | per-field defaults: displayName falls back to name, version to "0.0.0", description and author to "", icon to "tabler:package", category to "Miscellaneous"; never internal; dev mode iff the package name is in the list |
| ModulesRoutes.ListEntry | server/routes/modules.ts:63-100 | a directory is listed iff it is a non-hidden directory whose package file parses to a non-null value; `hasClientDist` is bundle presence |
| ModulesRoutes.ListEntries | server/routes/modules.ts:63-101 | the listed summaries are exactly those of the listable entries |
| ModulesRoutes.ListOrder | server/routes/modules.ts:63-101 | summaries come out in listing order |
| ModulesRoutes.ListInstalled | server/routes/modules.ts:47-104 | an absent apps directory gives an empty list; a listing gives its entries' summaries in listing order; every summary is non-internal with non-empty version, icon and category |
| ModulesRoutes.ListIgnoresOtherMembers | server/routes/modules.ts:86-97 | package members the list does not read, at the top level or inside `lifeforge` (such as `APIKeyAccess`), cannot change a summary |
| ModulesRoutes.ManifestEntriesAreListed | server/routes/modules.ts:25-97 | every directory the installed scan emits is also listed, and is built or the environment is not production |
| ModulesRoutes.UnbuiltHiddenButListed | server/routes/modules.ts:84-96 | a valid module without a bundle and not in dev mode is missing from the manifest but listed with `hasClientDist` false |
| ModulesRoutes.DevModeFlagsAgree | server/routes/modules.ts:95 | when the package name is `@lifeforge/` plus the directory name, outside production, the two dev-mode flags agree |
| ModulesRoutes.DevModeNamesDiverge | server/utils/scanFederatedModules.ts:39-41 | a package named without the scope is in dev mode for `list` but is still gated on its bundle by the scan |
| ModulesRoutes.ScenarioManifest | server/routes/modules.ts:15-32 | of modules a (valid, built), b (no name), c (valid, unbuilt), the production manifest holds only a |
| ModulesRoutes.ScenarioList | server/routes/modules.ts:47-104 | the list of the same modules holds a, b (with no name) and c, with c not built |
| ModulesRoutes.Uninstall | server/routes/modules.ts:106-128 | an empty name is rejected; success iff the command exits cleanly; a failure always carries an error, "Uninstall failed" when the thrown value is not an Error |
| DevModeRoutes.Toggle | server/routes/devMode.ts:5-29 | an empty name is rejected; a missing document reads as empty; an absent name is appended and reported enabled; a present name loses its first occurrence and is reported disabled; success is always true |
| DevModeRoutes.ToggleTwiceRestores | server/routes/devMode.ts:18-26 | toggling an absent name twice restores the list exactly |
| DevModeRoutes.ToggleKeepsOthers | server/routes/devMode.ts:18-24 | all other names keep their relative order |
| DevModeRoutes.ToggleFlipsMembership | server/routes/devMode.ts:18-28 | on a duplicate-free list the result is duplicate-free, the name's membership flips, and the reported flag equals the new membership |
| DevModeRoutes.ToggleScenario | server/routes/devMode.ts:16-28 | on an empty store the first toggle enables and the second disables, leaving the list empty |
| CategoriesRoutes.List | server/routes/categories.ts:5-13 | nothing before the first write; otherwise a document with distinct keys at both levels, and exactly the stored document when it was well formed |
| CategoriesRoutes.ParseWellFormed | server/routes/categories.ts:9-13 | reading the file always yields an object with distinct keys at both levels |
| CategoriesRoutes.ParseOfWellFormed | server/routes/categories.ts:23-24 | the written text of a well-formed document parses back to that document |
| CategoriesRoutes.Update | server/routes/categories.ts:15-27 | reports success, and reading the written file lists exactly the request's document, whatever was stored before |
| CategoriesRoutes.UpdateThenList | server/routes/categories.ts:9-24 | `list` after `update(data)` returns `data` |
| CategoriesRoutes.SchemaKeys | server/routes/categories.ts:60-69 | the schema has one field per distinct requested language, at its first position |
| CategoriesRoutes.ParseReply | server/routes/categories.ts:60-69 | a reply fits iff every schema field holds a string; the output has exactly the schema's keys in order, with the reply's strings |
| CategoriesRoutes.AiTranslate | server/routes/categories.ts:29-71 | succeeds iff the provider answers with a string for every requested language; the result has one key per distinct language, in order of first request, each with the provider's string |
| CategoriesRoutes.AiTranslateMissingLanguage | server/routes/categories.ts:60-69 | a reply missing a requested language fails |
| CategoriesRoutes.AiTranslateScenario | server/routes/categories.ts:60-69 | a repeated language is asked for once and an unrequested member is dropped |
| CategoriesPage.ModuleCategoryKeysMembers | client/src/pages/Categories/index.tsx:45-56 | a key is a module category key iff some item's lowered category equals it and it is not a lowered system category |
| CategoriesPage.MissingKeys | client/src/pages/Categories/index.tsx:44-60 | no duplicates; a key is reported iff some module uses it (lowered), it is not a system category (compared lowered) and the document has no entry for it |
| CategoriesPage.HandleModify | client/src/pages/Categories/index.tsx:78-92 | the new key maps to the new value; a truthy old key that differs is gone; every other key keeps its value; the key set is the old one minus the old key plus the new one; distinct keys are preserved; untouched keys keep their relative order, a new or renamed key (or a re-saved truthy old key) goes last, and a target key that already exists elsewhere stays where it was |
| CategoriesPage.EditMovesCategoryLast | client/src/pages/Categories/index.tsx:90-92 | saving under the same key moves the category to the end |
| CategoriesPage.CreateOverExistingKeepsOrder | client/src/pages/Categories/index.tsx:92 | without an old key, assigning an existing key keeps the key order |
| CategoriesPage.MoveKeepsDistinct | client/src/pages/Categories/index.tsx:116-128 | the moved entries keep distinct keys, so the rebuilt object equals them |
| CategoriesPage.HandleDragEnd | client/src/pages/Categories/index.tsx:107-128 | no change without a target or on a drop onto itself; otherwise a permutation in which the dragged entry sits at the target's index and the others keep their order, and the document sent is that order |
| CategoriesPage.DragScenario | client/src/pages/Categories/index.tsx:111-128 | dragging the first of three categories onto the last puts it last |
| CategoryItem.HandleDelete | client/src/pages/Categories/components/CategoryItem.tsx:49-59 | the key is gone, every other key keeps its value, and on a well-formed document the result is the document with exactly that entry removed |
| CategoryItem.EditSubmit | client/src/pages/Categories/components/CategoryItem.tsx:110-116 | the current key is passed as the old key: the new key maps to the new value and a renamed category loses its old key |
| CategoryItem.RenameAppends | client/src/pages/Categories/components/CategoryItem.tsx:114 | renaming to a fresh key removes the old entry and appends the new one |
| CategoryItem.SeparatorClass | client/src/pages/Categories/components/CategoryItem.tsx:92-98 | "pr-2" at index 0, "pl-2" at the last non-first index, "px-2" otherwise |
| CategoryItem.SeparatorRow | client/src/pages/Categories/components/CategoryItem.tsx:89-98 | a one-label row is ["pr-2"]; a longer row is "pr-2", then "px-2" for each middle label, then "pl-2" |
| ModifyCategoryModal.InitialState | client/src/pages/Categories/components/ModifyCategoryModal.tsx:41-44 | the form starts from the edited category's key and entries, or empty |
| ModifyCategoryModal.OnLanguagesLoaded | client/src/pages/Categories/components/ModifyCategoryModal.tsx:100-109 | in create mode, one empty row per language in order with an empty key; otherwise unchanged |
| ModifyCategoryModal.HandleSubmit | client/src/pages/Categories/components/ModifyCategoryModal.tsx:48-66 | rejected with "Please fill in all fields" iff the key or some label is blank after trimming; otherwise the key and the rows as an object (first position, last value per code) |
| ModifyCategoryModal.SubmitUnchanged | client/src/pages/Categories/components/ModifyCategoryModal.tsx:41-66 | submitting an unchanged, filled-in category hands it back unchanged |
| ModifyCategoryModal.AddRow | client/src/pages/Categories/components/ModifyCategoryModal.tsx:205-216 | fails with "Translation key already exists" iff the code is present; otherwise appends the code with an empty label |
| ModifyCategoryModal.RenameRow | client/src/pages/Categories/components/ModifyCategoryModal.tsx:162-169 | only row i's code changes, and its label stays |
| ModifyCategoryModal.EditRow | client/src/pages/Categories/components/ModifyCategoryModal.tsx:177-183 | only row i's label changes, and its code stays |
| ModifyCategoryModal.RemoveRow | client/src/pages/Categories/components/ModifyCategoryModal.tsx:190-195 | removes exactly row i and keeps the others in order; an index with no row changes nothing |
| ModifyCategoryModal.RenameBack | client/src/pages/Categories/components/ModifyCategoryModal.tsx:162-169 | renaming a row back undoes the rename |
| ModifyCategoryModal.EditBack | client/src/pages/Categories/components/ModifyCategoryModal.tsx:177-183 | restoring a label undoes the edit |
| ModifyCategoryModal.RemoveAdded | client/src/pages/Categories/components/ModifyCategoryModal.tsx:190-216 | removing a freshly added row restores the rows |
| ModifyCategoryModal.AiTranslate | client/src/pages/Categories/components/ModifyCategoryModal.tsx:68-98 | refused with "Please fill in the category key" when the key is blank; a failure leaves the form unchanged; on success the key is kept and the rows become the server's result: one row per distinct code in row order, each labelled with the provider's string |
| ModifyCategoryModal.AiTranslateThenSubmit | client/src/pages/Categories/components/ModifyCategoryModal.tsx:48-92 | submitting filled-in translated rows saves exactly those rows under the key |
| ModifyCategoryModal.AiTranslateScenario | client/src/pages/Categories/components/ModifyCategoryModal.tsx:77-92 | two empty rows are filled with the provider's labels in row order |
| ModulesPage.GroupKey | client/src/pages/Modules/index.tsx:45 | the group is the category when it is non-empty, and "Miscellaneous" when it is empty |
| ModulesPage.Group | client/src/pages/Modules/index.tsx:42-54 | groups have distinct keys in order of first appearance, and each group holds exactly the modules with its key, in input order |
| ModulesPage.GroupModules | client/src/pages/Modules/index.tsx:39-55 | no data gives no groups |
| ModulesPage.GroupTotal | client/src/pages/Modules/index.tsx:44-52 | group sizes sum to the number of modules |
| ModulesPage.ModuleInOneGroup | client/src/pages/Modules/index.tsx:44-52 | each module is in the group of its key and in no other group |
| ModulesPage.ListedModulesGroupByCategory | client/src/pages/Modules/index.tsx:45 | modules with a category are grouped under it |
| ModulesPage.GetCategoryName | client/src/pages/Modules/index.tsx:57-65 | the non-empty label for the language under the lowered category, otherwise the category itself |
| ModulesPage.UntranslatedShowsItself | client/src/pages/Modules/index.tsx:57-65 | a category without translations is shown as itself |
| ModulesPage.TranslatedShowsLabel | client/src/pages/Modules/index.tsx:57-65 | a stored non-empty label is shown |
| ModuleItem.ModuleKey | client/src/pages/Modules/components/ModuleItem.tsx:30-31 | only the first "@lifeforge/" is removed; a name without it is unchanged; a scoped name gives the rest of the name |
| ModuleItem.ModuleKeyOfScoped | client/src/pages/Modules/components/ModuleItem.tsx:30-31 | `@lifeforge/lifeforge--wallet` has key `lifeforge--wallet`, and likewise for every scoped name |
| ModuleItem.AuthorLabel | client/src/pages/Modules/components/ModuleItem.tsx:159-163 | no author line for an empty author; otherwise the text before the first '<' with exactly its surrounding white space removed, which contains no '<' |
| ModuleItem.AuthorNameOnly | client/src/pages/Modules/components/ModuleItem.tsx:162 | for `Name <address>` with any white space around the name, the line shows exactly the name |
| ModuleItem.AuthorWithoutAddress | client/src/pages/Modules/components/ModuleItem.tsx:162 | an author without '<' is shown trimmed |
| ModuleItem.ShowsDevChip | client/src/pages/Modules/components/ModuleItem.tsx:111 | the dev chip shows exactly for a module in dev mode when its dev-mode menu entry is present, and then that entry offers to disable |
| ModuleItem.ListedChips | client/src/pages/Modules/components/ModuleItem.tsx:111-120 | a listed module shows "not built" iff its directory has no bundle, and "dev mode" iff in development with its package name in the dev-mode list |
| ModuleItem.IsEnabling | client/src/pages/Modules/components/ModuleItem.tsx:84 | the confirmation asks to enable exactly when the menu offers "enable" |
| ModuleItem.DevModeMenu | client/src/pages/Modules/components/ModuleItem.tsx:135-142 | the dev-mode entry exists only in development and offers to disable for a module in dev mode, enable otherwise |
| ModuleItem.ToggleMatchesMenu | client/src/pages/Modules/components/ModuleItem.tsx:83-97 | the toggle then reports dev mode on iff the dialog was the "enable" variant |
| ModuleItem.NoDevControlsOutsideDevelopment | client/src/pages/Modules/components/ModuleItem.tsx:111-142 | outside development there is no dev chip and no dev-mode entry |
| Seqs.ArrayMove | client/src/pages/Categories/index.tsx:116 | the moved element lands at the target, removing it there gives the original minus the source element, and the multiset is preserved |
| Seqs.IndexOf | server/routes/devMode.ts:18 | the first position of the element, or -1 iff absent |
| AssocList.Delete | client/src/pages/Categories/index.tsx:90 | the key is gone and every other key keeps its value |
| AssocList.DeleteKeys | client/src/pages/Categories/index.tsx:90 | the remaining keys are all the other keys, in their original order |
| AssocList.Assign | client/src/pages/Categories/index.tsx:92 | the key maps to the value; an existing key keeps its position, and a new one is appended |
| AssocList.FromEntries | client/src/pages/Categories/components/ModifyCategoryModal.tsx:58 | distinct keys in order of first appearance, each with its last value |
| Strings.Trim | client/src/pages/Modules/components/ModuleItem.tsx:162 | an infix of the input with no white space at either end and only white space around it |
| Strings.TrimUnique | client/src/pages/Modules/components/ModuleItem.tsx:162 | any infix with non-white ends and only white space around it is the trimmed string |

## Left out

- Filesystem access, JSON parsing of package files and `path.join` are abstracted into
  the `Directory`, `DirEntry` and `PackageFile` records.
- The package schema (`packageJSONSchema`) is not part of this model. It is a `Validator`
  parameter over the whole package object, including the members the list ignores.
- The file store behind the dev-mode and category documents is not part of this model.
  It includes what it returns for a missing file. `CategoriesRoutes.List` answers None
  for a file never written.
- The race in the unlocked read-modify-write of the stored documents is left out,
  because it is concurrency.
- The AI call itself is left out: prompt, model name and network. Only the reply's
  validation against the per-language schema is modelled.
- `uninstall` runs an external process. The command's outcome is a parameter, and its
  working directory and output are not modelled.
- JavaScript objects order integer-like keys ("1", "42") before other keys. The
  association lists keep pure insertion order. Category keys and language codes are
  expected to be words.
- Property names inherited from `Object.prototype` (such as "constructor") are treated as
  absent keys in every lookup.
- `Strings.Lower` folds only ASCII letters. Unicode case mapping is not modelled.
- Non-string values in the package file's string fields are not modelled. A field is
  either absent or a string.
- CategoriesPage.HandleDragEnd: requires both drag ids to be keys of the items. The
  sortable list registers exactly the item keys, so `arrayMove` with index -1 is not
  modelled.
- ModifyCategoryModal.AiTranslate: does not state the error text of a failed request.
  The server's message is not modelled; the model shows "Something went wrong".
- ModuleItem.ModuleKey: returns None for a module with no name. The page would throw
  there.
- React rendering, hooks, toasts, i18n lookups (`translatedTitle`,
  `translatedDescription`), the drag sensors and the delayed refetch are left out. They
  hold no logic beyond the modelled conditions.
- The translation-key dialog (`ModifyTranslationKeyModal`) is pure form wiring. Its
  result is the `code` argument of `AddRow` and `RenameRow`.
- `client/manifest.ts` is static configuration and `server/index.ts` is router wiring.
  Neither holds logic.
