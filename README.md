# pnpm-category-catalog: a verified model of the catalog logic

pnpm-category-catalog moves the flat `catalog` of a `pnpm-workspace.yaml`
into named `catalogs` and then rewrites each package manifest to refer to
them. The user picks dependencies and names categories in an interactive
session. The tool then points every managed dependency of every
`package.json` at `catalog:<category>`, and it rewrites a manifest only if
something in it changed.

This project models the logic behind that workflow and proves its
properties:

- **`Dependencies`**: `resolvePackageDependencies`, the reconciler. It is
  modelled as methods with loops over the dependency kinds and the names of
  each block. The methods are proved equal to the pure reference functions
  `ReconcileBlock`, `ReconcilePackage` and `NeedsUpdate`. The lemmas give
  the target-version rule, minimal rewriting ("nothing else changes"), and
  idempotence.
- **`Utils`**:
  - `scanDependencyUsage` is a method with nested loops that fills the
    dependency → consumers index. It is proved equal to an index built from
    the list of (dependency, consumer) occurrences. A reference definition
    of each consumer list is proved to agree with that index.
  - `formatDependencyUsage` is modelled as its 0 / 1–2 / ≥3 case split.
  - `packageSort` is an insertion sort into "scoped names first, then
    ascending". It is proved to produce a permutation, to sort, to be
    unique, idempotent and insensitive to input order, and to match the
    tool's own examples.
- **`WorkSpace`**:
  - A `WorkspaceContext` class holds the workspace's `catalog` and
    `catalogs` fields, which `updateCatalogsWithContext` and
    `processCatalog` change in place.
  - One classification round is a pure step function over the workspace
    and the `allCatalogs` accumulator. The whole session is its fold, and
    the loop method is proved equal to that fold.
  - The session is proved to conserve every version: each dependency stays
    in the flat catalog with its version, or it moved into a confirmed
    round with that version.
  - `confirmModify`'s aggregation is specified and proved: the joined
    names, the merge where later rounds win, and one category per round.
    Every merged dependency is proved to belong to some category.
  - `getCatalogName`: the option list is specified and proved, and so is
    the `validate` callback.
- Support modules:
  - `Objects` models JavaScript objects as insertion-ordered key/value
    sequences, with assignment, `delete` and `Object.assign`.
  - `Strings` models `join`, `trim`, ASCII `toLowerCase`, string `replace`
    and number rendering.
  - `Constants` and `Types` hold the fixed data and records.

Interactive answers, file contents and serialization are parameters of the
model:

- **Prompt answers** come as a sequence of `Answer` records. Each holds the
  selected keys, the catalog name, the confirmation and the "continue?"
  reply.
- **Manifests** arrive already read: path, text and parsed data.
- **Serialization** is a `render` function parameter.

## Model

| member | source | states |
|---|---|---|
| Objects.Get | src/dependencies.ts:22 | `obj[key]`: the value of the pair with that key, or `undefined`; absent exactly when the object has no such key (properties are read as own keys only, see "Left out"); specified with `Objects.PutSpec`, `Objects.DeleteSpec` and `Utils.IndexSpec` |
| Dependencies.FindCategory | src/dependencies.ts:27-29 | the index of the first category whose `dependencies` give the name a truthy version; every earlier category does not; the number of categories when none does |
| Dependencies.TargetVersion | src/dependencies.ts:23-41 | the `catalog:<name>` string a managed dependency is set to; specified by `Dependencies.TargetVersionSpec` |
| Dependencies.TargetVersionSpec | src/dependencies.ts:26-41 | the target is `catalog:` + the first category holding the dependency, or `catalog:` + the group name when no category holds it or `categories` is absent |
| Dependencies.RewriteDependency | src/dependencies.ts:22-47 | visiting one name overwrites exactly that entry with its reconciled form; the flag is set iff it was managed and differed from its target |
| Dependencies.RewriteBlock | src/dependencies.ts:18-50 | the block loop yields the reconciled block, and reports an update iff some managed entry differed from its target |
| Dependencies.ResolvePackage | src/dependencies.ts:12-57 | path kept; `isUpdate` iff some examined entry was stale; when updated the content is the rendered rewritten manifest plus a newline, otherwise the original text |
| Dependencies.ResolvePackageDependencies | src/dependencies.ts:6-59 | exactly one result per input manifest, in input order, each as `ResolvePackage` describes |
| Dependencies.ReconcileBlockSpec | src/dependencies.ts:20-47 | keys and their order are unchanged; every managed declared name now reads its target; every unmanaged name keeps its declared version |
| Dependencies.ReconcileBlockIdempotent | src/dependencies.ts:44-47 | reconciling a reconciled block changes nothing and finds nothing stale |
| Dependencies.BlockStaleIffChanged | src/dependencies.ts:44-47 | the block is flagged iff reconciliation changes it |
| Dependencies.ReconcilePackageSpec | src/dependencies.ts:17-51 | name and set of fields kept; fields outside the three dependency kinds, `peerDependencies` included, untouched; in examined blocks managed names read their target and unmanaged names keep their version |
| Dependencies.ReconcileIdempotent | src/dependencies.ts:44-47 | running the rewrite again on the rewritten manifest changes nothing and reports `isUpdate = false` |
| Dependencies.NeedsUpdateIffChanged | src/dependencies.ts:16-47 | `isUpdate` is true iff the rewritten manifest differs from the parsed one |
| Dependencies.BarePlaceholderIsRewritten | src/dependencies.ts:44-47 | a bare `catalog:` declaration is not its target `catalog:dev`, so it is rewritten and the manifest flagged |
| Dependencies.LiteralVersionIsRewritten | src/dependencies.ts:44-47 | a literal version of a managed dependency becomes `catalog:dev` |
| Dependencies.CategoryOrGroupName | src/dependencies.ts:26-41 | with categories, a categorised name goes to its category and an uncategorised one to the group name |
| Dependencies.ReconcileBlock | src/dependencies.ts:20-47 | a dependency block after the rewrite, entry by entry; specified by `Dependencies.ReconcileBlockSpec`, `Dependencies.ReconcileBlockIdempotent` and `Dependencies.BlockStaleIffChanged`, and computed in place by `Dependencies.RewriteBlock` |
| Dependencies.ReconcilePackage | src/dependencies.ts:17-51 | the parsed manifest after the rewrite of the three dependency kinds; specified by `Dependencies.ReconcilePackageSpec` and `Dependencies.ReconcileIdempotent` |
| Dependencies.NeedsUpdate | src/dependencies.ts:16-47 | the final value of `isUpdated`: some examined block holds a managed entry that differs from its target; specified by `Dependencies.NeedsUpdateIffChanged` and `Dependencies.ResolvePackage` |
| Utils.PackageLabel | src/utils.ts:23-27 | the label a package is recorded under: its non-empty `name`, else `root` for `package.json`, else the path with the first `/package.json` removed; specified by `Utils.PackageLabelOfDirectory` |
| Utils.PackageLabelOfDirectory | src/utils.ts:23-27 | a nameless package at `<dir>/package.json` is labelled `<dir>` |
| Utils.PackageLabelUnmatched | src/utils.ts:23-27 | a nameless package other than the root whose path never contains `/package.json` is labelled by its path unchanged, as `replace` finds nothing to cut |
| Utils.ScanDependencyUsage | src/utils.ts:12-43 | the scan over all manifests builds the index of all (dependency, consumer) occurrences in package, kind and key order |
| Utils.ScanKinds | src/utils.ts:29-39 | the loop over the three dependency kinds of one package extends the index by the occurrences of each kind present, skipping absent blocks |
| Utils.ScanBlock | src/utils.ts:32-37 | one block appends the package label to each declared name's list, creating the list on first sight |
| Utils.IndexSpec | src/utils.ts:32-36 | the index has distinct keys in first-seen order, and each key's list is exactly its consumers, one per occurrence, in order |
| Utils.ScanUsage | src/utils.ts:18-40 | a dependency's entry is its reference consumer list (no entry when that list is empty) |
| Utils.UsageLabels | src/utils.ts:18-40 | the consumers recorded for a dependency are, package by package, its label once per examined block declaring it |
| Utils.ScanKeys | src/utils.ts:29-38 | a dependency has an entry iff some package declares it in one of the three kinds |
| Utils.UsageListNonEmpty | src/utils.ts:29-38 | the reference consumer list is non-empty iff some package declares the dependency in one of the three kinds |
| Utils.FormatDependencyUsage | src/utils.ts:58-76 | the consumer text of a dependency by the 0 / 1–2 / ≥3 split; specified by `Utils.FormatScanned` and the three default-option lemmas below |
| Utils.FormatScanned | src/utils.ts:64-75 | for scanned usage: no consumer gives `unusedText` (default `unUsed`), one or two give them joined by `, `, three or more give the template of the first two and the count |
| Utils.FormatDefaultUnused | src/utils.ts:64-71 | a missing or empty list gives `unUsed` |
| Utils.FormatDefaultTwo | src/utils.ts:72-73 | two consumers are listed joined by `, ` |
| Utils.FormatDefaultThree | src/utils.ts:65-75 | three consumers give `use on x, y and other 3 project packages` |
| Utils.BeforeOrder | src/utils.ts:119-123 | the comparator (scoped first, then code-point order) is irreflexive, asymmetric, total on distinct names and transitive |
| Utils.PackageSort | src/utils.ts:117-124 | the result is a permutation of the entries, and sorted when the keys are distinct |
| Utils.InsertSorted | src/utils.ts:119-123 | inserting a new key into a sorted object keeps it sorted |
| Utils.SortedUnique | src/utils.ts:117-124 | two sorted objects with the same entries are equal |
| Utils.PackageSortIdempotent | src/utils.ts:117-124 | a sorted object is left as it is; sorting twice is sorting once |
| Utils.PackageSortPermutation | src/utils.ts:117-124 | reorderings of the same entries sort alike |
| Utils.PackageSortLookup | src/utils.ts:117-124 | every key keeps its value through the sort |
| Utils.PackageSortUnscopedExample | tests/package.sort.spec.ts:5-18 | `react, axios, lodash` sorts to `axios, lodash, react` with their versions |
| Utils.PackageSortScopedExample | tests/package.sort.spec.ts:20-39 | `zod, @types/node, react, @clack/prompts` sorts to `@clack/prompts, @types/node, react, zod` |
| WorkSpace.RemoveAll | src/work.space.ts:38-40 | `delete context.catalog[key]` for each chosen key in turn; specified by `WorkSpace.RemoveAllSpec` and `WorkSpace.RemoveAllShrinks` |
| WorkSpace.Placed | src/work.space.ts:43-58 | the `catalogs` object after creating it if missing and merging and sorting the named entry; specified by `WorkSpace.PlacedSpec` |
| WorkSpace.Updated | src/work.space.ts:35-60 | the workspace after `updateCatalogsWithContext`: the deletions, then the placement; realised in place by `WorkSpace.WorkspaceContext.UpdateCatalogsWithContext` |
| WorkSpace.RemoveAllSpec | src/work.space.ts:38-40 | after deleting the chosen keys, chosen keys are absent and every other key keeps its version |
| WorkSpace.RemoveAllShrinks | src/work.space.ts:38-40 | deleting a present key shrinks the flat catalog |
| WorkSpace.PlacedSpec | src/work.space.ts:43-58 | `catalogs` is created if missing; the named entry exists, is in `packageSort` order, holds the new versions over the old ones and keeps old-only keys; every other named catalog is untouched |
| WorkSpace.WorkspaceContext.UpdateCatalogsWithContext | src/work.space.ts:35-60 | the in-place update leaves the workspace as the deletion followed by the merge-and-sort placement |
| WorkSpace.Pick | src/work.space.ts:216-219 | `dependencies[key] = context.catalog[key]` for each chosen key; specified by `WorkSpace.PickSpec` |
| WorkSpace.PickSpec | src/work.space.ts:216-219 | the round's `dependencies` has exactly the chosen keys, each with its version in the flat catalog |
| WorkSpace.WorkspaceContext.CollectDependencies | src/work.space.ts:216-219 | the loop builds that mapping |
| WorkSpace.Step | src/work.space.ts:206-239 | one round of `processCatalog` on the given answer, threading `allCatalogs`; specified by `WorkSpace.StepSkipped`, `WorkSpace.StepConfirmed` and `WorkSpace.StepConserves` |
| WorkSpace.StepSkipped | src/work.space.ts:206-239 | an empty choice, a blank name or a declined confirmation leaves the workspace and `allCatalogs` unchanged |
| WorkSpace.StepConfirmed | src/work.space.ts:214-238 | a confirmed round removes the chosen keys from `catalog`, shrinking it, places their pre-removal versions under the name, leaves other catalogs alone, and appends exactly one round |
| WorkSpace.StepConserves | src/work.space.ts:206-253 | a round keeps every original version either in `catalog` or as the latest value recorded for it in `allCatalogs`, and grows `allCatalogs` only by rounds with a non-empty choice and a non-blank name |
| WorkSpace.WorkspaceContext.ProcessRound | src/work.space.ts:191-239 | one loop iteration changes the workspace and accumulator as the step function says |
| WorkSpace.WorkspaceContext.ProcessCatalog | src/work.space.ts:174-255 | the loop leaves the workspace and accumulator as the session fold says: stop on an empty catalog, continue while the catalog is non-empty and the user agrees |
| WorkSpace.Session | src/work.space.ts:176-254 | the `while (continueProcessing)` loop as a fold of rounds over the answers; specified by `WorkSpace.SessionSpec` and realised by `WorkSpace.WorkspaceContext.ProcessCatalog` |
| WorkSpace.SessionSpec | src/work.space.ts:178-253 | a whole session keeps the workspace well formed, conserves every version, records only non-empty named rounds, and records no more rounds than the catalog shrank |
| WorkSpace.SessionInduction | src/work.space.ts:178-253 | the same from any well-formed intermediate state |
| WorkSpace.MergeAll | src/work.space.ts:90-96 | `Object.assign(allDependencies, catalog.dependencies)` for each round in turn; specified by `WorkSpace.MergeLatest` |
| WorkSpace.Aggregate | src/work.space.ts:89-115 | the `catalogs` record `confirmModify` returns; specified by `WorkSpace.AggregateSpec`, `WorkSpace.ChoicesSpec` and `WorkSpace.HitHasCategory` |
| WorkSpace.LatestSpec | src/work.space.ts:93-96 | the value merged for a key is absent iff no round has it, and otherwise comes from the last round that has it |
| WorkSpace.MergeLatest | src/work.space.ts:90-96 | the left-to-right `Object.assign` merge has distinct keys and gives each key its latest round value |
| WorkSpace.ChoicesSpec | src/work.space.ts:106 | a key is in the flattened `choice` iff some round chose it |
| WorkSpace.AggregateSpec | src/work.space.ts:89-115 | the name is the `, `-join of round names; one category per round, in order; merged dependencies take the latest round's value; every merged key lies in some category |
| WorkSpace.HitHasCategory | src/work.space.ts:105-113 | for the aggregated catalog, every managed dependency is found in some category, so its target is a round's name |
| WorkSpace.ConfirmModify | src/work.space.ts:71-116 | null iff no round was recorded or the final confirmation is declined; otherwise the workspace path, the rendered context and the aggregated catalog definition |
| WorkSpace.DefaultHint | src/work.space.ts:125-130 | the hint is the description of the first built-in catalog whose name equals the key case-insensitively, absent when none does |
| WorkSpace.WithDefaults | src/work.space.ts:134-144 | each built-in catalog pushed, in order, unless its name is already a label; specified by the five `WithDefaults` lemmas below |
| WorkSpace.CatalogOptions | src/work.space.ts:121-149 | the option list of the select prompt; specified by `WorkSpace.CatalogOptionsSpec` and built by `WorkSpace.BuildCatalogOptions` |
| WorkSpace.WithDefaultsPrefix | src/work.space.ts:134-144 | pushing built-in catalogs keeps the existing options in front and adds at most one per built-in |
| WorkSpace.WithDefaultsCovers | src/work.space.ts:134-144 | afterwards every built-in name is a label |
| WorkSpace.WithDefaultsPushed | src/work.space.ts:134-144 | every pushed option is a built-in catalog whose name was not already a label |
| WorkSpace.WithDefaultsDistinct | src/work.space.ts:134-144 | a pushed option's label occurs nowhere before it |
| WorkSpace.MissingLabels | src/work.space.ts:134-144 | a name labels one of the missing built-in options iff it is a built-in name that was not taken |
| WorkSpace.WithDefaultsOrder | src/work.space.ts:134-144 | the options after the pushes are exactly the given options followed by the built-ins not yet labelled, each name once, in `DEFAULT_CATALOGS` order |
| WorkSpace.CatalogOptionsSpec | src/work.space.ts:121-149 | existing keys first, lower-cased and in order; then exactly the built-ins no existing key lower-cases to, in `DEFAULT_CATALOGS` order; the `__new__` entry last; every built-in name is a label |
| WorkSpace.BuildCatalogOptions | src/work.space.ts:121-149 | the loops build exactly that option list |
| WorkSpace.ValidateName | src/work.space.ts:162-166 | the `validate` callback: the empty-name message, the duplicate message, or none; specified by `WorkSpace.ValidateNameSpec` and `WorkSpace.AcceptedNameIsNew` |
| WorkSpace.ValidateNameSpec | src/work.space.ts:162-166 | refused as empty iff blank; refused as duplicate iff not blank and its trimmed form is a label; accepted iff neither |
| WorkSpace.AcceptedNameIsNew | src/work.space.ts:158-169 | an accepted custom name passes the round's name check and, trimmed, differs from every lower-cased existing catalog, every built-in name and the custom entry's label |
| Objects.Put | src/work.space.ts:218 | assignment `o[k] = v`: same keys when `k` is present, `k` appended otherwise; read-back specified by `Objects.PutSpec` and `Objects.PutAt` |
| Objects.PutSpec | src/work.space.ts:218 | assignment: the key reads the new value, every other key reads as before, keys stay distinct |
| Objects.Delete | src/work.space.ts:39 | `delete o[k]`: never larger, strictly smaller when `k` is present; read-back specified by `Objects.DeleteSpec` |
| Objects.DeleteSpec | src/work.space.ts:39 | `delete`: the key is gone, other keys read as before, survivors keep their order |
| Objects.Assign | src/work.space.ts:95 | `Object.assign(target, source)` as assignments of the source pairs left to right; specified by `Objects.AssignSpec` |
| Objects.AssignSpec | src/work.space.ts:49-52 | spread / `Object.assign`: keys of the source read the source's value, other keys the target's |
| Strings.Trim | src/work.space.ts:163 | `value.trim()`; specified by `Strings.TrimSpec` |
| Strings.TrimSpec | src/work.space.ts:163 | `trim()` is empty iff the string is all whitespace; otherwise it neither starts nor ends with whitespace; it is an infix of the input and everything cut off before and after it is whitespace |
| Strings.ReplaceFirstSuffix | src/utils.ts:27 | removing `/package.json` from `<dir>/package.json` gives `<dir>` |
| Strings.NatToStringRoundTrip | src/utils.ts:75 | the rendered count reads back as the count |
| Strings.LexLessTransitive | src/utils.ts:121 | the stand-in for `localeCompare` is transitive |
| Strings.LexLessTotal | src/utils.ts:121 | and total on distinct strings |

## Left out

- Backup and restore, the CLI, the spinner, table printing and
  `process.exit`. These are not part of the catalog logic.
- File reads and writes, `findUp` and glob discovery. Manifests are given
  already read.
- YAML and JSON parsing and serialization. Output text comes from a
  `render` function parameter.
- Prompts and cancellation. Answers are parameters. When the supplied
  answers run out, the session ends; with the real tool it would wait for
  more input.
- Colouring with picocolors. It is treated as the identity.
- `localeCompare` is replaced by code-point lexicographic order, so the
  model does not capture locale collation.
- `toLowerCase` is modelled for ASCII letters only.
- Only a package's `name` and its object-valued fields are represented.
  A dependency field holding a non-object value such as `null` is not
  modelled.
- Property reads see only an object's own keys. In JavaScript, `obj[key]`
  on a plain object also finds names inherited from `Object.prototype`,
  such as `constructor`, `toString` or `__proto__`, and these read as
  truthy. The source then treats a dependency named `constructor` as
  managed even when no round chose it (src/dependencies.ts:22 and 27-28,
  with `allDependencies` starting as `{}` at src/work.space.ts:90). A
  catalog named `__proto__` would be taken as already present
  (src/work.space.ts:48). The model does not capture these inherited names.
- JavaScript places integer-like object keys before other keys. The model
  keeps plain insertion order.
- `Array.from(new Set([...options]))` removes no duplicates, because the
  options are distinct objects, so the model keeps the list as built.
- The per-file hit lists (`used`/`unused`) expected by the command module
  and the `normalizerUsedDependencies` named by the dependency test are not
  in `src/dependencies.ts`. The model follows the `{path, context,
  isUpdate}` shape that the file returns.
- Two behaviours follow the code as written:
  - only `dependencies`, `devDependencies` and `optionalDependencies` are
    examined (`DEPENDENCY_TYPES`), so `peerDependencies` is never rewritten;
  - a declaration that is exactly `catalog:` is rewritten to
    `catalog:<category>`, because src/dependencies.ts:44 compares it with the
    full target (`Dependencies.BarePlaceholderIsRewritten`).
- A `catalogs` entry is modelled as an object. A YAML entry that is `null`
  (falsy) is not modelled.
- The reconciler methods require each dependency block to have distinct
  keys. `JSON.parse` always produces such objects.
