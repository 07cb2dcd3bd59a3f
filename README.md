# Install planning of an npm fork, modelled in Dafny

This project models the part of npm's installer that decides *what* to
install and *where*, before anything is written to disk:

- **Metadata fetching** (`FetchMetadata`, fetch_metadata.dfy):
  - the key under which concurrent fetches of one specifier are coalesced;
  - the registry version selection: a dist-tag first, then the highest
    version not above `latest` that satisfies the range, then the highest
    version that satisfies it, and otherwise an error listing every candidate;
  - the checks applied to a directory's `package.json`;
  - the order in which a hosted-git dependency is fetched;
  - which entry of a local tarball is read as the manifest.
- **Tree placement and reuse** (`Deps`, deps.dfy):
  - the dependency tree is an index-addressed arena of nodes, held in the
    class `DependencyTree`; each node records its parent, its ordered
    children and its `requires`/`requiredBy` edges;
  - `findRequirement` looks upwards for a node that already meets a
    requirement;
  - `earliestInstallable` hoists a new package as high as name and
    executable clashes allow;
  - `resolveRequirement` attaches a new node;
  - `resolveWithExistingModule` merges a requested range into a reused node;
  - `pushUnique` and lodash `union` maintain the edge lists.
- **Flattening** (`FlattenTree`, flatten_tree.dfy): maps slash-joined name
  paths to nodes, remembering the order in which the keys were first assigned.
- **Diffing** (`DiffTrees`, diff_trees.dfy): compares an old and a new tree
  and emits `remove`, `add` and `update` actions, using the three-way package
  equivalence rule.
- **Decomposition** (`DecomposeActions`, decompose_actions.dfy): expands each
  `add`/`update` into eight lifecycle steps and passes every other action
  through.
- **Shared values** (packages.dfy, actions.dfy): manifests, descriptors, and
  the caller-owned action arrays (class `ActionList`).

Version strings are only ever compared through the `gt` and `satisfies`
relations. These are passed in as function parameters, so every property
below holds for any semver implementation. The registry, the filesystem, git
and archive streams are represented by their outcomes, which are also passed
in as parameters: a `Result`, a stat outcome, or a sequence of archive
entries.

Each operation has one of two forms:

- Operations the source writes as loops, or as updates of objects, are
  methods. Examples are the selection scans, the tarball walk, the tree
  mutations, the flattening closure, and the `forEach` loops that push onto
  `differences` and `decomposed`.
- Some of these methods are proved equal to a specification function:
  `FlattenTree` to `Flatten`, `DiffTrees` to `Diff`, `Decompose` to
  `Decomposition`, and the tarball walk to `TarManifest`. The lemmas state
  what the source promises about those functions.
- The other methods state their result or new state directly in their
  postconditions. `SelectVersion` names the version it returns. The tree
  mutations give the new arena as `Attached` or `Relinked` of the old one.
- Operations the source writes as expressions and recursion, such as
  `findRequirement` and `earliestInstallable`, are functions, with lemmas
  beside them.

## Model

| member | source | states |
|---|---|---|
| FetchMetadata.NormalizedKey | lib/fetch-package-metadata.js:37 | the coalescing key is the bare spec exactly for an unnamed descriptor; a named one gets its name and "@" in front of the spec |
| FetchMetadata.KeySeparatesSpecs | lib/fetch-package-metadata.js:37 | for requests with the same name (or both unnamed), the coalescing key is shared exactly when the specs are equal |
| FetchMetadata.LatestVersion | lib/fetch-package-metadata.js:182 | the bound of the first scan is the non-empty `latest` dist-tag if there is one, otherwise the highest version, otherwise empty (the source's `undefined`) |
| FetchMetadata.SelectVersion | lib/fetch-package-metadata.js:175-208 | a tag yields the manifest of the version it names, if that version is published, otherwise the error; a range yields the highest version not above `latest` that satisfies it, failing that the highest satisfying version, failing that the no-compatible-version error carrying the sorted candidate list; the version returned is the first in the sorted list that fits, or failing that the first that satisfies; every success is a manifest of `p.versions` |
| FetchMetadata.SortedKeysUnique | lib/fetch-package-metadata.js:175 | for an asymmetric `gt`, only one strictly descending list holds exactly the published versions |
| FetchMetadata.NoLatestTagMeansNoFallback | lib/fetch-package-metadata.js:182-191 | without a `latest` dist-tag the bound is the highest version, so the first scan accepts exactly the satisfying versions |
| FetchMetadata.JoinQuotedAt | lib/fetch-package-metadata.js:204 | each candidate appears, quoted, in `JSON.stringify(versions)` at its computed offset |
| FetchMetadata.OffsetIncreasing | lib/fetch-package-metadata.js:204 | candidates appear in the message in the order of the list, which is descending |
| FetchMetadata.MessageWithoutTargets | lib/fetch-package-metadata.js:203-207 | the message ends in "No valid targets found." exactly when there are no candidates |
| FetchMetadata.MessageNamesTarget | lib/fetch-package-metadata.js:203-207 | the error message contains every candidate version, quoted, after "Valid install targets:" |
| FetchMetadata.FetchDirectoryPackageData | lib/fetch-package-metadata.js:282-290 | a read error passes through; the manifest is rejected, in this order, for a missing name, a missing version, or a name other than the expected one, and the last error carries both names; otherwise it is returned unchanged |
| FetchMetadata.FetchHostedGitPackageData | lib/fetch-package-metadata.js:158-165 | the direct URL is tried first, then HTTPS, then SSH; the fetch succeeds if any of them succeeds, the result is that of the last location tried, and SSH is tried exactly when both earlier attempts fail |
| FetchMetadata.PackageJsonPatternTooLoose | lib/fetch-package-metadata.js:250 | the pattern as written accepts `package/package/json`, which is not a top-level `package.json` |
| FetchMetadata.IntendedPatternNarrower | lib/fetch-package-metadata.js:250 | every path the intended pattern accepts is also accepted by the written one |
| FetchMetadata.FirstMatch | lib/fetch-package-metadata.js:248-252 | the index found is that of the first entry the pattern accepts, or the number of entries when no entry is accepted |
| FetchMetadata.TarManifest | lib/fetch-package-metadata.js:247-258 | only the first entry the pattern accepts is parsed, and later entries are ignored; without such an entry the result is the "No package.json found" error |
| FetchMetadata.FetchLocalTarPackageData | lib/fetch-package-metadata.js:247-258 | the walk with its found-flag returns `TarManifest` for whichever pattern it is given: the program's pattern as written, or the corrected one |
| FetchMetadata.AsWrittenWalkParsesOtherEntry | lib/fetch-package-metadata.js:248-252 | for entries `pkg/packageXjson` then `pkg/package.json`, the walk with the pattern as written parses the first entry and the walk with the intended pattern parses the second |
| FetchMetadata.WalksAgree | lib/fetch-package-metadata.js:248-252 | when every entry the written pattern accepts is a top-level `package.json`, both walks return the same result |
| FetchMetadata.FetchLocalPackageData | lib/fetch-package-metadata.js:59-67 | a stat error passes through; a directory fails with code ENOPACKAGEJSON; anything else is read as a tarball, using the corrected pattern |
| Deps.NameMatches | lib/install/deps.js:168 | the filter keeps exactly the children that have the name |
| Deps.VersionMatches | lib/install/deps.js:170 | the filter keeps exactly the candidates whose version satisfies the range |
| Deps.BinMatches | lib/install/deps.js:193-197 | the filter keeps exactly the children that declare an executable of the new package |
| Deps.RequestedRange | lib/install/deps.js:83-85 | the range looked up is the non-empty requested spec when the manifest has one, otherwise its version |
| Deps.FindRequirement | lib/install/deps.js:155-178 | a returned node has the name and a satisfying version, and is the start node, an ancestor of it, or a child of one of those |
| Deps.FindRequirementDecidesAtFirstLevel | lib/install/deps.js:162-175 | a found node is a candidate of the first level of the chain that mentions the name, either as the node itself or as one of its children |
| Deps.FindRequirementNullAtFirstLevel | lib/install/deps.js:162-177 | when null is returned, no candidate at that first level satisfies the range, and no higher level is consulted |
| Deps.EarliestInstallable | lib/install/deps.js:183-203 | null exactly when the start level has a child with the name or a clashing executable; otherwise an unobstructed level on the chain to the root; the tree is only read |
| Deps.EarliestInstallableHighest | lib/install/deps.js:200-202 | the answer is the last level of the run of unobstructed levels that starts at the requester: the level above it is obstructed, or it is the root |
| Deps.EarliestInstallableRoot | lib/install/deps.js:200 | when every level up to the root is clear, the answer is the root |
| Deps.RootClearIsNotEnough | lib/install/deps.js:202 | a four-node tree where the root is clear but an obstructed middle level keeps the package under the requester |
| Deps.Dedup | lib/install/deps.js:113 | the de-duplication behind lodash `union` leaves no element twice and keeps exactly the elements of its input |
| Deps.PushUnique | lib/install/deps.js:121-126 | the element is present afterwards; the list grows by one exactly when the element was absent; existing elements keep their positions |
| Deps.PushUniqueOnce | lib/install/deps.js:121-126 | pushing twice changes nothing the second time; on a duplicate-free list the element ends up there exactly once |
| Deps.UnionFresh | lib/install/deps.js:139 | `union(a, [x])` with `x` absent is the distinct elements of `a` followed by `x` |
| Deps.UnionIsPushUnique | lib/install/deps.js:112-113 | `union(a, [x])` is `pushUnique` on the distinct elements of `a`, and repeating the union adds no duplicate |
| Deps.MergeRequested | lib/install/deps.js:97-111 | with no recorded range, the incoming descriptor is taken if the version satisfies it, otherwise `{spec: version, type: "version"}`; a differing incoming spec is appended after a space and the type becomes `range`; nothing changes exactly when the specs are equal; the name and raw spec are kept |
| Deps.RemergeAppendsAgain | lib/install/deps.js:108-110 | the range text is not idempotent: the same differing range is appended again on the next reuse |
| Deps.Placement | lib/install/deps.js:136 | `earliestInstallable(tree) \|\| tree` is a node on the requester's chain to the root |
| Deps.DependencyTree.ResolveRequirement | lib/install/deps.js:128-143 | exactly one new node is appended to the children of the chosen parent, and other nodes' children are unchanged; its path is the parent's path + "/node_modules/" + name and its `requiredBy` is `[tree]`; the requester's `requires` gains the child exactly once; when hoisted, no sibling has the same name; the new arena is the old one with exactly these changes (`Attached`); the tree stays well formed |
| Deps.DependencyTree.ResolveWithExistingModule | lib/install/deps.js:96-113 | the node's requested descriptor becomes the merged one; `requiredBy` and `requires` gain the two edges as set unions; the new arena is the old one with exactly these changes (`Relinked`), so nothing else changes; the tree stays well formed |
| Deps.DependencyTree.AddDependency | lib/install/deps.js:83-92 | reuses the node `findRequirement` returns for the requested range (or the version), merging the range and adding both edges; otherwise attaches a new node at `earliestInstallable(tree) \|\| tree`; in both cases the whole new arena is stated |
| FlattenTree.FlattenTree | lib/install/flatten-tree.js:3-12 | the recursive closure fills a fresh table that equals the specification `Flatten` |
| FlattenTree.FlatTable.Visit | lib/install/flatten-tree.js:5-9 | storing a node under `path + name` and then visiting its children in order updates the table as `FlattenFrom` does |
| FlattenTree.FlattenFrom | lib/install/flatten-tree.js:5-9 | assigning a key keeps the key order free of duplicates and in step with the keys; keys are only added; the node's own key is present |
| FlattenTree.ChildKey | lib/install/flatten-tree.js:6-8 | a child's key is its parent's key + "/" + its package name |
| FlattenTree.FlattenKeys | lib/install/flatten-tree.js:4-11 | the key of every node reachable through `children` is present, though same-named siblings share one key that holds only one of them; every stored node lies under the root and is stored under its own key |
| FlattenTree.StoredUnderOwnName | lib/install/flatten-tree.js:6-7 | the root is stored under its package name; any other stored node's key is its parent's key, a slash, and its own package name |
| FlattenTree.FlattenInjective | lib/install/flatten-tree.js:7 | different keys hold different nodes |
| FlattenTree.KeyInjective | lib/install/flatten-tree.js:6-8 | when every name is a valid, non-empty npm name (plain, or scoped as `@scope/name`) and sibling names are distinct, different nodes have different keys |
| FlattenTree.SplitKey | lib/install/flatten-tree.js:6-8 | a key extended by a slash and a valid name, scoped or not, can be split back into the key and the name in only one way |
| FlattenTree.FlattenCount | lib/install/flatten-tree.js:7 | the table has at most one key per reachable node, and exactly one per node when sibling names are distinct and every name is a valid, non-empty npm name, scoped names included |
| DiffTrees.PkgAreEquiv | lib/install/diff-trees.js:5-9 | equivalent packages either both have `dist` with equal shasums or both lack it and have equal versions; a package is equivalent to itself |
| DiffTrees.PkgAreEquivCases | lib/install/diff-trees.js:5-9 | with `dist` on both sides, equal shasums decide; with `dist` on one side only, never equivalent; with neither, equal versions decide |
| DiffTrees.PkgAreEquivIsEquivalence | lib/install/diff-trees.js:5-9 | the rule is reflexive, symmetric and transitive |
| DiffTrees.Removals | lib/install/diff-trees.js:15-18 | the first loop pushes only `remove` actions, at most one per old path |
| DiffTrees.Changes | lib/install/diff-trees.js:19-27 | the second loop pushes only `add` and `update` actions, at most one per new path |
| DiffTrees.DiffTrees | lib/install/diff-trees.js:11-29 | the differ appends exactly `Diff(old, new)` to `differences`, and entries already there are kept |
| DiffTrees.PushRemovals | lib/install/diff-trees.js:15-18 | the first `forEach` appends the removals of the old paths in key order |
| DiffTrees.PushChanges | lib/install/diff-trees.js:19-27 | the second `forEach` appends the additions and updates of the new paths in key order |
| DiffTrees.DiffRemovesFirst | lib/install/diff-trees.js:15-27 | every `remove` precedes every `add` and `update` |
| DiffTrees.RemovalsOnce | lib/install/diff-trees.js:15-18 | on a duplicate-free key list, a vanished path's removal appears exactly once |
| DiffTrees.DiffRemovals | lib/install/diff-trees.js:15-18 | each old path absent from the new tree yields exactly one `remove` of its node, and every `remove` is of such a path |
| DiffTrees.DiffAdditions | lib/install/diff-trees.js:24-26 | each path only in the new tree yields an `add` of its node, and every `add` is of such a path |
| DiffTrees.DiffUpdates | lib/install/diff-trees.js:20-23 | a path in both trees yields `update` exactly when the new node is directly requested or the packages are not equivalent |
| DiffTrees.DiffSelf | lib/install/diff-trees.js:15-27 | diffing a tree against itself yields no `add` or `remove`: only updates of directly requested nodes |
| DecomposeActions.ExpandShape | lib/install/decompose-actions.js:10-24 | `add`/`update` becomes fetch, extract, preinstall, build, install, postinstall, test, finalize, all with the same package; `remove` and any other verb becomes the unchanged action |
| DecomposeActions.DecompositionLength | lib/install/decompose-actions.js:6-26 | the output grows by 8 per `add`/`update` and by 1 per other action |
| DecomposeActions.DecompositionAppend | lib/install/decompose-actions.js:6-26 | decomposing two runs of actions in turn is decomposing their concatenation |
| DecomposeActions.DecompositionBlocks | lib/install/decompose-actions.js:6-26 | output blocks follow input order: the block of action `i` lies between the blocks of the actions before and after it |
| DecomposeActions.DecompositionMembers | lib/install/decompose-actions.js:10-24 | every output entry carries the package of an input action, with that action's verb or, for `add`/`update`, a lifecycle step |
| DecomposeActions.Decompose | lib/install/decompose-actions.js:4-28 | appends exactly the decomposition of `differences` to `decomposed`; existing entries are kept |

## Left out

- Request coalescing through `inflight` (lib/fetch-package-metadata.js:51, 172, 243, 281). It only de-duplicates concurrent calls; only the key it uses is modelled.
- `addShrinkwrap`, `addBundled`, `untarStream`, `fetchRemoteTarPackageData` and `fetchGitPackageData`. These are filesystem, zlib/tar stream, cache and network code.
- Attaching `requested` to fetched manifests (lines 38-47). `Deps.DependencyTree.AddDependency` and `Deps.DependencyTree.ResolveWithExistingModule` require `pkg.requested` to be present, which that wrapper guarantees for every manifest the fetcher returns.
- `mapToRegistry` and the registry client: the packument is a parameter.
- The sorting by `semver.rcompare`: the sorted list is a precondition, shown to be unique by `SortedKeysUnique`.
- FetchMetadata.SelectVersion: a missing dist-tag makes the source look up `p.versions[undefined]`, which is the key "undefined". The model treats a missing tag as "not published". The two differ only for a package that publishes a version literally named "undefined".
- FetchMetadata.JoinQuoted: `JSON.stringify` escaping is not modelled; version strings are taken to need none.
- FetchMetadata.ParseEntry: `path.join(dep.spec, entry.path)` is modelled as plain concatenation with "/", without path normalisation. JSON parsing is a parameter. Stream errors and the EJSONPARSE message text are not modelled.
- The async orchestration in `loadRequestedDeps`, `loadDeps`, `loadDevDeps`, `replaceDependency` and `warnOnError` (lib/install/deps.js:16-78). It is driven by concurrency and callbacks. The `loaded` flag is carried in each node but never set.
- `inflateShrinkwrap` and `addParentToErrors` are not part of this model.
- `child.realpath` via `path.resolve` (lib/install/deps.js:144): it depends on the process working directory.
- Deps.DependencyTree.ResolveRequirement: `path.join` normalisation of the new node's path is not modelled; the path is the plain concatenation.
- Aliasing: the source may share one `requested` object between nodes, so that `spec +=` would change both. The model copies descriptors, so each node's range changes alone.
- Global uniqueness of paths: it does not hold in general. When the requester already has a same-named child with a non-satisfying version, `earliestInstallable` returns null and the new node is placed under the requester beside that child. Only the hoisted case is proved name-fresh.
- Deps.FindRequirement: the proof covers which level decides and what is returned. It does not prove that the first satisfying child in `children` order is the one chosen.
- Deps.EarliestInstallable: the code does not return the highest clear level. It returns the last level of the contiguous clear run starting at the requester (`EarliestInstallableHighest`). `RootClearIsNotEnough` shows a tree whose clear root is not chosen.
- FlattenTree.Flat: JavaScript places integer-like keys before other keys in `Object.keys`. The model keeps insertion order for every key; the two differ only for a package named by digits alone.
- FlattenTree.FlattenCount: that the later of two same-named siblings wins is not stated separately. The count lemma only bounds the number of keys.
- FlattenTree.FlattenFrom: a package without a `name` is keyed with the empty string, where the source's `path += pkg.package.name` appends the text "undefined". The manifest model uses "" both for a missing name and for an empty one, so it cannot tell the two apart. `ValidName` excludes empty names, so the count lemmas never rely on this difference.
- FlattenTree.ValidName: npm's other naming rules (length, URL-safe characters, no leading dot or underscore) are not modelled. Only the slash and `@` structure matters for distinct keys.
- DecomposeActions.Decompose: requires `differences` and `decomposed` to be different arrays. The callers always pass two arrays.
- Logging, trackers and `finishLogAfterCb`; the completion callbacks are dropped.

## Findings

| source | as written | input that shows it | evidently intended | confidence | as-written member | corrected member |
|---|---|---|---|---|---|---|
| lib/fetch-package-metadata.js:250 | the `.` in `/^(?:[^\/]+[\/])package.json$/` is not escaped, so it matches any character except a line terminator | an archive with `pkg/packageXjson` before `pkg/package.json` has its first entry parsed as the manifest; `package/package/json` is accepted as well | only `<dir>/package.json` is accepted | high, from reading the pattern; not executed | FetchMetadata.AsWrittenWalkParsesOtherEntry | FetchMetadata.FetchLocalPackageData |
