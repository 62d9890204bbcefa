# FishingBonus drop-table override engine, in Dafny

FishingBonus is a Valheim mod that lets a YAML document override the extra drops of
each fish. The document maps a fish prefab name to its roll parameters (DropMin,
DropMax, DropChance, OneOfEach) and its list of extra drops. A flag,
AddToDefaultDrops, says whether the configured drops replace the fish's own drops
or are added to them. This project models the four parts of the mod that hold logic
and proves properties of them:

1. **In-place override application.** `ConfigLoader.UpdateFishDrops` and
   `ConfigLoader.ApplyFishDropsConfig` live in `drop_config.dfy`. A fish's drop table
   is a heap object (`Game.DropTable`). Its live drop list is a heap object too
   (`Game.DropList`), and it is cleared and appended to in place.
2. **Catch-time drop computation.** `FishingFloatCatchPatch.Prefix` is
   `Patches.ModState.FishingFloatCatchPrefix`. It builds the cached originals
   followed by the resolvable configured drops. It then keeps the first entry per
   item name (`Patches.Distinct`) and installs the result as a new list.
3. **Reconciliation.** `ObjectDBAwakePatch.Postfix` is
   `Patches.ModState.ObjectDBAwakePostfix`. It adds an entry seeded from the current
   table for every fish of the item database that the document lacks. It saves the
   document only when a key was added. While `Initialized` is false, it seeds
   `originalDropsCache` with the live list of the first fish.
4. **Tolerant loaders.** `LoadFromText` and `LoadConfig` never fail outward: empty
   text, a failing deserializer or a null result all give an empty document.

The process-wide statics live in one class, `Patches.ModState`: the YAML file on
disk, the synchronised document text `FishDropsData`, `originalDropsCache` and
`ObjectDBAwakePatch.Initialized`. The cache maps names to `DropList` objects, so it
aliases the live lists exactly as the C# dictionary holds `List<DropData>`
references. Because of that, an `UpdateFishDrops` on a cached fish shows through
the cache (`Patches.ModState.CacheFollowsUpdate`).

Each state-changing method is proved against a function of its inputs:
- `UpdateFishDrops` against `UpdatedDrops`;
- the reconcile loop against `Reconciled`, `Updated` and `SeedCache`;
- the catch hook against `CombinedDrops` and `Distinct`.

The properties are proved as lemmas about those functions.

Modules: `Wrappers` (Option), `Game` (the game objects the mod touches),
`DropConfig` (`Utilities/DropConfig.cs`) and `Patches` (`Patches.cs`).

Two behaviours of the cache are easy to miss, and the model keeps both:
- **Only the first fish is cached.** The cache is filled only for the first fish
  with a Fish component, on the first pass of the process
  (`Patches.cs:67-76`). The `Initialized` flag is set after that fish.
  `Patches.SeedCache` states exactly this.
- **The cache holds the live list.** The cache stores the fish's live drop list
  (`Patches.cs:72`), which `UpdateFishDrops` later clears and appends to
  (`Utilities/DropConfig.cs:163,178`). `Patches.ModState.CacheFollowsUpdate` shows this.

## Model

| member | source | states |
|---|---|---|
| DropConfig.NewFishDropConfig | Utilities/DropConfig.cs:15-24 | a fresh override does not add to the defaults, has DropMin = DropMax = 1, DropChance = 1, OneOfEach false and no drops |
| DropConfig.NewDropConfig | Utilities/DropConfig.cs:46 | the fallback document: a DropConfig whose FishDrops map is empty (also used at Utilities/DropConfig.cs:56,65,78,88,97 and Patches.cs:21) |
| DropConfig.Trim | Utilities/DropConfig.cs:73 | the trimmed text is a slice of the input with only white space cut at either side and no white space at its ends |
| DropConfig.TrimStart | Utilities/DropConfig.cs:73 | the leading half of String.Trim: the result is a suffix of the input, what it cuts is all white space, and it starts with a non-white-space character when non-empty |
| DropConfig.TrimEnd | Utilities/DropConfig.cs:73 | the trailing half of String.Trim: the result is a prefix of the input, what it cuts is all white space, and it ends with a non-white-space character when non-empty |
| DropConfig.TrimEmptyIffWhiteSpace | Utilities/DropConfig.cs:73-79 | trimming gives the empty string exactly when the text is white space only |
| DropConfig.LoadFromText | Utilities/DropConfig.cs:69-99 | white-space-only text gives an empty map; every other outcome is the empty map or exactly the map the deserializer produced; a successful parse is returned as is |
| DropConfig.LoadConfig | Utilities/DropConfig.cs:37-67 | an unreadable file or white-space-only text gives an empty map; every other outcome is the empty map or the parsed map; a non-blank text whose parse yields a non-null map is returned as that map |
| DropConfig.ResolveAllMembers | Utilities/DropConfig.cs:166-173 | a drop is among the resolved entries exactly when some configured entry is non-null and its item is found in the database |
| DropConfig.Resolve | Utilities/DropConfig.cs:168-184 | computes the DropData for one configured entry: present only when the entry is non-null and GetItemPrefab finds its item, with stacks and weight copied verbatim (the same lookup as Patches.cs:134-143) |
| DropConfig.ResolveAll | Utilities/DropConfig.cs:166-184 | computes the resolvable entries of a Drops list, in config order |
| DropConfig.Step | Utilities/DropConfig.cs:168-189 | computes one pass of the foreach body: the resolved drop is appended unless an entry already has that item, otherwise the list is unchanged |
| DropConfig.AppendDrops | Utilities/DropConfig.cs:166-190 | defined as the foreach over the configured drops: each resolvable entry is appended when no drop already in the list has its item |
| DropConfig.UpdatedDrops | Utilities/DropConfig.cs:161-190 | defined as that loop started from the old list with AddToDefaultDrops and from the cleared list without it |
| DropConfig.UpdatedTable | Utilities/DropConfig.cs:156-190 | defined as the table with the four roll parameters taken from the override and the drops updated by UpdatedDrops |
| DropConfig.AppendDropsKeepsPrefix | Utilities/DropConfig.cs:166-190 | the appending loop never removes or reorders an existing entry |
| DropConfig.AppendDropsItems | Utilities/DropConfig.cs:166-190 | after the loop the items are those already present plus those of every resolvable entry |
| DropConfig.AppendDropsFrom | Utilities/DropConfig.cs:166-190 | every entry after the loop was already present or is a resolved configured entry |
| DropConfig.AppendDropsNoDup | Utilities/DropConfig.cs:175-185 | a list without duplicate items keeps that property through the loop |
| DropConfig.AppendDropsAbsorbs | Utilities/DropConfig.cs:175-189 | when every resolvable item is already present the loop appends nothing |
| DropConfig.UpdatedDropsReplaces | Utilities/DropConfig.cs:161-185 | without AddToDefaultDrops every resulting entry comes from some configured entry |
| DropConfig.UpdatedDropsExtends | Utilities/DropConfig.cs:161-185 | with AddToDefaultDrops the previous list is an unchanged prefix of the result |
| DropConfig.UpdatedDropsNoDup | Utilities/DropConfig.cs:163-185 | no duplicate items before the update means none after |
| DropConfig.UpdatedTableIdempotent | Utilities/DropConfig.cs:156-185 | applying the same override twice gives the same table as applying it once |
| DropConfig.UpdateFishDrops | Utilities/DropConfig.cs:154-191 | the four roll parameters equal the override's, unclamped; the same list object now holds UpdatedDrops of its old contents |
| DropConfig.ApplyFishDropsConfig | Utilities/DropConfig.cs:109-152 | nothing changes when the file is absent or there is no database; otherwise every fish table named by a document key is updated by its entry and every other table is unchanged |
| DropConfig.ApplyEntries | Utilities/DropConfig.cs:134-151 | after the loop over the keys, in any enumeration order, each keyed fish table holds its updated value and the rest are untouched |
| DropConfig.ApplyEntryTo | Utilities/DropConfig.cs:136-150 | one key updates at most its own fish table; keys without a prefab or without a Fish component change nothing |
| Patches.Distinct | Patches.cs:148 | defined as the GroupBy/First dedup: an entry is kept when no earlier entry has its item name |
| Patches.DistinctItems | Patches.cs:148 | every item name of the combined list survives the dedup and no other appears |
| Patches.DistinctNoDup | Patches.cs:148 | no two entries of the dedup share an item |
| Patches.DistinctOfNoDup | Patches.cs:148 | a list without duplicate items is its own dedup |
| Patches.DistinctAppend | Patches.cs:148 | the dedup of a concatenation is the dedup of the front followed by the back's entries whose items are new |
| Patches.DistinctIsKeepFirst | Patches.cs:148 | the dedup equals the front-to-back reading: keep an entry exactly when its item was not seen before, in order of first appearance |
| Patches.DistinctKeepsFront | Patches.cs:125-148 | cached originals without duplicates come through whole as a prefix, so they beat later configured entries for the same item |
| Patches.DedupExample | Patches.cs:148 | cached [A, B] plus configured [B', C] gives exactly [A, B, C] |
| Patches.AppendDropsIsDistinct | Utilities/DropConfig.cs:166-190 | the appending loop equals the dedup of the old list followed by the resolved entries |
| Patches.CatchAgreesWithUpdate | Patches.cs:125-148 | when the cached list is the live list, the catch-time list equals the list UpdateFishDrops leaves |
| Patches.NewEntry | Patches.cs:37-43 | a seeded entry does not add to the defaults and copies the four roll parameters of the table |
| Patches.SeedEntry | Patches.cs:37-61 | the entry built for a new fish is NewEntry of its current table, its drops copied in order with null items skipped |
| Patches.SeedDrops | Patches.cs:45-60 | defined as the drops of a seeded entry: one entry per table drop that names an item, in order, with name, stacks and weight copied |
| Patches.SeedThenResolve | Patches.cs:45-60 | resolving the seeded drops gives back the table's named entries with item, stacks and weight unchanged |
| Patches.SeededEntryReproducesTable | Patches.cs:37-63 | applying a freshly seeded entry to any table yields the table it was seeded from, when its items are set, distinct and resolvable |
| Patches.FoundInMembers | Patches.cs:23-31 | the pass sees exactly the items of type Fish that have a Fish component, under their normalised names |
| Patches.FoundIn | Patches.cs:23-31 | computes the fish the pass visits: the items of type Fish that have a Fish component, in database order, under their normalised names with their tables |
| Patches.Snapshot | Patches.cs:23-29 | computes the same sequence from the item database with each fish's table and drop list as they are now |
| Patches.Reconciled | Patches.cs:26-65 | defined as the document after the loop: each fish found whose name is not yet a key gains the entry seeded from its table |
| Patches.Updated | Patches.cs:25-64 | defined as the configUpdated flag after the loop: set by the first fish whose name was not yet a key |
| Patches.ReconciledKeys | Patches.cs:33-65 | the keys afterwards are the old keys plus the names of all fish found |
| Patches.ReconciledKeepsExisting | Patches.cs:33-34 | entries already in the document are never modified |
| Patches.ReconciledNewEntry | Patches.cs:33-63 | a name new to the document gets the entry seeded from the first fish found under it |
| Patches.ReconciledComplete | Patches.cs:33-65 | a document that already names every fish found is left unchanged |
| Patches.ReconciledIdempotent | Patches.cs:26-65 | a second pass over the same fish adds nothing, and configUpdated stays false on it |
| Patches.UpdatedIffKeyAdded | Patches.cs:25-64 | configUpdated is set exactly when some fish found is missing from the document, that is exactly when the key set changed |
| Patches.UpdatedIffNewName | Patches.cs:25-64 | configUpdated is set exactly when some name found is not a key of the loaded document |
| Patches.SeedCache | Patches.cs:67-76 | existing cache entries are never overwritten; only the first fish's name can be added, and only while not initialised, and then it maps to that fish's live list; Initialized ends true once any fish was seen |
| Patches.SeedCacheOnce | Patches.cs:67-76 | once a pass has seen a fish, later passes leave the cache and the flag unchanged |
| Patches.VisitFish | Patches.cs:31-76 | handling one fish extends the reconciled document, the flag and the cache by exactly that fish |
| Patches.VisitItem | Patches.cs:26-81 | handling one item extends the pass by that item when it is a fish with a Fish component and by nothing otherwise |
| Patches.ReconcileFish | Patches.cs:23-82 | the loop leaves the reconciled document, the flag and the seeded cache for the fish of the database in order |
| Patches.Contains | Patches.cs:114 | defined as the substring test of String.Contains: the name occurs at some position of the synchronised text |
| Patches.CombinedDrops | Patches.cs:125-145 | defined as the combined list: the cached originals when AddToDefaultDrops is set and a cache entry exists, then the resolvable non-null configured drops in order; none when there is no database and some drop is configured |
| Patches.CombineDrops | Patches.cs:125-145 | the combined list is the cached originals (with AddToDefaultDrops and a cache entry) then the resolvable non-null configured drops in order; it fails when there is no database and some drop is configured |
| Patches.Originals | Patches.cs:127-130 | computes the start of the combined list: the cached originals when AddToDefaultDrops holds and TryGetValue finds the fish, else empty |
| Patches.ModState.CachedDrops | Patches.cs:127 | computes the TryGetValue lookup of originalDropsCache: the cached list as it is now, or none when the fish has no entry |
| Patches.ModState.constructor | Patches.cs:14 | at process start the cache is empty and Initialized is false |
| Patches.ModState.ObjectDBAwakePostfix | Patches.cs:16-101 | the document is the loaded one reconciled with the database's fish; configUpdated is as UpdatedIffKeyAdded states; the cache is seeded as SeedCache states; the file is rewritten only when configUpdated; the synchronised text is reloaded from the file when it exists |
| Patches.ModState.FishingFloatCatchPrefix | Patches.cs:107-156 | nothing changes unless the drops are non-empty and the text contains the name as a substring; a missing key changes nothing; otherwise the roll parameters are written, and the list is replaced by the dedup of the combined drops unless combining fails or a drop names no item |
| Patches.ModState.ApplyEntry | Patches.cs:117-148 | the roll parameters equal the entry's; the drops are replaced by a fresh list holding the dedup of the combined drops exactly when combining succeeds with every item set |
| Patches.ModState.CacheFollowsUpdate | Patches.cs:72 | a list stored in the cache reflects a later in-place UpdateFishDrops of the same table |

## Left out

- Plugin.cs is not part of this model. It holds the mod's lifecycle, Harmony patching, the file watchers, the synchronised-value plumbing and the config bindings, none of which has logic of its own.
- YAML (de)serialisation is a pair of function parameters (`deserialize`, `serialize`) with no properties assumed, so no YAML round trip is claimed.
- File I/O: whether the file exists and its text are inputs (`yamlFile`, `yamlFileExists`), and writing it is a field update.
- Logging calls are left out; they have no effect on state.
- DropChance and RelativeWeight are `real` values that are only copied. Float rounding and the drop rolls done by the game are not modelled.
- Game lookups are abstract: `ObjectDB.GetItemPrefab` is a name map, `GetComponent<Fish>` is an optional table, and `Utils.GetPrefabName` is a function parameter. Items are prefab-name strings, and item identity is compared by name.
- `GetItemPrefab(null)` is treated as a miss, and `DropTable.IsEmpty` as "the list has no entries"; the game code behind both is not part of this model.
- DropConfig.ApplyFishDropsConfig: requires that distinct prefabs have distinct Fish components and distinct tables have distinct lists (as the game builds them). Without it, two keys could update the same table in an order the dictionary decides.
- DropConfig.ApplyEntries: the dictionary's enumeration order is a nondeterministic choice of the next key, so no particular order is modelled.
- DropConfig.LoadConfig: an exception while reading the file is modelled by the text being absent; other exceptions inside the loaders are folded into the deserializer's `Threw` outcome.
- Patches.ModState.ObjectDBAwakePostfix: an exception in SaveConfig is not modelled, and re-reading the file after a save is assumed to return the saved text.
- Patches.ModState.ObjectDBAwakePostfix: the write of FishDropsData at Patches.cs:94 (AssignLocalValue) fires its ValueChanged handler, registered at Plugin.cs:44 (OnValChangedUpdate, Plugin.cs:91-96), which runs ApplyFishDropsConfig and so UpdateFishDrops on every configured fish, overwriting in place the lists the postfix has just cached. The model stops before that handler and treats AssignLocalValue as a plain assignment; the effect of the handler is what DropConfig.ApplyFishDropsConfig models when called afterwards.
- DropConfig.ApplyFishDropsConfig: document values and their `Drops` lists are assumed non-null, as their declared C# types say. A null entry or a null `Drops` list throws at `Utilities/DropConfig.cs:156` or `:166`. That exception escapes the loop and leaves later keys unapplied, and it may leave the failing table half-written. This path is not modelled.
- Patches.ModState.FishingFloatCatchPrefix: the document value and its `Drops` list are assumed non-null. A null entry throws at `Patches.cs:119`, before any write. A null `Drops` list throws at `Patches.cs:132`, after the roll parameters are written. Neither exception path is modelled.
- Patches.ModState.FishingFloatCatchPrefix: GetPrefabName is assumed not to throw. A null ExtraDrop inside `Drops` is a `None`, but a null `Item` string inside a non-null ExtraDrop is not modelled.
- The `OnValChangedUpdate` handler that calls ApplyFishDropsConfig, and its catch-all, belong to Plugin.cs and are not modelled.
