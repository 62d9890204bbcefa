/** The two game hooks: reconciling the document against the item database when it is
    loaded (ObjectDBAwakePatch.Postfix) and recomputing a fish's drops just before it is
    caught (FishingFloatCatchPatch.Prefix), with the process-wide state they share. */
module Patches {
  import opened Wrappers
  import opened Game
  import opened DropConfig

  // ---------------------------------------------------------------------------
  // Catch-time dedup: GroupBy(item name).Select(First)
  // ---------------------------------------------------------------------------

  /** The first entry for each item, in order of first appearance. */
  function Distinct(s: seq<DropData>): seq<DropData>
  {
    if s == [] then []
    else
      var r := Distinct(s[..|s| - 1]);
      var last := s[|s| - 1];
      if last.item in ItemsOf(r) then r else r + [last]
  }

  /** An independent reading of the same dedup, front to back: keep an entry when its item
      has not been seen yet. */
  function KeepFirst(s: seq<DropData>, seen: set<Option<string>>): seq<DropData>
  {
    if s == [] then []
    else if s[0].item in seen then KeepFirst(s[1..], seen)
    else [s[0]] + KeepFirst(s[1..], seen + {s[0].item})
  }

  /** Every item of the combined list survives the dedup, and no other appears. */
  lemma {:induction false} DistinctItems(s: seq<DropData>)
    ensures ItemsOf(Distinct(s)) == ItemsOf(s)
  {
    if s != [] {
      var init := s[..|s| - 1];
      DistinctItems(init);
      ItemsOfAppend(init, [s[|s| - 1]]);
      assert init + [s[|s| - 1]] == s;
      ItemsOfAppend(Distinct(init), [s[|s| - 1]]);
    }
  }

  /** No two entries of the dedup share an item. */
  lemma {:induction false} DistinctNoDup(s: seq<DropData>)
    ensures NoDupItems(Distinct(s))
  {
    if s != [] {
      var r := Distinct(s[..|s| - 1]);
      DistinctNoDup(s[..|s| - 1]);
      var last := s[|s| - 1];
      if last.item !in ItemsOf(r) {
        forall i | 0 <= i < |r| ensures r[i].item != last.item {
          assert r[i] in r;
        }
      }
    }
  }

  /** A list without duplicate items is its own dedup. */
  lemma {:induction false} DistinctOfNoDup(s: seq<DropData>)
    requires NoDupItems(s)
    ensures Distinct(s) == s
  {
    if s != [] {
      var init := s[..|s| - 1];
      DistinctOfNoDup(init);
    }
  }

  lemma DistinctSnoc(s: seq<DropData>, x: DropData)
    ensures Distinct(s + [x]) == if x.item in ItemsOf(Distinct(s)) then Distinct(s) else Distinct(s) + [x]
  {
    assert (s + [x])[..|s + [x]| - 1] == s;
  }

  /** Dedup of a concatenation: the dedup of the front, then the entries of the back whose
      items neither the front nor an earlier back entry has. */
  lemma {:induction false} DistinctAppend(p: seq<DropData>, s: seq<DropData>)
    ensures Distinct(p + s) == Distinct(p) + KeepFirst(s, ItemsOf(p))
    decreases |s|
  {
    if s == [] {
      assert p + s == p;
    } else {
      var x := s[0];
      var p' := p + [x];
      assert p + s == p' + s[1..];
      DistinctAppend(p', s[1..]);
      assert ItemsOf(p') == ItemsOf(p) + {x.item} by {
        ItemsOfAppend(p, [x]);
        assert ItemsOf([x]) == {x.item};
      }
      assert x.item in ItemsOf(Distinct(p)) <==> x.item in ItemsOf(p) by {
        DistinctItems(p);
      }
      DistinctSnoc(p, x);
      if x.item in ItemsOf(p) {
        assert ItemsOf(p') == ItemsOf(p);
      } else {
        var k := KeepFirst(s[1..], ItemsOf(p'));
        assert Distinct(p) + [x] + k == Distinct(p) + ([x] + k);
      }
    }
  }

  /** The two readings of the dedup agree. */
  lemma DistinctIsKeepFirst(s: seq<DropData>)
    ensures Distinct(s) == KeepFirst(s, {})
  {
    DistinctAppend([], s);
    assert [] + s == s;
    assert ItemsOf([]) == {};
  }

  /** When the front has no duplicate items it comes through whole: a cached original
      wins over a later explicit entry for the same item. */
  lemma DistinctKeepsFront(p: seq<DropData>, s: seq<DropData>)
    requires NoDupItems(p)
    ensures var r := Distinct(p + s); |p| <= |r| && r[..|p|] == p
  {
    DistinctAppend(p, s);
    DistinctOfNoDup(p);
  }

  /** Cached [A, B] followed by explicit [B', C] (B' the same item as B with other stacks
      and weight) gives [A, B, C]: three entries, the cached B kept. */
  lemma DedupExample(a: DropData, b: DropData, b': DropData, c: DropData)
    requires a.item != b.item && a.item != c.item && b.item != c.item && b'.item == b.item
    ensures Distinct([a, b] + [b', c]) == [a, b, c]
  {
    assert [a, b] + [b', c] == [a, b, b'] + [c];
    assert [a, b, b'] == [a, b] + [b'];
    assert [a, b] == [a] + [b];
    assert [a] == [] + [a];
    DistinctSnoc([], a);
    DistinctSnoc([a], b);
    DistinctSnoc([a, b], b');
    DistinctSnoc([a, b, b'], c);
    assert ItemsOf([a]) == {a.item};
    assert ItemsOf([a, b]) == {a.item, b.item};
  }

  // ---------------------------------------------------------------------------
  // The eager path (UpdateFishDrops) against the lazy path (catch-time dedup)
  // ---------------------------------------------------------------------------

  /** The foreach of UpdateFishDrops is the dedup of the old list followed by the
      resolved entries, as long as the old list had no duplicate items. */
  lemma {:induction false} AppendDropsIsDistinct(list: seq<DropData>, ds: seq<Option<ExtraDrop>>, db: ObjectDB)
    requires NoDupItems(list)
    ensures AppendDrops(list, ds, db) == Distinct(list + ResolveAll(db, ds))
  {
    if ds == [] {
      assert list + [] == list;
      DistinctOfNoDup(list);
    } else {
      var init := ds[..|ds| - 1];
      var r := Resolve(db, ds[|ds| - 1]);
      AppendDropsIsDistinct(list, init, db);
      if r.Some? {
        var front := list + ResolveAll(db, init);
        assert list + ResolveAll(db, ds) == front + [r.value];
        DistinctSnoc(front, r.value);
      } else {
        assert list + ResolveAll(db, ds) == list + ResolveAll(db, init);
      }
    }
  }

  /** The cached originals kept only with AddToDefaultDrops and a cache entry. */
  function Originals(config: FishDropConfig, cached: Option<seq<DropData>>): seq<DropData>
  {
    if config.addToDefaultDrops && cached.Some? then cached.value else []
  }

  /** When the cache entry is the fish's current list (the cache holds the live list) and it
      has no duplicate items, the catch-time list equals the one UpdateFishDrops leaves. */
  lemma CatchAgreesWithUpdate(live: seq<DropData>, config: FishDropConfig, db: ObjectDB)
    requires NoDupItems(live)
    ensures Distinct(Originals(config, Some(live)) + ResolveAll(db, config.drops)) == UpdatedDrops(live, config, db)
  {
    var start := if config.addToDefaultDrops then live else [];
    AppendDropsIsDistinct(start, config.drops, db);
  }

  // ---------------------------------------------------------------------------
  // Reconciliation
  // ---------------------------------------------------------------------------

  /** A fish seen in the item database: its normalised name, the value of its drop table and
      the live drop list object. */
  datatype Found = Found(name: string, table: TableValue, list: DropList)

  /** The configured drops seeded from a table: one per entry with an item, in order. */
  function SeedDrops(ds: seq<DropData>): seq<Option<ExtraDrop>>
  {
    if ds == [] then []
    else
      var d := ds[|ds| - 1];
      SeedDrops(ds[..|ds| - 1]) +
        if d.item.Some? then [Some(ExtraDrop(d.item.value, d.stackMin, d.stackMax, d.weight))] else []
  }

  /** The entries of a drop list that name an item. */
  function NamedDrops(ds: seq<DropData>): seq<DropData>
  {
    if ds == [] then []
    else NamedDrops(ds[..|ds| - 1]) + if ds[|ds| - 1].item.Some? then [ds[|ds| - 1]] else []
  }

  /** The document entry made for a fish not yet in the document. */
  function NewEntry(t: TableValue): (c: FishDropConfig)
    ensures !c.addToDefaultDrops
    ensures c.dropChance == t.dropChance && c.dropMin == t.dropMin && c.dropMax == t.dropMax
    ensures c.oneOfEach == t.oneOfEach
  {
    NewFishDropConfig().(dropChance := t.dropChance, dropMin := t.dropMin, dropMax := t.dropMax,
      oneOfEach := t.oneOfEach, drops := SeedDrops(t.drops))
  }

  /** Every named item of the list is found under its own name in the database. */
  predicate SelfResolving(db: ObjectDB, ds: seq<DropData>)
  {
    forall i :: 0 <= i < |ds| && ds[i].item.Some? ==>
      ds[i].item.value in db.byName && db.byName[ds[i].item.value].name == ds[i].item.value
  }

  /** Seeding then resolving gives back the named entries: item, stacks and weight are
      copied verbatim and in order. */
  lemma {:induction false} SeedThenResolve(db: ObjectDB, ds: seq<DropData>)
    requires SelfResolving(db, ds)
    ensures ResolveAll(db, SeedDrops(ds)) == NamedDrops(ds)
  {
    if ds != [] {
      var init := ds[..|ds| - 1];
      var d := ds[|ds| - 1];
      assert SelfResolving(db, init) by {
        forall i | 0 <= i < |init| && init[i].item.Some?
          ensures init[i].item.value in db.byName && db.byName[init[i].item.value].name == init[i].item.value
        {
          assert init[i] == ds[i];
        }
      }
      SeedThenResolve(db, init);
      var seeded := SeedDrops(init);
      if d.item.Some? {
        var e := Some(ExtraDrop(d.item.value, d.stackMin, d.stackMax, d.weight));
        assert SeedDrops(ds) == seeded + [e];
        assert (seeded + [e])[..|seeded + [e]| - 1] == seeded;
      } else {
        assert SeedDrops(ds) == seeded;
      }
    }
  }

  lemma {:induction false} NamedDropsAllNamed(ds: seq<DropData>)
    requires AllNamed(ds)
    ensures NamedDrops(ds) == ds
  {
    if ds != [] {
      NamedDropsAllNamed(ds[..|ds| - 1]);
    }
  }

  /** Applying a freshly seeded entry gives back the table it was seeded from, provided the
      table's items are all set, distinct and found under their own names. */
  lemma SeededEntryReproducesTable(t: TableValue, current: TableValue, db: ObjectDB)
    requires AllNamed(t.drops) && NoDupItems(t.drops) && SelfResolving(db, t.drops)
    ensures UpdatedTable(current, NewEntry(t), db) == t
  {
    SeedThenResolve(db, t.drops);
    NamedDropsAllNamed(t.drops);
    AppendDropsIsDistinct([], SeedDrops(t.drops), db);
    assert [] + t.drops == t.drops;
    DistinctOfNoDup(t.drops);
  }

  /** The document after the reconciling loop: each fish not yet present gets a new entry
      seeded from its table; present entries are kept. */
  function Reconciled(fishDrops: map<string, FishDropConfig>, fs: seq<Found>): map<string, FishDropConfig>
  {
    if fs == [] then fishDrops
    else
      var m := Reconciled(fishDrops, fs[..|fs| - 1]);
      var f := fs[|fs| - 1];
      if f.name in m then m else m[f.name := NewEntry(f.table)]
  }

  function NamesOf(fs: seq<Found>): set<string>
  {
    set f | f in fs :: f.name
  }

  /** The keys afterwards are the old keys plus the names of all fish found. */
  lemma {:induction false} ReconciledKeys(fishDrops: map<string, FishDropConfig>, fs: seq<Found>)
    ensures Reconciled(fishDrops, fs).Keys == fishDrops.Keys + NamesOf(fs)
  {
    if fs != [] {
      var init := fs[..|fs| - 1];
      ReconciledKeys(fishDrops, init);
      assert fs == init + [fs[|fs| - 1]];
      assert NamesOf(fs) == NamesOf(init) + {fs[|fs| - 1].name};
    }
  }

  /** Entries already in the document are never modified. */
  lemma {:induction false} ReconciledKeepsExisting(fishDrops: map<string, FishDropConfig>, fs: seq<Found>)
    ensures forall k :: k in fishDrops ==> k in Reconciled(fishDrops, fs) && Reconciled(fishDrops, fs)[k] == fishDrops[k]
  {
    if fs != [] {
      ReconciledKeepsExisting(fishDrops, fs[..|fs| - 1]);
    }
  }

  /** A name new to the document gets the entry seeded from the first fish found under it. */
  lemma {:induction false} ReconciledNewEntry(fishDrops: map<string, FishDropConfig>, fs: seq<Found>, i: nat)
    requires i < |fs| && fs[i].name !in fishDrops
    requires forall j :: 0 <= j < i ==> fs[j].name != fs[i].name
    ensures fs[i].name in Reconciled(fishDrops, fs)
    ensures Reconciled(fishDrops, fs)[fs[i].name] == NewEntry(fs[i].table)
  {
    var init := fs[..|fs| - 1];
    if i < |init| {
      ReconciledNewEntry(fishDrops, init, i);
    } else {
      ReconciledKeys(fishDrops, init);
    }
  }

  /** A document that already names every fish found is left as it is. */
  lemma {:induction false} ReconciledComplete(fishDrops: map<string, FishDropConfig>, fs: seq<Found>)
    requires NamesOf(fs) <= fishDrops.Keys
    ensures Reconciled(fishDrops, fs) == fishDrops
  {
    if fs != [] {
      var init := fs[..|fs| - 1];
      assert fs == init + [fs[|fs| - 1]];
      assert NamesOf(init) <= NamesOf(fs);
      assert fs[|fs| - 1] in fs;
      ReconciledComplete(fishDrops, init);
    }
  }

  /** A second pass over the same fish adds nothing and leaves configUpdated false. */
  lemma ReconciledIdempotent(fishDrops: map<string, FishDropConfig>, fs: seq<Found>)
    ensures Reconciled(Reconciled(fishDrops, fs), fs) == Reconciled(fishDrops, fs)
    ensures !Updated(Reconciled(fishDrops, fs), fs)
  {
    ReconciledKeys(fishDrops, fs);
    ReconciledComplete(Reconciled(fishDrops, fs), fs);
    UpdatedIffNewName(Reconciled(fishDrops, fs), fs);
  }

  /** The configUpdated flag of the reconciling loop: set when some pass added an entry. */
  function Updated(fishDrops: map<string, FishDropConfig>, fs: seq<Found>): bool
  {
    if fs == [] then false
    else Updated(fishDrops, fs[..|fs| - 1]) || fs[|fs| - 1].name !in Reconciled(fishDrops, fs[..|fs| - 1])
  }

  /** The flag is set exactly when some fish found was missing from the document, that is
      exactly when the document gained a key. */
  lemma {:induction false} UpdatedIffKeyAdded(fishDrops: map<string, FishDropConfig>, fs: seq<Found>)
    ensures Updated(fishDrops, fs) <==> exists i :: 0 <= i < |fs| && fs[i].name !in fishDrops
    ensures Updated(fishDrops, fs) <==> Reconciled(fishDrops, fs).Keys != fishDrops.Keys
  {
    ReconciledKeys(fishDrops, fs);
    UpdatedIffNewName(fishDrops, fs);
    if exists i :: 0 <= i < |fs| && fs[i].name !in fishDrops {
      var i :| 0 <= i < |fs| && fs[i].name !in fishDrops;
      assert fs[i] in fs;
    }
    if !(NamesOf(fs) <= fishDrops.Keys) {
      var n :| n in NamesOf(fs) && n !in fishDrops;
      var f :| f in fs && f.name == n;
      var i :| 0 <= i < |fs| && fs[i] == f;
    }
  }

  /** The flag is set exactly when some name found is not a key of the loaded document. */
  lemma {:induction false} UpdatedIffNewName(fishDrops: map<string, FishDropConfig>, fs: seq<Found>)
    ensures Updated(fishDrops, fs) <==> !(NamesOf(fs) <= fishDrops.Keys)
  {
    if fs != [] {
      var init := fs[..|fs| - 1];
      UpdatedIffNewName(fishDrops, init);
      ReconciledKeys(fishDrops, init);
      assert fs == init + [fs[|fs| - 1]];
      assert NamesOf(fs) == NamesOf(init) + {fs[|fs| - 1].name};
    }
  }

  /** The original-drops cache after a reconcile pass: only while not yet initialised, and
      only for the first fish found, is its live list stored, and never over an entry. */
  function SeedCache(cache: map<string, DropList>, initialized: bool, fs: seq<Found>): (r: (map<string, DropList>, bool))
    ensures forall k :: k in cache ==> k in r.0 && r.0[k] == cache[k]
    ensures r.0.Keys <= cache.Keys + (if !initialized && fs != [] then {fs[0].name} else {})
    ensures r.1 <==> initialized || fs != []
    ensures !initialized && fs != [] && fs[0].name !in cache ==> r.0 == cache[fs[0].name := fs[0].list]
  {
    if initialized || fs == [] then (cache, initialized)
    else if fs[0].name in cache then (cache, true)
    else (cache[fs[0].name := fs[0].list], true)
  }

  /** One more fish found: the cache is seeded with it only when nothing initialised it yet. */
  lemma SeedCacheSnoc(cache: map<string, DropList>, initialized: bool, fs: seq<Found>, f: Found)
    ensures var r := SeedCache(cache, initialized, fs);
      SeedCache(cache, initialized, fs + [f]) ==
        if r.1 then r else if f.name in r.0 then (r.0, true) else (r.0[f.name := f.list], true)
  {
    if fs != [] {
      assert (fs + [f])[0] == fs[0];
    }
  }

  /** Once initialised, no later pass touches the cache. */
  lemma SeedCacheOnce(cache: map<string, DropList>, initialized: bool, fs: seq<Found>, later: seq<Found>)
    requires fs != []
    ensures var r := SeedCache(cache, initialized, fs); SeedCache(r.0, r.1, later) == r
  {
  }

  /** What a prefab's Fish component holds at one moment: its table's value and its live list. */
  datatype View = View(table: TableValue, list: DropList)

  /** The Fish components of the items as they are now, one per item (None: no component). */
  ghost function Views(items: seq<Prefab>): (vs: seq<Option<View>>)
    reads set p | p in items && p.fish.Some? :: p.fish.value
    reads set p | p in items && p.fish.Some? :: p.fish.value.drops
    ensures |vs| == |items|
    ensures forall i :: 0 <= i < |items| ==>
      vs[i] == if items[i].fish.Some? then Some(View(items[i].fish.value.Value(), items[i].fish.value.drops)) else None
  {
    if items == [] then []
    else
      var p := items[|items| - 1];
      Views(items[..|items| - 1]) +
        [if p.fish.Some? then Some(View(p.fish.value.Value(), p.fish.value.drops)) else None]
  }

  /** The fish among the items, in database order: items of type Fish with a Fish component. */
  function FoundIn(items: seq<Prefab>, vs: seq<Option<View>>, getPrefabName: string -> string): seq<Found>
    requires |vs| == |items|
  {
    if items == [] then []
    else
      var n := |items| - 1;
      FoundIn(items[..n], vs[..n], getPrefabName) +
        if items[n].isFish && vs[n].Some? then [Found(getPrefabName(items[n].name), vs[n].value.table, vs[n].value.list)] else []
  }

  /** One more item scanned: the fish found grow by that item when it is a fish with a component. */
  lemma FoundInStep(items: seq<Prefab>, vs: seq<Option<View>>, getPrefabName: string -> string, i: nat)
    requires |vs| == |items| && i < |items|
    ensures FoundIn(items[..i + 1], vs[..i + 1], getPrefabName) ==
      if items[i].isFish && vs[i].Some? then
        FoundIn(items[..i], vs[..i], getPrefabName) + [Found(getPrefabName(items[i].name), vs[i].value.table, vs[i].value.list)]
      else FoundIn(items[..i], vs[..i], getPrefabName)
  {
    assert items[..i + 1][..i] == items[..i] && vs[..i + 1][..i] == vs[..i];
    assert FoundIn(items[..i], vs[..i], getPrefabName) + [] == FoundIn(items[..i], vs[..i], getPrefabName);
  }

  /** The pass sees exactly the items of type Fish that have a Fish component, each under
      its normalised name. */
  lemma {:induction false} FoundInMembers(items: seq<Prefab>, vs: seq<Option<View>>, getPrefabName: string -> string, f: Found)
    requires |vs| == |items|
    ensures f in FoundIn(items, vs, getPrefabName) <==>
      exists i :: 0 <= i < |items| && items[i].isFish && vs[i].Some? &&
        f == Found(getPrefabName(items[i].name), vs[i].value.table, vs[i].value.list)
  {
    if items != [] {
      var n := |items| - 1;
      FoundInMembers(items[..n], vs[..n], getPrefabName, f);
      if exists i :: 0 <= i < |items| && items[i].isFish && vs[i].Some? &&
          f == Found(getPrefabName(items[i].name), vs[i].value.table, vs[i].value.list) {
        var i :| 0 <= i < |items| && items[i].isFish && vs[i].Some? &&
          f == Found(getPrefabName(items[i].name), vs[i].value.table, vs[i].value.list);
        if i < n {
          assert items[..n][i] == items[i] && vs[..n][i] == vs[i];
        }
      }
      if f in FoundIn(items[..n], vs[..n], getPrefabName) {
        var i :| 0 <= i < n && items[..n][i].isFish && vs[..n][i].Some? &&
          f == Found(getPrefabName(items[..n][i].name), vs[..n][i].value.table, vs[..n][i].value.list);
        assert items[..n][i] == items[i] && vs[..n][i] == vs[i];
      }
    }
  }

  /** The fish of the item database, with their tables as they are now. */
  ghost function Snapshot(items: seq<Prefab>, getPrefabName: string -> string): seq<Found>
    reads set p | p in items && p.fish.Some? :: p.fish.value
    reads set p | p in items && p.fish.Some? :: p.fish.value.drops
  {
    FoundIn(items, Views(items), getPrefabName)
  }

  lemma ReconciledSnoc(fishDrops: map<string, FishDropConfig>, fs: seq<Found>, f: Found)
    ensures Reconciled(fishDrops, fs + [f]) ==
      var m := Reconciled(fishDrops, fs); if f.name in m then m else m[f.name := NewEntry(f.table)]
    ensures Updated(fishDrops, fs + [f]) == (Updated(fishDrops, fs) || f.name !in Reconciled(fishDrops, fs))
  {
    assert (fs + [f])[..|fs|] == fs;
  }

  /** Builds the document entry for a fish found for the first time (Postfix, new-fish branch). */
  method SeedEntry(extraDrops: TableValue) returns (fishDropConfig: FishDropConfig)
    ensures fishDropConfig == NewEntry(extraDrops)
  {
    fishDropConfig := NewFishDropConfig();
    fishDropConfig := fishDropConfig.(dropChance := extraDrops.dropChance, dropMin := extraDrops.dropMin,
      dropMax := extraDrops.dropMax, oneOfEach := extraDrops.oneOfEach);
    var drops: seq<Option<ExtraDrop>> := [];
    if |extraDrops.drops| != 0 {
      var items := extraDrops.drops;
      for j := 0 to |items|
        invariant drops == SeedDrops(items[..j])
      {
        var drop := items[j];
        assert items[..j + 1][..j] == items[..j];
        if drop.item.Some? {
          drops := drops + [Some(ExtraDrop(drop.item.value, drop.stackMin, drop.stackMax, drop.weight))];
        }
      }
      assert items[..|items|] == items;
    }
    fishDropConfig := fishDropConfig.(drops := drops);
  }

  // ---------------------------------------------------------------------------
  // Catch time
  // ---------------------------------------------------------------------------

  /** String.Contains: `sub` occurs in `s` (ordinal, as a substring). */
  predicate Contains(s: string, sub: string)
  {
    exists i :: 0 <= i <= |s| - |sub| && OccursAt(s, sub, i)
  }

  predicate OccursAt(s: string, sub: string, i: int)
    requires 0 <= i <= |s| - |sub|
  {
    s[i..i + |sub|] == sub
  }

  /** The combined list before the dedup, or None when building it throws because the
      database is not loaded and there is an entry to look up. */
  function CombinedDrops(config: FishDropConfig, cached: Option<seq<DropData>>, db: Option<ObjectDB>): Option<seq<DropData>>
  {
    if db.None? && config.drops != [] then None
    else Some(Originals(config, cached) + if db.Some? then ResolveAll(db.value, config.drops) else [])
  }

  /** How the catch hook ended: it did not apply, it failed on a missing document key
      before writing anything, it failed after writing the roll parameters only, or it
      replaced the drop list too. */
  datatype CatchOutcome = NotApplied | KeyMissing | RollParametersOnly | DropsReplaced

  // ---------------------------------------------------------------------------
  // Process-wide state and the two hooks
  // ---------------------------------------------------------------------------

  /** The drop-combining loop of FishingFloatCatchPatch.Prefix: the originals (already
      chosen by the caller) followed by every configured drop whose item the database knows.
      None stands for the exception thrown on the first configured drop when there is no
      item database. */
  method CombineDrops(config: FishDropConfig, originals: seq<DropData>, db: Option<ObjectDB>,
                      ghost cached: Option<seq<DropData>>)
    returns (combined: Option<seq<DropData>>)
    requires originals == Originals(config, cached)
    ensures combined == CombinedDrops(config, cached, db)
  {
    var combinedDrops := originals;
    for i := 0 to |config.drops|
      invariant db.None? ==> i == 0
      invariant db.Some? ==> combinedDrops == originals + ResolveAll(db.value, config.drops[..i])
      invariant db.None? ==> combinedDrops == originals
    {
      var extraDrop := config.drops[i];
      if db.None? {
        return None;
      }
      assert config.drops[..i + 1][..i] == config.drops[..i];
      var itemPrefab := GetItemPrefab(db.value, if extraDrop.Some? then Some(extraDrop.value.item) else None);
      if itemPrefab.Some? && extraDrop.Some? {
        combinedDrops := combinedDrops + [DropData(Some(itemPrefab.value.name),
          extraDrop.value.minStack, extraDrop.value.maxStack, extraDrop.value.relativeWeight)];
      }
    }
    assert config.drops[..|config.drops|] == config.drops;
    if db.None? {
      assert combinedDrops == originals + [];
    }
    return Some(combinedDrops);
  }

  /** The body of the loop of ObjectDBAwakePatch.Postfix for one fish with a Fish component
      (its name, table and live list given): a new name gets a seeded entry and raises the
      flag, and the first fish while not initialised seeds the cache. The state before is
      the reconcile pass over the fish found so far; the state after covers this fish too. */
  method VisitFish(loaded: map<string, FishDropConfig>, cache0: map<string, DropList>, initialized0: bool,
                   ghost found: seq<Found>, fishName: string, table: TableValue, list: DropList,
                   fishDrops0: map<string, FishDropConfig>, configUpdated0: bool,
                   cacheIn: map<string, DropList>, initializedIn: bool)
    returns (fishDrops: map<string, FishDropConfig>, configUpdated: bool,
             cache: map<string, DropList>, isInitialized: bool)
    requires fishDrops0 == Reconciled(loaded, found) && configUpdated0 == Updated(loaded, found)
    requires (cacheIn, initializedIn) == SeedCache(cache0, initialized0, found)
    ensures var fs := found + [Found(fishName, table, list)];
      fishDrops == Reconciled(loaded, fs) && configUpdated == Updated(loaded, fs) &&
      (cache, isInitialized) == SeedCache(cache0, initialized0, fs)
  {
    ReconciledSnoc(loaded, found, Found(fishName, table, list));
    SeedCacheSnoc(cache0, initialized0, found, Found(fishName, table, list));
    fishDrops, configUpdated, cache, isInitialized := fishDrops0, configUpdated0, cacheIn, initializedIn;
    if fishName !in fishDrops {
      var entry := SeedEntry(table);
      fishDrops := fishDrops[fishName := entry];
      configUpdated := true;
    }
    if !isInitialized {
      if fishName !in cache {
        cache := cache[fishName := list];
      }
      isInitialized := true;
    }
  }

  /** The loop of ObjectDBAwakePatch.Postfix over the database items: every fish with a
      drop table and no entry in the document gets one seeded from its current table, and
      while the cache is not yet initialized the first such fish records its live list.
      The statics originalDropsCache and Initialized are passed in and returned. */
  method ReconcileFish(db: ObjectDB, getPrefabName: string -> string, loaded: map<string, FishDropConfig>,
                       cache0: map<string, DropList>, initialized0: bool, ghost views: seq<Option<View>>)
    returns (fishDrops: map<string, FishDropConfig>, configUpdated: bool,
             cache: map<string, DropList>, isInitialized: bool)
    requires |views| == |db.items|
    requires forall i :: 0 <= i < |db.items| ==> (views[i].Some? <==> db.items[i].fish.Some?)
    requires forall i :: 0 <= i < |db.items| && db.items[i].fish.Some? ==>
      views[i].value == View(db.items[i].fish.value.Value(), db.items[i].fish.value.drops)
    ensures fishDrops == Reconciled(loaded, FoundIn(db.items, views, getPrefabName))
    ensures configUpdated == Updated(loaded, FoundIn(db.items, views, getPrefabName))
    ensures (cache, isInitialized) == SeedCache(cache0, initialized0, FoundIn(db.items, views, getPrefabName))
  {
    fishDrops, configUpdated := loaded, false;
    cache, isInitialized := cache0, initialized0;

    for i := 0 to |db.items|
      invariant fishDrops == Reconciled(loaded, FoundIn(db.items[..i], views[..i], getPrefabName))
      invariant configUpdated == Updated(loaded, FoundIn(db.items[..i], views[..i], getPrefabName))
      invariant (cache, isInitialized) == SeedCache(cache0, initialized0, FoundIn(db.items[..i], views[..i], getPrefabName))
    {
      fishDrops, configUpdated, cache, isInitialized :=
        VisitItem(db, getPrefabName, views, i, loaded, cache0, initialized0, fishDrops, configUpdated, cache, isInitialized);
    }
    assert db.items[..|db.items|] == db.items && views[..|views|] == views;
  }

  /** One pass of the loop of ObjectDBAwakePatch.Postfix: item `i` counts only when it is of
      type Fish and has a Fish component; the state before covers the items before it. */
  method VisitItem(db: ObjectDB, getPrefabName: string -> string, ghost views: seq<Option<View>>, i: nat,
                   loaded: map<string, FishDropConfig>, cache0: map<string, DropList>, initialized0: bool,
                   fishDrops0: map<string, FishDropConfig>, configUpdated0: bool,
                   cacheIn: map<string, DropList>, initializedIn: bool)
    returns (fishDrops: map<string, FishDropConfig>, configUpdated: bool,
             cache: map<string, DropList>, isInitialized: bool)
    requires |views| == |db.items| && i < |db.items|
    requires views[i].Some? <==> db.items[i].fish.Some?
    requires db.items[i].fish.Some? ==>
      views[i].value == View(db.items[i].fish.value.Value(), db.items[i].fish.value.drops)
    requires var found := FoundIn(db.items[..i], views[..i], getPrefabName);
      fishDrops0 == Reconciled(loaded, found) && configUpdated0 == Updated(loaded, found) &&
      (cacheIn, initializedIn) == SeedCache(cache0, initialized0, found)
    ensures var found := FoundIn(db.items[..i + 1], views[..i + 1], getPrefabName);
      fishDrops == Reconciled(loaded, found) && configUpdated == Updated(loaded, found) &&
      (cache, isInitialized) == SeedCache(cache0, initialized0, found)
  {
    fishDrops, configUpdated, cache, isInitialized := fishDrops0, configUpdated0, cacheIn, initializedIn;
    ghost var found := FoundIn(db.items[..i], views[..i], getPrefabName);
    FoundInStep(db.items, views, getPrefabName, i);
    var fishItem := db.items[i];
    if fishItem.isFish {
      if fishItem.fish.Some? {
        var fishComponent := fishItem.fish.value;
        var fishName := getPrefabName(fishItem.name);
        fishDrops, configUpdated, cache, isInitialized :=
          VisitFish(loaded, cache0, initialized0, found, fishName, fishComponent.Value(), fishComponent.drops,
                    fishDrops, configUpdated, cache, isInitialized);
      }
    }
  }

  /** The statics the hooks share: the YAML file on disk (None when absent), the synchronised
      document text FishDropsData, originalDropsCache and ObjectDBAwakePatch.Initialized. */
  class ModState {
    var yamlFile: Option<string>
    var fishDropsData: string
    var originalDropsCache: map<string, DropList>
    var initialized: bool

    /** Process start. */
    constructor (yamlFile: Option<string>)
      ensures this.yamlFile == yamlFile && fishDropsData == ""
      ensures originalDropsCache == map[] && !initialized
    {
      this.yamlFile := yamlFile;
      fishDropsData := "";
      originalDropsCache := map[];
      initialized := false;
    }

    /** The cache holds the live list: once a fish's list is cached, an in-place update of
        that table (UpdateFishDrops) shows through the cache at the next catch. */
    method CacheFollowsUpdate(fishName: string, table: DropTable, config: FishDropConfig, db: ObjectDB)
      requires fishName in originalDropsCache && originalDropsCache[fishName] == table.drops
      modifies table, table.drops
      ensures CachedDrops(fishName) == Some(UpdatedDrops(old(table.drops.items), config, db))
    {
      UpdateFishDrops(table, config, db);
    }

    /** The cached original drops of a fish, as they are now. */
    function CachedDrops(fishName: string): Option<seq<DropData>>
      reads this, originalDropsCache.Values
    {
      if fishName in originalDropsCache then Some(originalDropsCache[fishName].items) else None
    }

    /** ObjectDBAwakePatch.Postfix: loads the document (empty when the file is absent), adds
        an entry for every fish of the database not yet in it, seeds the cache, saves the
        document only when it gained a key, and reloads the synchronised text from the file. */
    method ObjectDBAwakePostfix(db: ObjectDB, getPrefabName: string -> string,
                                deserialize: string -> Deserialized, serialize: DropConfig -> string)
      returns (dropConfig: DropConfig, configUpdated: bool)
      modifies this
      ensures var loaded := if old(yamlFile).Some? then LoadConfig(old(yamlFile), deserialize).fishDrops else map[];
        dropConfig.fishDrops == Reconciled(loaded, old(Snapshot(db.items, getPrefabName))) &&
        configUpdated == Updated(loaded, old(Snapshot(db.items, getPrefabName)))
      ensures (originalDropsCache, initialized) ==
        SeedCache(old(originalDropsCache), old(initialized), old(Snapshot(db.items, getPrefabName)))
      ensures yamlFile == if configUpdated then Some(serialize(dropConfig)) else old(yamlFile)
      ensures fishDropsData == if yamlFile.Some? then yamlFile.value else old(fishDropsData)
    {
      var loaded := if yamlFile.Some? then LoadConfig(yamlFile, deserialize) else NewDropConfig();
      var fishDrops, cache, isInitialized;
      ghost var views := Views(db.items);
      fishDrops, configUpdated, cache, isInitialized :=
        ReconcileFish(db, getPrefabName, loaded.fishDrops, originalDropsCache, initialized, views);
      originalDropsCache, initialized := cache, isInitialized;
      dropConfig := DropConfig(fishDrops);
      if configUpdated {
        yamlFile := Some(serialize(dropConfig));
      }
      if yamlFile.Some? {
        fishDropsData := yamlFile.value;
      }
    }

    /** FishingFloatCatchPatch.Prefix: when the fish has drops and the synchronised text
        mentions its name, rewrites the roll parameters from the document entry and replaces
        the drop list with the dedup of the cached originals (with AddToDefaultDrops) followed
        by the resolvable configured drops. Failures are swallowed where they happen. */
    method FishingFloatCatchPrefix(fishObjectName: string, fish: DropTable, db: Option<ObjectDB>,
                                   getPrefabName: string -> string, deserialize: string -> Deserialized)
      returns (outcome: CatchOutcome)
      modifies fish
      ensures var fishName := getPrefabName(fishObjectName);
        outcome == NotApplied <==> old(fish.IsEmpty()) || !Contains(fishDropsData, fishName)
      ensures var fishName := getPrefabName(fishObjectName);
        outcome == KeyMissing <==> (!old(fish.IsEmpty()) && Contains(fishDropsData, fishName) &&
                                    fishName !in LoadFromText(fishDropsData, deserialize).fishDrops)
      ensures outcome == NotApplied || outcome == KeyMissing ==>
        fish.drops == old(fish.drops) && fish.Value() == old(fish.Value())
      ensures outcome == RollParametersOnly || outcome == DropsReplaced ==>
        var fishName := getPrefabName(fishObjectName);
        var fishDrops := LoadFromText(fishDropsData, deserialize).fishDrops;
        fishName in fishDrops &&
        var config := fishDrops[fishName];
        var combined := CombinedDrops(config, old(CachedDrops(fishName)), db);
        fish.dropChance == config.dropChance && fish.dropMin == config.dropMin &&
        fish.dropMax == config.dropMax && fish.oneOfEach == config.oneOfEach &&
        (outcome == DropsReplaced <==> combined.Some? && AllNamed(combined.value)) &&
        (outcome == RollParametersOnly ==> fish.drops == old(fish.drops) && fish.drops.items == old(fish.drops.items)) &&
        (outcome == DropsReplaced ==> fresh(fish.drops) && fish.drops.items == Distinct(combined.value))
    {
      if fish.IsEmpty() {
        return NotApplied;
      }
      var fishName := getPrefabName(fishObjectName);
      if !Contains(fishDropsData, fishName) {
        return NotApplied;
      }
      var fishDrops := LoadFromText(fishDropsData, deserialize).fishDrops;
      if fishName !in fishDrops {
        return KeyMissing;
      }
      outcome := ApplyEntry(fishName, fish, fishDrops[fishName], db);
    }

    /** The part of FishingFloatCatchPatch.Prefix after the document entry of the fish was
        found: writes the roll parameters, then combines and replaces the drop list unless
        combining throws or a combined drop names no item. */
    method ApplyEntry(fishName: string, fish: DropTable, fishDropConfig: FishDropConfig, db: Option<ObjectDB>)
      returns (outcome: CatchOutcome)
      modifies fish
      ensures outcome == RollParametersOnly || outcome == DropsReplaced
      ensures fish.dropChance == fishDropConfig.dropChance && fish.dropMin == fishDropConfig.dropMin
      ensures fish.dropMax == fishDropConfig.dropMax && fish.oneOfEach == fishDropConfig.oneOfEach
      ensures var combined := CombinedDrops(fishDropConfig, old(CachedDrops(fishName)), db);
        (outcome == DropsReplaced <==> combined.Some? && AllNamed(combined.value)) &&
        (outcome == RollParametersOnly ==> fish.drops == old(fish.drops) && fish.drops.items == old(fish.drops.items)) &&
        (outcome == DropsReplaced ==> fresh(fish.drops) && fish.drops.items == Distinct(combined.value))
    {
      fish.dropChance := fishDropConfig.dropChance;
      fish.dropMin := fishDropConfig.dropMin;
      fish.dropMax := fishDropConfig.dropMax;
      fish.oneOfEach := fishDropConfig.oneOfEach;

      ghost var cached := CachedDrops(fishName);
      assert cached == old(CachedDrops(fishName));
      var originals: seq<DropData> := [];
      if fishDropConfig.addToDefaultDrops && fishName in originalDropsCache {
        originals := originals + originalDropsCache[fishName].items;
      }
      var combined := CombineDrops(fishDropConfig, originals, db, cached);
      if combined.None? {
        return RollParametersOnly;
      }
      var combinedDrops := combined.value;
      if !AllNamed(combinedDrops) {
        return RollParametersOnly;
      }
      fish.drops := new DropList(Distinct(combinedDrops));
      return DropsReplaced;
    }
  }
}
