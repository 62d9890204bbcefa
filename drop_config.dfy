/** The override document (DropConfig, FishDropConfig, ExtraDrop), its tolerant loaders,
    and the in-place application of an override to a fish's drop table
    (ConfigLoader.UpdateFishDrops and ConfigLoader.ApplyFishDropsConfig). */
module DropConfig {
  import opened Wrappers
  import opened Game

  // ---------------------------------------------------------------------------
  // Document model
  // ---------------------------------------------------------------------------

  /** One configured drop: the item's prefab name, the stack range and the relative weight. */
  datatype ExtraDrop = ExtraDrop(item: string, minStack: int, maxStack: int, relativeWeight: real)

  /** The override for one fish. Entries of `drops` may be null in the document (None). */
  datatype FishDropConfig = FishDropConfig(
    addToDefaultDrops: bool,
    dropMin: int,
    dropMax: int,
    dropChance: real,
    oneOfEach: bool,
    drops: seq<Option<ExtraDrop>>)

  /** The whole document: fish prefab name to override. The map itself can never be null. */
  datatype DropConfig = DropConfig(fishDrops: map<string, FishDropConfig>)

  /** A FishDropConfig built with its property initialisers. */
  function NewFishDropConfig(): (c: FishDropConfig)
    ensures !c.addToDefaultDrops && !c.oneOfEach
    ensures c.dropMin == 1 && c.dropMax == 1 && c.dropChance == 1.0
    ensures c.drops == []
  {
    FishDropConfig(false, 1, 1, 1.0, false, [])
  }

  /** `new DropConfig { FishDrops = new Dictionary<...>() }`. */
  function NewDropConfig(): DropConfig
  {
    DropConfig(map[])
  }

  // ---------------------------------------------------------------------------
  // String.Trim
  // ---------------------------------------------------------------------------

  /** Char.IsWhiteSpace: the Unicode White_Space characters. */
  predicate IsWhiteSpace(c: char)
  {
    c == ' ' || ('\t' <= c <= '\r') || c == '\U{85}' || c == '\U{A0}' || c == '\U{1680}' ||
    ('\U{2000}' <= c <= '\U{200A}') || c == '\U{2028}' || c == '\U{2029}' || c == '\U{202F}' ||
    c == '\U{205F}' || c == '\U{3000}'
  }

  predicate AllWhiteSpace(s: string)
  {
    forall i :: 0 <= i < |s| ==> IsWhiteSpace(s[i])
  }

  /** Drops the leading white space: the result is a suffix of `s` that starts with a
      non-white-space character, and everything cut off is white space. */
  function TrimStart(s: string): (r: string)
    ensures |r| <= |s| && r == s[|s| - |r|..]
    ensures AllWhiteSpace(s[..|s| - |r|])
    ensures r != [] ==> !IsWhiteSpace(r[0])
  {
    if s != [] && IsWhiteSpace(s[0]) then
      var r := TrimStart(s[1..]);
      assert s[..|s| - |r|] == [s[0]] + s[1..][..|s[1..]| - |r|];
      r
    else s
  }

  /** Drops the trailing white space: the result is a prefix of `s` that ends with a
      non-white-space character, and everything cut off is white space. */
  function TrimEnd(s: string): (r: string)
    ensures |r| <= |s| && r == s[..|r|]
    ensures AllWhiteSpace(s[|r|..])
    ensures r != [] ==> !IsWhiteSpace(r[|r| - 1])
  {
    if s != [] && IsWhiteSpace(s[|s| - 1]) then
      var r := TrimEnd(s[..|s| - 1]);
      assert s[|r|..] == s[..|s| - 1][|r|..] + [s[|s| - 1]];
      r
    else s
  }

  /** String.Trim: a contiguous slice of `s` with only white space around it and
      no white space at either end. */
  function Trim(s: string): (r: string)
    ensures exists k :: (0 <= k <= |s| - |r| && r == s[k..k + |r|] &&
      AllWhiteSpace(s[..k]) && AllWhiteSpace(s[k + |r|..]))
    ensures r != [] ==> !IsWhiteSpace(r[0]) && !IsWhiteSpace(r[|r| - 1])
  {
    var a := TrimStart(s);
    var r := TrimEnd(a);
    TrimSlices(s, a, r);
    r
  }

  /** Trimming the end of a suffix of `s` leaves a slice of `s` framed by white space. */
  lemma TrimSlices(s: string, a: string, r: string)
    requires |a| <= |s| && a == s[|s| - |a|..] && AllWhiteSpace(s[..|s| - |a|])
    requires |r| <= |a| && r == a[..|r|] && AllWhiteSpace(a[|r|..])
    requires a != [] ==> !IsWhiteSpace(a[0])
    ensures var k := |s| - |a|;
      (0 <= k <= |s| - |r| && r == s[k..k + |r|] && AllWhiteSpace(s[..k]) && AllWhiteSpace(s[k + |r|..]))
    ensures r != [] ==> !IsWhiteSpace(r[0])
  {
    var k := |s| - |a|;
    assert s[k + |r|..] == a[|r|..];
    if r != [] {
      assert r[0] == a[0];
    }
  }

  /** The trimmed text is empty exactly when the text is white space only. */
  lemma TrimEmptyIffWhiteSpace(s: string)
    ensures Trim(s) == [] <==> AllWhiteSpace(s)
  {
    var a := TrimStart(s);
    if a == [] {
      assert s[..|s|] == s;
    } else {
      assert s[|s| - |a|] == a[0];
    }
  }

  // ---------------------------------------------------------------------------
  // Tolerant loaders
  // ---------------------------------------------------------------------------

  /** What the YAML deserializer makes of a text: it throws, returns null, or returns a
      DropConfig whose FishDrops may still be null. */
  datatype Deserialized = Threw | NullConfig | Config(fishDrops: Option<map<string, FishDropConfig>>)

  /** ConfigLoader.LoadFromText: never fails outward. White-space-only text, a deserializer
      that throws, returns null or leaves FishDrops null all give an empty document. */
  function LoadFromText(yamlText: string, deserialize: string -> Deserialized): (r: DropConfig)
    ensures AllWhiteSpace(yamlText) ==> r.fishDrops == map[]
    ensures r.fishDrops == map[] || deserialize(Trim(yamlText)) == Config(Some(r.fishDrops))
    ensures (Trim(yamlText) != [] && deserialize(Trim(yamlText)).Config? &&
             deserialize(Trim(yamlText)).fishDrops.Some?) ==> r.fishDrops == deserialize(Trim(yamlText)).fishDrops.value
  {
    var trimmed := Trim(yamlText);
    TrimEmptyIffWhiteSpace(yamlText);
    if trimmed == [] then NewDropConfig()
    else match deserialize(trimmed)
      case Threw => NewDropConfig()
      case NullConfig => NewDropConfig()
      case Config(fishDrops) => if fishDrops.None? then NewDropConfig() else DropConfig(fishDrops.value)
  }

  /** ConfigLoader.LoadConfig, with the file's contents as input (None when reading the
      file throws). It never fails outward either. */
  function LoadConfig(fileText: Option<string>, deserialize: string -> Deserialized): (r: DropConfig)
    ensures fileText.None? ==> r.fishDrops == map[]
    ensures fileText.Some? && AllWhiteSpace(fileText.value) ==> r.fishDrops == map[]
    ensures r.fishDrops == map[] || (fileText.Some? && deserialize(Trim(fileText.value)) == Config(Some(r.fishDrops)))
    ensures (fileText.Some? && Trim(fileText.value) != [] && deserialize(Trim(fileText.value)).Config? &&
             deserialize(Trim(fileText.value)).fishDrops.Some?) ==> r.fishDrops == deserialize(Trim(fileText.value)).fishDrops.value
  {
    match fileText
    case None => NewDropConfig()
    case Some(text) => LoadFromText(text, deserialize)
  }

  // ---------------------------------------------------------------------------
  // Resolving configured drops
  // ---------------------------------------------------------------------------

  /** A configured entry as a DropData: the entry must be non-null and its item must be
      found in the database; stacks and weight are copied verbatim. */
  function Resolve(db: ObjectDB, e: Option<ExtraDrop>): Option<DropData>
  {
    var prefab := GetItemPrefab(db, if e.Some? then Some(e.value.item) else None);
    if prefab.Some? && e.Some? then
      Some(DropData(Some(prefab.value.name), e.value.minStack, e.value.maxStack, e.value.relativeWeight))
    else None
  }

  /** The resolvable entries of `ds`, in order. */
  function ResolveAll(db: ObjectDB, ds: seq<Option<ExtraDrop>>): seq<DropData>
  {
    if ds == [] then []
    else
      var r := Resolve(db, ds[|ds| - 1]);
      ResolveAll(db, ds[..|ds| - 1]) + if r.Some? then [r.value] else []
  }

  /** Exactly the entries that resolve end up in ResolveAll. */
  lemma {:induction false} ResolveAllMembers(db: ObjectDB, ds: seq<Option<ExtraDrop>>, d: DropData)
    ensures d in ResolveAll(db, ds) <==> exists j :: 0 <= j < |ds| && Resolve(db, ds[j]) == Some(d)
  {
    if ds != [] {
      var init := ds[..|ds| - 1];
      ResolveAllMembers(db, init, d);
      if exists j :: 0 <= j < |ds| && Resolve(db, ds[j]) == Some(d) {
        var j :| 0 <= j < |ds| && Resolve(db, ds[j]) == Some(d);
        if j < |init| {
          assert init[j] == ds[j];
        }
      }
      if d in ResolveAll(db, init) {
        var j :| 0 <= j < |init| && Resolve(db, init[j]) == Some(d);
        assert ds[j] == init[j];
      }
    }
  }

  // ---------------------------------------------------------------------------
  // UpdateFishDrops as a function of the old list
  // ---------------------------------------------------------------------------

  /** One pass of the foreach body: append the resolved drop unless an entry already
      has that item. */
  function Step(list: seq<DropData>, r: Option<DropData>): seq<DropData>
  {
    if r.Some? && r.value.item !in ItemsOf(list) then list + [r.value] else list
  }

  /** The list after the foreach over `ds`, starting from `list`. */
  function AppendDrops(list: seq<DropData>, ds: seq<Option<ExtraDrop>>, db: ObjectDB): seq<DropData>
  {
    if ds == [] then list
    else Step(AppendDrops(list, ds[..|ds| - 1], db), Resolve(db, ds[|ds| - 1]))
  }

  /** The drop list UpdateFishDrops leaves: the old list is kept only with AddToDefaultDrops. */
  function UpdatedDrops(oldDrops: seq<DropData>, config: FishDropConfig, db: ObjectDB): seq<DropData>
  {
    AppendDrops(if config.addToDefaultDrops then oldDrops else [], config.drops, db)
  }

  /** The table UpdateFishDrops leaves: roll parameters copied unclamped, drops updated. */
  function UpdatedTable(t: TableValue, config: FishDropConfig, db: ObjectDB): TableValue
  {
    TableValue(config.dropMin, config.dropMax, config.dropChance, config.oneOfEach,
      UpdatedDrops(t.drops, config, db))
  }

  lemma ItemsOfAppend(s: seq<DropData>, t: seq<DropData>)
    ensures ItemsOf(s + t) == ItemsOf(s) + ItemsOf(t)
  {
    assert forall d :: d in s + t <==> d in s || d in t;
  }

  /** The old list is an unchanged prefix of the result. */
  lemma {:induction false} AppendDropsKeepsPrefix(list: seq<DropData>, ds: seq<Option<ExtraDrop>>, db: ObjectDB)
    ensures var r := AppendDrops(list, ds, db); |list| <= |r| && r[..|list|] == list
  {
    if ds != [] {
      AppendDropsKeepsPrefix(list, ds[..|ds| - 1], db);
    }
  }

  /** The items of the result are those of the old list plus those of every resolvable
      configured entry: nothing resolvable is lost, nothing else appears. */
  lemma {:induction false} AppendDropsItems(list: seq<DropData>, ds: seq<Option<ExtraDrop>>, db: ObjectDB)
    ensures ItemsOf(AppendDrops(list, ds, db)) == ItemsOf(list) + ItemsOf(ResolveAll(db, ds))
  {
    if ds != [] {
      var init := ds[..|ds| - 1];
      var prev := AppendDrops(list, init, db);
      var r := Resolve(db, ds[|ds| - 1]);
      AppendDropsItems(list, init, db);
      if r.Some? {
        ItemsOfAppend(ResolveAll(db, init), [r.value]);
        if r.value.item !in ItemsOf(prev) {
          ItemsOfAppend(prev, [r.value]);
        }
      }
    }
  }

  /** Every entry of the result is an old entry or a resolved configured entry. */
  lemma {:induction false} AppendDropsFrom(list: seq<DropData>, ds: seq<Option<ExtraDrop>>, db: ObjectDB)
    ensures forall d :: d in AppendDrops(list, ds, db) ==> d in list || d in ResolveAll(db, ds)
  {
    if ds != [] {
      AppendDropsFrom(list, ds[..|ds| - 1], db);
    }
  }

  /** A list without duplicate items keeps that property. */
  lemma {:induction false} AppendDropsNoDup(list: seq<DropData>, ds: seq<Option<ExtraDrop>>, db: ObjectDB)
    requires NoDupItems(list)
    ensures NoDupItems(AppendDrops(list, ds, db))
  {
    if ds != [] {
      var prev := AppendDrops(list, ds[..|ds| - 1], db);
      AppendDropsNoDup(list, ds[..|ds| - 1], db);
      var r := Resolve(db, ds[|ds| - 1]);
      if r.Some? && r.value.item !in ItemsOf(prev) {
        forall i | 0 <= i < |prev| ensures prev[i].item != r.value.item {
          assert prev[i] in prev;
        }
      }
    }
  }

  /** When every resolvable item is already present, the foreach appends nothing. */
  lemma {:induction false} AppendDropsAbsorbs(list: seq<DropData>, ds: seq<Option<ExtraDrop>>, db: ObjectDB)
    requires ItemsOf(ResolveAll(db, ds)) <= ItemsOf(list)
    ensures AppendDrops(list, ds, db) == list
  {
    if ds != [] {
      var init := ds[..|ds| - 1];
      var r := Resolve(db, ds[|ds| - 1]);
      if r.Some? {
        ItemsOfAppend(ResolveAll(db, init), [r.value]);
      }
      AppendDropsAbsorbs(list, init, db);
    }
  }

  /** With AddToDefaultDrops unset, the result holds only entries derived from the config. */
  lemma UpdatedDropsReplaces(oldDrops: seq<DropData>, config: FishDropConfig, db: ObjectDB)
    requires !config.addToDefaultDrops
    ensures forall d :: d in UpdatedDrops(oldDrops, config, db) ==>
      exists j :: 0 <= j < |config.drops| && Resolve(db, config.drops[j]) == Some(d)
  {
    AppendDropsFrom([], config.drops, db);
    forall d | d in UpdatedDrops(oldDrops, config, db)
      ensures exists j :: 0 <= j < |config.drops| && Resolve(db, config.drops[j]) == Some(d)
    {
      ResolveAllMembers(db, config.drops, d);
    }
  }

  /** With AddToDefaultDrops set, the previous list is an unchanged prefix of the result. */
  lemma UpdatedDropsExtends(oldDrops: seq<DropData>, config: FishDropConfig, db: ObjectDB)
    requires config.addToDefaultDrops
    ensures var r := UpdatedDrops(oldDrops, config, db); |oldDrops| <= |r| && r[..|oldDrops|] == oldDrops
  {
    AppendDropsKeepsPrefix(oldDrops, config.drops, db);
  }

  /** No duplicate items on entry means none on exit. */
  lemma UpdatedDropsNoDup(oldDrops: seq<DropData>, config: FishDropConfig, db: ObjectDB)
    requires NoDupItems(oldDrops)
    ensures NoDupItems(UpdatedDrops(oldDrops, config, db))
  {
    AppendDropsNoDup(if config.addToDefaultDrops then oldDrops else [], config.drops, db);
  }

  /** Applying the same override twice leaves the same table as applying it once. */
  lemma UpdatedTableIdempotent(t: TableValue, config: FishDropConfig, db: ObjectDB)
    ensures UpdatedTable(UpdatedTable(t, config, db), config, db) == UpdatedTable(t, config, db)
  {
    if config.addToDefaultDrops {
      var once := AppendDrops(t.drops, config.drops, db);
      AppendDropsItems(t.drops, config.drops, db);
      AppendDropsAbsorbs(once, config.drops, db);
    }
  }

  // ---------------------------------------------------------------------------
  // The in-place update
  // ---------------------------------------------------------------------------

  /** ConfigLoader.UpdateFishDrops: overwrites the four roll parameters, clears the live
      list unless AddToDefaultDrops is set, then appends each resolvable entry whose item
      the list does not hold yet. The list object itself is kept (Clear and Add). */
  method UpdateFishDrops(table: DropTable, config: FishDropConfig, db: ObjectDB)
    modifies table, table.drops
    ensures table.drops == old(table.drops)
    ensures table.dropMin == config.dropMin && table.dropMax == config.dropMax
    ensures table.dropChance == config.dropChance && table.oneOfEach == config.oneOfEach
    ensures table.drops.items == UpdatedDrops(old(table.drops.items), config, db)
  {
    table.dropMin := config.dropMin;
    table.dropMax := config.dropMax;
    table.dropChance := config.dropChance;
    table.oneOfEach := config.oneOfEach;

    if !config.addToDefaultDrops {
      table.drops.items := [];
    }
    ghost var start := table.drops.items;

    for i := 0 to |config.drops|
      invariant table.drops == old(table.drops)
      invariant table.dropMin == config.dropMin && table.dropMax == config.dropMax
      invariant table.dropChance == config.dropChance && table.oneOfEach == config.oneOfEach
      invariant table.drops.items == AppendDrops(start, config.drops[..i], db)
    {
      var extraDrop := config.drops[i];
      var itemPrefab := GetItemPrefab(db, if extraDrop.Some? then Some(extraDrop.value.item) else None);
      assert config.drops[..i + 1][..i] == config.drops[..i];
      if itemPrefab.Some? {
        if forall d | d in table.drops.items :: d.item != Some(itemPrefab.value.name) {
          if extraDrop.Some? {
            table.drops.items := table.drops.items + [DropData(Some(itemPrefab.value.name),
              extraDrop.value.minStack, extraDrop.value.maxStack, extraDrop.value.relativeWeight)];
          }
        }
      }
    }
    assert config.drops[..|config.drops|] == config.drops;
  }

  /** The drop tables `ApplyFishDropsConfig` may touch. */
  ghost function TablesOf(db: Option<ObjectDB>): set<DropTable>
  {
    if db.Some? then Tables(db.value) else {}
  }

  ghost function ListsOf(db: Option<ObjectDB>): set<DropList>
    reads TablesOf(db)
  {
    if db.Some? then Lists(db.value) else {}
  }

  /** ConfigLoader.ApplyFishDropsConfig: with the YAML file present and the database loaded,
      applies every document entry whose key names a prefab with a Fish component; every
      other table is left as it was. `fishDropsData` is the synchronised document text. */
  method ApplyFishDropsConfig(yamlFileExists: bool, fishDropsData: string, db: Option<ObjectDB>,
                              deserialize: string -> Deserialized)
    requires db.Some? ==> Valid(db.value)
    modifies TablesOf(db), ListsOf(db)
    ensures !yamlFileExists || db.None? ==>
      forall t :: t in TablesOf(db) ==> t.drops == old(t.drops) && t.Value() == old(t.Value())
    ensures yamlFileExists && db.Some? ==>
      var fishDrops := LoadFromText(fishDropsData, deserialize).fishDrops;
      forall k :: k in db.value.byName && db.value.byName[k].fish.Some? ==>
        var t := db.value.byName[k].fish.value;
        t.drops == old(t.drops) &&
        t.Value() == if k in fishDrops then UpdatedTable(old(t.Value()), fishDrops[k], db.value) else old(t.Value())
  {
    if !yamlFileExists {
      return;
    }
    var dropConfig := LoadFromText(fishDropsData, deserialize);
    if db.None? {
      return;
    }
    ApplyEntries(db.value, dropConfig.fishDrops);
  }

  /** The loop of ApplyFishDropsConfig over the document keys, in whatever order the
      dictionary enumerates them: every key naming a prefab with a Fish component gets its
      table updated once. */
  method ApplyEntries(objectDB: ObjectDB, fishDrops: map<string, FishDropConfig>)
    requires Valid(objectDB)
    modifies Tables(objectDB), Lists(objectDB)
    ensures forall k :: k in objectDB.byName && objectDB.byName[k].fish.Some? ==>
      var t := objectDB.byName[k].fish.value;
      t.drops == old(t.drops) &&
      t.Value() == if k in fishDrops then UpdatedTable(old(t.Value()), fishDrops[k], objectDB) else old(t.Value())
  {
    var remaining := fishDrops.Keys;
    while remaining != {}
      invariant remaining <= fishDrops.Keys
      invariant Valid(objectDB) && Lists(objectDB) == old(Lists(objectDB))
      invariant forall k :: k in objectDB.byName && objectDB.byName[k].fish.Some? ==>
        var t := objectDB.byName[k].fish.value;
        t.drops == old(t.drops) &&
        t.Value() == if k in fishDrops && k !in remaining then UpdatedTable(old(t.Value()), fishDrops[k], objectDB)
                     else old(t.Value())
      decreases remaining
    {
      var key :| key in remaining;
      ApplyEntryTo(objectDB, key, fishDrops[key]);
      remaining := remaining - {key};
    }
  }

  /** One pass of the loop of ApplyFishDropsConfig: looks the key up and, when it names a
      prefab with a Fish component, updates that table; no other table changes. */
  method ApplyEntryTo(objectDB: ObjectDB, key: string, config: FishDropConfig)
    requires Valid(objectDB)
    modifies Tables(objectDB), Lists(objectDB)
    ensures Valid(objectDB) && Lists(objectDB) == old(Lists(objectDB))
    ensures forall k :: k in objectDB.byName && objectDB.byName[k].fish.Some? ==>
      var t := objectDB.byName[k].fish.value;
      t.drops == old(t.drops) &&
      t.Value() == if k == key then UpdatedTable(old(t.Value()), config, objectDB) else old(t.Value())
  {
    var fishPrefab := GetItemPrefab(objectDB, Some(key));
    if fishPrefab.Some? && fishPrefab.value.fish.Some? {
      var fishComponent := fishPrefab.value.fish.value;
      assert fishComponent in Tables(objectDB);
      assert fishComponent.drops in Lists(objectDB);
      UpdateFishDrops(fishComponent, config, objectDB);
    }
  }
}
