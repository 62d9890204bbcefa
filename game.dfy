/** The part of the game's object model that the drop-table override engine touches:
    drop entries, the live drop list and drop table of a Fish component, item prefabs
    and the item database (ObjectDB). Items are identified by their prefab name. */
module Game {
  import opened Wrappers

  /** One DropTable.DropData: the dropped item (None when the game left m_item unset),
      the stack range and the relative weight. Weights are only ever copied. */
  datatype DropData = DropData(item: Option<string>, stackMin: int, stackMax: int, weight: real)

  /** The items of a drop list, with duplicates collapsed. */
  function ItemsOf(s: seq<DropData>): set<Option<string>>
  {
    set d | d in s :: d.item
  }

  /** No two entries of the list drop the same item. */
  predicate NoDupItems(s: seq<DropData>)
  {
    forall i, j :: 0 <= i < j < |s| ==> s[i].item != s[j].item
  }

  /** Every entry names an item (reading m_item.name cannot fail). */
  predicate AllNamed(s: seq<DropData>)
  {
    forall i :: 0 <= i < |s| ==> s[i].item.Some?
  }

  /** A List<DropData> of the game. It is a heap object: whoever holds a reference to it
      sees the Clear and Add calls made through any other reference. */
  class DropList {
    var items: seq<DropData>

    constructor (items: seq<DropData>)
      ensures this.items == items
    {
      this.items := items;
    }
  }

  /** The value of a drop table at one moment: roll parameters and the drop entries. */
  datatype TableValue = TableValue(dropMin: int, dropMax: int, dropChance: real, oneOfEach: bool, drops: seq<DropData>)

  /** A DropTable (a Fish component's m_extraDrops). */
  class DropTable {
    var dropMin: int
    var dropMax: int
    var dropChance: real
    var oneOfEach: bool
    var drops: DropList

    constructor (v: TableValue)
      ensures Value() == v && fresh(drops)
    {
      dropMin, dropMax, dropChance, oneOfEach := v.dropMin, v.dropMax, v.dropChance, v.oneOfEach;
      drops := new DropList(v.drops);
    }

    function Value(): TableValue
      reads this, drops
    {
      TableValue(dropMin, dropMax, dropChance, oneOfEach, drops.items)
    }

    /** DropTable.IsEmpty: the table has no drop entries. */
    predicate IsEmpty()
      reads this, drops
    {
      |drops.items| == 0
    }
  }

  /** An item prefab: its name, whether it is an item of type Fish (it has an ItemDrop whose
      item type is Fish), and the m_extraDrops table of its Fish component, if it has one. */
  datatype Prefab = Prefab(name: string, isFish: bool, fish: Option<DropTable>)

  /** The item database: the m_items list and the name lookup behind GetItemPrefab. */
  datatype ObjectDB = ObjectDB(items: seq<Prefab>, byName: map<string, Prefab>)

  /** ObjectDB.GetItemPrefab; a null name finds nothing. */
  function GetItemPrefab(db: ObjectDB, name: Option<string>): Option<Prefab>
  {
    if name.Some? && name.value in db.byName then Some(db.byName[name.value]) else None
  }

  /** The drop tables of all prefabs the lookup can reach that have a Fish component. */
  ghost function Tables(db: ObjectDB): set<DropTable>
  {
    set k | k in db.byName && db.byName[k].fish.Some? :: db.byName[k].fish.value
  }

  /** The live drop lists of those tables. */
  ghost function Lists(db: ObjectDB): set<DropList>
    reads Tables(db)
  {
    set t | t in Tables(db) :: t.drops
  }

  /** The game gives every prefab its own Fish component and every table its own list. */
  ghost predicate Valid(db: ObjectDB)
    reads Tables(db)
  {
    (forall k1, k2 ::
       k1 in db.byName && k2 in db.byName && k1 != k2 && db.byName[k1].fish.Some? && db.byName[k2].fish.Some?
       ==> db.byName[k1].fish.value != db.byName[k2].fish.value) &&
    (forall t1, t2 :: t1 in Tables(db) && t2 in Tables(db) && t1 != t2 ==> t1.drops != t2.drops)
  }
}
