/**
 * The storage gateway of Data/Database.cs over abstract tables. Each table is the sequence of
 * its rows in rowid order (which for an INTEGER PRIMARY KEY is id order); the AUTOINCREMENT
 * counter of each table is the largest id it ever issued, so ids are never reused.
 */
module Store {
  import opened Models
  import opened Tables

  /** The two sample dictionaries inserted on first initialization. */
  function SeedDicts(): seq<Dict> {
    [ Dict(1, None, "Країни", "COUNTRIES", Some("Список країн.")),
      Dict(2, Some(1), "Мови", "LANGUAGES", Some("Список мов.")) ]
  }

  /** The five sample items inserted on first initialization. */
  function SeedItems(): seq<DictItem> {
    [ DictItem(1, 1, "UA", "Україна"),
      DictItem(2, 1, "PL", "Польща"),
      DictItem(3, 2, "UA", "Українська"),
      DictItem(4, 2, "EN", "Англійська"),
      DictItem(5, 2, "JP", "Японська") ]
  }

  /** The seed holds a root COUNTRIES dictionary and a LANGUAGES dictionary nested under it. */
  lemma SeedShape()
    ensures |SeedDicts()| == 2 && |SeedItems()| == 5
    ensures SeedDicts()[0].code == "COUNTRIES" && SeedDicts()[0].parentId == None
    ensures SeedDicts()[1].code == "LANGUAGES" && SeedDicts()[1].parentId == Some(SeedDicts()[0].dictId)
  {
  }

  function Keep(it: DictItem, dictId: int): seq<DictItem> {
    if it.dictId == dictId then [it] else []
  }

  lemma ItemsOfFive(a: DictItem, b: DictItem, c: DictItem, d: DictItem, e: DictItem, id: int)
    ensures ItemsOf([a, b, c, d, e], id) == Keep(a, id) + Keep(b, id) + Keep(c, id) + Keep(d, id) + Keep(e, id)
  {
    assert [a] == [] + [a] && [a, b] == [a] + [b] && [a, b, c] == [a, b] + [c];
    assert [a, b, c, d] == [a, b, c] + [d] && [a, b, c, d, e] == [a, b, c, d] + [e];
    ItemsOfSnoc([], a, id);
    ItemsOfSnoc([a], b, id);
    ItemsOfSnoc([a, b], c, id);
    ItemsOfSnoc([a, b, c], d, id);
    ItemsOfSnoc([a, b, c, d], e, id);
  }

  /** COUNTRIES owns UA/Україна and PL/Польща. */
  lemma SeedCountriesItems()
    ensures ItemsOf(SeedItems(), SeedDicts()[0].dictId) == SeedItems()[..2]
  {
    var s := SeedItems();
    ItemsOfFive(s[0], s[1], s[2], s[3], s[4], 1);
    assert s == [s[0], s[1], s[2], s[3], s[4]];
  }

  /** LANGUAGES owns UA/Українська, EN/Англійська and JP/Японська. */
  lemma SeedLanguagesItems()
    ensures ItemsOf(SeedItems(), SeedDicts()[1].dictId) == SeedItems()[2..]
  {
    var s := SeedItems();
    ItemsOfFive(s[0], s[1], s[2], s[3], s[4], 2);
    assert s == [s[0], s[1], s[2], s[3], s[4]];
  }

  class Database {
    /** Whether the database file exists (`File.Exists(DbFile)`). */
    var created: bool
    /** The DICT table. */
    var dicts: seq<Dict>
    /** The DICT_ITEM table. */
    var items: seq<DictItem>
    /** The AUTOINCREMENT counters of DICT and DICT_ITEM. */
    var dictSeq: nat
    var itemSeq: nat

    ghost predicate Valid()
      reads this
    {
      && IncreasingBy(dicts, DictKey) && KeysWithin(dicts, DictKey, dictSeq)
      && IncreasingBy(items, ItemKey) && KeysWithin(items, ItemKey, itemSeq)
      && (!created ==> dicts == [] && items == [] && dictSeq == 0 && itemSeq == 0)
    }

    /** A database whose file does not exist yet. */
    constructor ()
      ensures Valid() && !created
    {
      created := false;
      dicts, items := [], [];
      dictSeq, itemSeq := 0, 0;
    }

    /**
     * Creates the file and both tables if needed. `CREATE TABLE IF NOT EXISTS` adds no rows,
     * so only a store that did not exist before is seeded; on an existing store nothing changes.
     */
    method Initialize()
      requires Valid()
      modifies this
      ensures Valid() && created
      ensures old(created) ==>
        dicts == old(dicts) && items == old(items) && dictSeq == old(dictSeq) && itemSeq == old(itemSeq)
      ensures !old(created) ==> dicts == SeedDicts() && items == SeedItems() && dictSeq == 2 && itemSeq == 5
    {
      var first := !created;
      created := true;
      if first {
        SeedSampleData();
      }
    }

    /** The seed transaction, taken as one atomic step. */
    method SeedSampleData()
      requires Valid() && created && dicts == [] && items == [] && dictSeq == 0 && itemSeq == 0
      modifies this
      ensures Valid() && created
      ensures dicts == SeedDicts() && items == SeedItems() && dictSeq == 2 && itemSeq == 5
    {
      var countries := CreateDict(Dict(0, None, "Країни", "COUNTRIES", Some("Список країн.")));
      var languages := CreateDict(Dict(0, Some(countries), "Мови", "LANGUAGES", Some("Список мов.")));
      var id := CreateItem(DictItem(0, countries, "UA", "Україна"));
      id := CreateItem(DictItem(0, countries, "PL", "Польща"));
      id := CreateItem(DictItem(0, languages, "UA", "Українська"));
      id := CreateItem(DictItem(0, languages, "EN", "Англійська"));
      id := CreateItem(DictItem(0, languages, "JP", "Японська"));
    }

    /** `SELECT ... FROM DICT ORDER BY DICT_ID ASC`, read row by row. */
    method GetAllDicts() returns (list: seq<Dict>)
      requires Valid() && created
      ensures list == dicts
      ensures IncreasingBy(list, DictKey)
    {
      list := [];
      var i := 0;
      while i < |dicts|
        invariant 0 <= i <= |dicts|
        invariant list == dicts[..i]
      {
        list := list + [dicts[i]];
        i := i + 1;
      }
    }

    /**
     * Inserts one DICT row with the given parent, name, code and description (an absent parent
     * or description is stored as NULL) and returns its id, larger than every id ever issued.
     * No foreign key is checked on this connection.
     */
    method CreateDict(d: Dict) returns (id: int)
      requires Valid() && created
      modifies this
      ensures Valid() && created
      ensures id == old(dictSeq) + 1 && dictSeq == id
      ensures forall i :: 0 <= i < |old(dicts)| ==> old(dicts)[i].dictId < id
      ensures dicts == old(dicts) + [d.(dictId := id)]
      ensures items == old(items) && itemSeq == old(itemSeq)
    {
      id := dictSeq + 1;
      dictSeq := id;
      dicts := dicts + [d.(dictId := id)];
    }

    /**
     * Overwrites PARENT_ID, NAME, CODE and DESCRIPTION of the row whose id is `d.dictId`;
     * every other row stays as it was, and nothing happens when no row has that id.
     */
    method UpdateDict(d: Dict)
      requires Valid() && created
      modifies this
      ensures Valid() && created
      ensures dicts == OverwriteDict(old(dicts), d)
      ensures !HasDict(old(dicts), d.dictId) ==> dicts == old(dicts)
      ensures items == old(items) && dictSeq == old(dictSeq) && itemSeq == old(itemSeq)
    {
      dicts := OverwriteDict(dicts, d);
      assert forall i :: 0 <= i < |dicts| ==> DictKey(dicts[i]) == DictKey(old(dicts)[i]);
    }

    /**
     * Deletes the dictionary `id` with foreign keys on. The items it owns go with the row
     * (ON DELETE CASCADE); an id with no row deletes nothing, so no cascade fires. When
     * another dictionary still names the row as parent, the statement fails and nothing changes.
     */
    method DeleteDict(id: int) returns (ok: bool)
      requires Valid() && created
      modifies this
      ensures Valid() && created
      ensures ok <==> !(HasDict(old(dicts), id) && Referenced(old(dicts), id))
      ensures ok ==> dicts == RemoveDict(old(dicts), id)
      ensures ok ==> items == if HasDict(old(dicts), id) then ItemsNotOf(old(items), id) else old(items)
      ensures !ok ==> unchanged(this)
      ensures dictSeq == old(dictSeq) && itemSeq == old(itemSeq)
    {
      if HasDict(dicts, id) && Referenced(dicts, id) {
        ok := false;
      } else {
        ok := true;
        if HasDict(dicts, id) {
          FilterKeepsKeys(items, (it: DictItem) => it.dictId != id, ItemKey, itemSeq);
          items := ItemsNotOf(items, id);
        }
        FilterKeepsKeys(dicts, (d: Dict) => d.dictId != id, DictKey, dictSeq);
        dicts := RemoveDict(dicts, id);
      }
    }

    /** `SELECT ... FROM DICT_ITEM WHERE DICT_ID = @did ORDER BY ITEM_ID ASC`, read row by row. */
    method GetItemsByDict(dictId: int) returns (list: seq<DictItem>)
      requires Valid() && created
      ensures list == ItemsOf(items, dictId)
      ensures forall it :: it in list <==> it in items && it.dictId == dictId
      ensures IncreasingBy(list, ItemKey)
    {
      list := [];
      var i := 0;
      while i < |items|
        invariant 0 <= i <= |items|
        invariant list == ItemsOf(items[..i], dictId)
      {
        assert items[..i + 1][..i] == items[..i];
        if items[i].dictId == dictId {
          list := list + [items[i]];
        }
        i := i + 1;
      }
      assert items[..i] == items;
      FilterIncreasing(items, (it: DictItem) => it.dictId == dictId, ItemKey);
    }

    /** Inserts one DICT_ITEM row and returns its id, larger than every item id ever issued. */
    method CreateItem(it: DictItem) returns (id: int)
      requires Valid() && created
      modifies this
      ensures Valid() && created
      ensures id == old(itemSeq) + 1 && itemSeq == id
      ensures forall i :: 0 <= i < |old(items)| ==> old(items)[i].itemId < id
      ensures items == old(items) + [it.(itemId := id)]
      ensures dicts == old(dicts) && dictSeq == old(dictSeq)
    {
      id := itemSeq + 1;
      itemSeq := id;
      items := items + [it.(itemId := id)];
    }

    /** Overwrites DICT_ID, CODE and NAME of the item whose id is `it.itemId`, and nothing else. */
    method UpdateItem(it: DictItem)
      requires Valid() && created
      modifies this
      ensures Valid() && created
      ensures items == OverwriteItem(old(items), it)
      ensures dicts == old(dicts) && dictSeq == old(dictSeq) && itemSeq == old(itemSeq)
    {
      items := OverwriteItem(items, it);
      assert forall i :: 0 <= i < |items| ==> ItemKey(items[i]) == ItemKey(old(items)[i]);
    }

    /** Deletes the item `itemId`, and nothing else. */
    method DeleteItem(itemId: int)
      requires Valid() && created
      modifies this
      ensures Valid() && created
      ensures items == RemoveItem(old(items), itemId)
      ensures dicts == old(dicts) && dictSeq == old(dictSeq) && itemSeq == old(itemSeq)
    {
      FilterKeepsKeys(items, (it: DictItem) => it.itemId != itemId, ItemKey, itemSeq);
      items := RemoveItem(items, itemId);
    }
  }
}
