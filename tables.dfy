/**
 * Row-sequence operations shared by the store and the form: the `Any` and `FirstOrDefault`
 * lookups of MainWindow.xaml.cs, and the effect of the `WHERE` clauses of Data/Database.cs
 * (filtering and overwriting rows by key).
 */
module Tables {
  import opened Models

  /** `dicts.Any(d => d.DictId == id)`. */
  predicate HasDict(s: seq<Dict>, id: int) {
    exists i :: 0 <= i < |s| && s[i].dictId == id
  }

  /**
   * Some other row names `id` as its parent: with foreign keys on, deleting `id` would break
   * the PARENT_ID reference, which has no ON DELETE action.
   */
  predicate Referenced(s: seq<Dict>, id: int) {
    exists i :: 0 <= i < |s| && s[i].dictId != id && s[i].parentId == Some(id)
  }

  /** `dicts.FirstOrDefault(d => d.DictId == id)`: the first row with that id (`FindDictFirst`), if any. */
  function FindDict(s: seq<Dict>, id: int): (r: Option<Dict>)
    ensures r.Some? <==> HasDict(s, id)
    ensures r.Some? ==> r.value in s && r.value.dictId == id
  {
    if |s| == 0 then None
    else
      var f := FindDict(s[..|s| - 1], id);
      assert forall i :: 0 <= i < |s| - 1 ==> s[..|s| - 1][i] == s[i];
      if f.Some? then f
      else if s[|s| - 1].dictId == id then Some(s[|s| - 1])
      else None
  }

  /** The lookup returns the row at the first position that holds the id. */
  lemma {:induction false} FindDictFirst(s: seq<Dict>, id: int, i: int)
    requires 0 <= i < |s| && s[i].dictId == id && !HasDict(s[..i], id)
    ensures FindDict(s, id) == Some(s[i])
  {
    var p := s[..|s| - 1];
    if i == |s| - 1 {
      assert p == s[..i];
    } else {
      assert p[..i] == s[..i] && p[i] == s[i];
      FindDictFirst(p, id, i);
    }
  }

  /** A row of a table whose ids are distinct is the one `FindDict` returns for its id. */
  lemma FindDictUnique(s: seq<Dict>, r: Dict)
    requires IncreasingBy(s, DictKey)
    requires r in s
    ensures FindDict(s, r.dictId) == Some(r)
  {
    var f := FindDict(s, r.dictId).value;
    var i :| 0 <= i < |s| && s[i] == r;
    var j :| 0 <= j < |s| && s[j] == f;
    assert DictKey(s[i]) == DictKey(s[j]);
  }

  lemma FindDictSnoc(s: seq<Dict>, d: Dict, id: int)
    ensures FindDict(s + [d], id) ==
      if FindDict(s, id).Some? then FindDict(s, id)
      else if d.dictId == id then Some(d) else None
  {
    assert (s + [d])[..|s|] == s;
  }

  /** The rows of `s` that satisfy `keep`, in their original order. */
  function Filter<T(!new)>(s: seq<T>, keep: T -> bool): (r: seq<T>)
    ensures |r| <= |s|
    ensures forall x :: x in r <==> x in s && keep(x)
  {
    if |s| == 0 then []
    else
      assert s == s[..|s| - 1] + [s[|s| - 1]];
      Filter(s[..|s| - 1], keep) + if keep(s[|s| - 1]) then [s[|s| - 1]] else []
  }

  /** The keys of consecutive rows strictly increase (the table's rowid order). */
  ghost predicate IncreasingBy<T>(s: seq<T>, key: T -> int) {
    forall i, j :: 0 <= i < j < |s| ==> key(s[i]) < key(s[j])
  }

  function DictKey(d: Dict): int { d.dictId }

  function ItemKey(it: DictItem): int { it.itemId }

  /** Filtering keeps the rows in key order. */
  lemma {:induction false} FilterIncreasing<T(!new)>(s: seq<T>, keep: T -> bool, key: T -> int)
    requires IncreasingBy(s, key)
    ensures IncreasingBy(Filter(s, keep), key)
  {
    if |s| > 0 {
      var p := s[..|s| - 1];
      var last := s[|s| - 1];
      assert IncreasingBy(p, key) by {
        forall i, j | 0 <= i < j < |p| ensures key(p[i]) < key(p[j]) {
          assert p[i] == s[i] && p[j] == s[j];
        }
      }
      FilterIncreasing(p, keep, key);
      var fp := Filter(p, keep);
      assert forall x :: x in fp ==> key(x) < key(last) by {
        forall x | x in fp ensures key(x) < key(last) {
          var i :| 0 <= i < |p| && p[i] == x;
          assert s[i] == x;
        }
      }
    }
  }

  /** Every key lies in `1..hi`: the ids an AUTOINCREMENT counter at `hi` has issued. */
  ghost predicate KeysWithin<T>(s: seq<T>, key: T -> int, hi: int) {
    forall i :: 0 <= i < |s| ==> 1 <= key(s[i]) <= hi
  }

  /** A `DELETE` (a filter) keeps a table in key order and within the issued ids. */
  lemma FilterKeepsKeys<T(!new)>(s: seq<T>, keep: T -> bool, key: T -> int, hi: int)
    requires IncreasingBy(s, key) && KeysWithin(s, key, hi)
    ensures IncreasingBy(Filter(s, keep), key) && KeysWithin(Filter(s, keep), key, hi)
  {
    FilterIncreasing(s, keep, key);
    var r := Filter(s, keep);
    forall i | 0 <= i < |r| ensures 1 <= key(r[i]) <= hi {
      assert r[i] in s;
    }
  }

  /** DICT after `DELETE FROM DICT WHERE DICT_ID = id`. */
  function RemoveDict(s: seq<Dict>, id: int): (r: seq<Dict>)
    ensures forall d :: d in r <==> d in s && d.dictId != id
    ensures !HasDict(r, id)
  {
    Filter(s, (d: Dict) => d.dictId != id)
  }

  /** The rows of DICT_ITEM owned by dictionary `dictId`. */
  function ItemsOf(s: seq<DictItem>, dictId: int): (r: seq<DictItem>)
    ensures forall it :: it in r <==> it in s && it.dictId == dictId
  {
    Filter(s, (it: DictItem) => it.dictId == dictId)
  }

  lemma ItemsOfSnoc(s: seq<DictItem>, it: DictItem, dictId: int)
    ensures ItemsOf(s + [it], dictId) == ItemsOf(s, dictId) + if it.dictId == dictId then [it] else []
  {
    assert (s + [it])[..|s|] == s;
  }

  /** DICT_ITEM after the cascade that deleting dictionary `dictId` triggers. */
  function ItemsNotOf(s: seq<DictItem>, dictId: int): (r: seq<DictItem>)
    ensures forall it :: it in r <==> it in s && it.dictId != dictId
  {
    Filter(s, (it: DictItem) => it.dictId != dictId)
  }

  /** DICT_ITEM after `DELETE FROM DICT_ITEM WHERE ITEM_ID = itemId`. */
  function RemoveItem(s: seq<DictItem>, itemId: int): (r: seq<DictItem>)
    ensures forall it :: it in r <==> it in s && it.itemId != itemId
  {
    Filter(s, (it: DictItem) => it.itemId != itemId)
  }

  /**
   * DICT after `UPDATE DICT SET ... WHERE DICT_ID = d.dictId`: every row with that id takes
   * the fields of `d`; all other rows, and every row's position and id, stay as they were.
   */
  function OverwriteDict(s: seq<Dict>, d: Dict): (r: seq<Dict>)
    ensures |r| == |s|
    ensures forall i :: 0 <= i < |s| ==> r[i].dictId == s[i].dictId
    ensures forall i :: 0 <= i < |s| && s[i].dictId != d.dictId ==> r[i] == s[i]
    ensures forall i :: 0 <= i < |s| && s[i].dictId == d.dictId ==> r[i] == d
    ensures !HasDict(s, d.dictId) ==> r == s
  {
    seq(|s|, i requires 0 <= i < |s| => if s[i].dictId == d.dictId then d else s[i])
  }

  /** DICT_ITEM after `UPDATE DICT_ITEM SET ... WHERE ITEM_ID = it.itemId`. */
  function OverwriteItem(s: seq<DictItem>, it: DictItem): (r: seq<DictItem>)
    ensures |r| == |s|
    ensures forall i :: 0 <= i < |s| ==> r[i].itemId == s[i].itemId
    ensures forall i :: 0 <= i < |s| && s[i].itemId != it.itemId ==> r[i] == s[i]
    ensures forall i :: 0 <= i < |s| && s[i].itemId == it.itemId ==> r[i] == it
  {
    seq(|s|, i requires 0 <= i < |s| => if s[i].itemId == it.itemId then it else s[i])
  }

  /**
   * Overwriting with an edit of a row already in the table moves no item to another
   * dictionary: every row keeps its id and its dictionary.
   */
  lemma OverwriteItemKeepsOwner(s: seq<DictItem>, prev: DictItem, it: DictItem)
    requires IncreasingBy(s, ItemKey)
    requires prev in s && it.itemId == prev.itemId && it.dictId == prev.dictId
    ensures forall i :: 0 <= i < |s| ==>
      OverwriteItem(s, it)[i].itemId == s[i].itemId && OverwriteItem(s, it)[i].dictId == s[i].dictId
  {
    var j :| 0 <= j < |s| && s[j] == prev;
    forall i | 0 <= i < |s| && s[i].itemId == it.itemId
      ensures s[i].dictId == it.dictId
    {
      assert ItemKey(s[i]) == ItemKey(s[j]);
    }
  }

  /** After an overwrite, looking up the overwritten id finds the new row; other ids are unaffected. */
  lemma {:induction false} FindDictOverwrite(s: seq<Dict>, d: Dict, id: int)
    ensures FindDict(OverwriteDict(s, d), id) ==
      if id != d.dictId then FindDict(s, id)
      else if HasDict(s, id) then Some(d) else None
  {
    if |s| > 0 {
      var p := s[..|s| - 1];
      var last := s[|s| - 1];
      var o := OverwriteDict(s, d);
      assert o == OverwriteDict(p, d) + [o[|s| - 1]];
      assert s == p + [last];
      FindDictOverwrite(p, d, id);
      FindDictSnoc(OverwriteDict(p, d), o[|s| - 1], id);
      FindDictSnoc(p, last, id);
    }
  }

  /** Deleting the rows with id `x` does not change what other ids look up. */
  lemma {:induction false} FindDictRemove(s: seq<Dict>, x: int, id: int)
    requires id != x
    ensures FindDict(RemoveDict(s, x), id) == FindDict(s, id)
  {
    if |s| > 0 {
      var p := s[..|s| - 1];
      var last := s[|s| - 1];
      assert s == p + [last];
      FindDictRemove(p, x, id);
      FindDictSnoc(p, last, id);
      var tail := if last.dictId != x then [last] else [];
      assert RemoveDict(s, x) == RemoveDict(p, x) + tail;
      if last.dictId != x {
        FindDictSnoc(RemoveDict(p, x), last, id);
      } else {
        assert RemoveDict(s, x) == RemoveDict(p, x);
      }
    }
  }

  /**
   * Every item names an existing dictionary. DICT_ITEM's foreign key is never enforced on
   * writes, so this holds only as far as the callers keep it.
   */
  ghost predicate ItemsOwned(items: seq<DictItem>, dicts: seq<Dict>) {
    forall i :: 0 <= i < |items| ==> HasDict(dicts, items[i].dictId)
  }

  /** Appending a dictionary keeps every item's owner. */
  lemma OwnedAfterCreateDict(items: seq<DictItem>, dicts: seq<Dict>, d: Dict)
    requires ItemsOwned(items, dicts)
    ensures ItemsOwned(items, dicts + [d])
  {
    forall i | 0 <= i < |items| ensures HasDict(dicts + [d], items[i].dictId) {
      var j :| 0 <= j < |dicts| && dicts[j].dictId == items[i].dictId;
      assert (dicts + [d])[j] == dicts[j];
    }
  }

  /** An `UPDATE` of DICT keeps every row's id, so every item keeps its owner. */
  lemma OwnedAfterUpdateDict(items: seq<DictItem>, dicts: seq<Dict>, d: Dict)
    requires ItemsOwned(items, dicts)
    ensures ItemsOwned(items, OverwriteDict(dicts, d))
  {
    var r := OverwriteDict(dicts, d);
    forall i | 0 <= i < |items| ensures HasDict(r, items[i].dictId) {
      var j :| 0 <= j < |dicts| && dicts[j].dictId == items[i].dictId;
      assert r[j].dictId == dicts[j].dictId;
    }
  }

  /**
   * Deleting a dictionary with its cascade keeps every remaining item's owner: the items
   * of the deleted row go with it, and an id with no row deletes nothing.
   */
  lemma OwnedAfterDeleteDict(items: seq<DictItem>, dicts: seq<Dict>, id: int)
    requires ItemsOwned(items, dicts)
    ensures ItemsOwned(if HasDict(dicts, id) then ItemsNotOf(items, id) else items, RemoveDict(dicts, id))
  {
    var kept := if HasDict(dicts, id) then ItemsNotOf(items, id) else items;
    var rest := RemoveDict(dicts, id);
    forall i | 0 <= i < |kept| ensures HasDict(rest, kept[i].dictId) {
      var it := kept[i];
      assert it in items;
      var k :| 0 <= k < |items| && items[k] == it;
      var j :| 0 <= j < |dicts| && dicts[j].dictId == it.dictId;
      assert it.dictId != id;
      assert dicts[j] in rest;
      var m :| 0 <= m < |rest| && rest[m] == dicts[j];
    }
  }

  /** Appending an item under an existing dictionary keeps every item's owner. */
  lemma OwnedAfterCreateItem(items: seq<DictItem>, dicts: seq<Dict>, it: DictItem)
    requires ItemsOwned(items, dicts) && HasDict(dicts, it.dictId)
    ensures ItemsOwned(items + [it], dicts)
  {
    forall i | 0 <= i < |items| + 1 ensures HasDict(dicts, (items + [it])[i].dictId) {
      if i < |items| {
        assert (items + [it])[i] == items[i];
      }
    }
  }

  /** Overwriting items with a row owned by an existing dictionary keeps every item's owner. */
  lemma OwnedAfterUpdateItem(items: seq<DictItem>, dicts: seq<Dict>, it: DictItem)
    requires ItemsOwned(items, dicts) && HasDict(dicts, it.dictId)
    ensures ItemsOwned(OverwriteItem(items, it), dicts)
  {
  }

  /** Deleting an item keeps every other item's owner. */
  lemma OwnedAfterDeleteItem(items: seq<DictItem>, dicts: seq<Dict>, itemId: int)
    requires ItemsOwned(items, dicts)
    ensures ItemsOwned(RemoveItem(items, itemId), dicts)
  {
    var r := RemoveItem(items, itemId);
    forall i | 0 <= i < |r| ensures HasDict(dicts, r[i].dictId) {
      assert r[i] in items;
      var k :| 0 <= k < |items| && items[k] == r[i];
    }
  }
}
