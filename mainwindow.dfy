/**
 * The validation-then-write logic of MainWindow.xaml.cs: the in-memory snapshot of DICT, the
 * cycle check `IsCyclic`, and the add, update and delete handlers for dictionaries and items.
 * Text boxes become the handlers' text parameters, the grid selections become explicit
 * `Option` parameters, and a confirmation dialog becomes a boolean.
 */
module Window {
  import opened Models
  import opened Text
  import opened Tables
  import opened Hierarchy
  import Store

  /** What a handler did: the rejection the form reports, or `Ok`. */
  datatype Outcome =
    | Ok
    | NothingSelected
    | EmptyRequired
    | ParentNotNumeric
    | ParentNotFound
    | WouldCycle
    | Cancelled
    | StillReferenced

  /** The parent a (validated) parent field stands for: none for blank text, a root. */
  function ParentFromText(parentText: string): (r: Option<int>)
    ensures Blank(parentText) ==> r == None
    ensures !Blank(parentText) ==> r == ParseInt(Trim(parentText))
  {
    var t := Trim(parentText);
    if t == [] then None else ParseInt(t)
  }

  /** The text the parent box shows for a selected dictionary: its parent id, or nothing. */
  function ParentText(d: Dict): (r: string)
    ensures r == [] <==> d.parentId.None?
  {
    if d.parentId.Some? then FormatInt(d.parentId.value) else ""
  }

  /** Submitting the parent box as it was filled from a selection keeps the parent as it was. */
  lemma ParentTextRoundTrip(d: Dict)
    requires d.parentId.Some? ==> IsInt32(d.parentId.value)
    ensures ParentFromText(ParentText(d)) == d.parentId
  {
    if d.parentId.Some? {
      ParseFormatRoundTrip(d.parentId.value);
      FormatIsTrimmed(d.parentId.value);
    }
  }

  /**
   * The row the dictionary form describes: the text fields stored without surrounding
   * white space, the description never null, the parent as the parent box names it.
   */
  function EditedDict(id: int, nameText: string, codeText: string, descText: string, parentText: string): (r: Dict)
    ensures r.dictId == id && r.parentId == ParentFromText(parentText)
  {
    Dict(id, ParentFromText(parentText), Trim(nameText), Trim(codeText), Some(Trim(descText)))
  }

  /**
   * The stored text fields carry no surrounding white space (trimming them again changes
   * nothing), the description is never null, and name and code are empty only for blank input.
   */
  lemma EditedDictTrimmed(id: int, nameText: string, codeText: string, descText: string, parentText: string)
    ensures Trim(EditedDict(id, nameText, codeText, descText, parentText).name)
      == EditedDict(id, nameText, codeText, descText, parentText).name
    ensures Trim(EditedDict(id, nameText, codeText, descText, parentText).code)
      == EditedDict(id, nameText, codeText, descText, parentText).code
    ensures EditedDict(id, nameText, codeText, descText, parentText).description
      == Some(Trim(EditedDict(id, nameText, codeText, descText, parentText).description.value))
    ensures EditedDict(id, nameText, codeText, descText, parentText).name == [] <==> Blank(nameText)
    ensures EditedDict(id, nameText, codeText, descText, parentText).code == [] <==> Blank(codeText)
  {
    var r := EditedDict(id, nameText, codeText, descText, parentText);
    assert r.name == Trim(nameText) && r.code == Trim(codeText) && r.description == Some(Trim(descText));
    TrimIdempotent(nameText);
    TrimIdempotent(codeText);
    TrimIdempotent(descText);
  }

  /**
   * The outcome of validating the dictionary form for `subject` (0 when creating) against the
   * snapshot `s`, in the order the handlers check: required fields, then a numeric parent,
   * then an existing parent, then no cycle.
   */
  ghost function DictVerdict(s: seq<Dict>, subject: int, nameText: string, codeText: string, parentText: string): (r: Outcome)
    ensures r == EmptyRequired <==> Blank(nameText) || Blank(codeText)
    ensures r == Ok ==> ParentFromText(parentText).Some? ==>
      HasDict(s, ParentFromText(parentText).value) && !OnChain(s, subject, ParentFromText(parentText).value)
    ensures r in {Ok, EmptyRequired, ParentNotNumeric, ParentNotFound, WouldCycle}
  {
    if Trim(nameText) == [] || Trim(codeText) == [] then EmptyRequired
    else if Trim(parentText) == [] then Ok
    else match ParseInt(Trim(parentText))
      case None => ParentNotNumeric
      case Some(p) =>
        if !HasDict(s, p) then ParentNotFound
        else if OnChain(s, subject, p) then WouldCycle
        else Ok
  }

  /**
   * The form is accepted exactly when name and code are filled and the parent field is
   * blank or names an existing dictionary whose chain does not reach the subject; it is
   * rejected as not numeric exactly when the only fault is a parent field that does not parse.
   */
  lemma DictVerdictCases(s: seq<Dict>, subject: int, nameText: string, codeText: string, parentText: string)
    ensures DictVerdict(s, subject, nameText, codeText, parentText) == Ok <==>
      && !Blank(nameText) && !Blank(codeText)
      && (|| Blank(parentText)
          || (&& ParseInt(Trim(parentText)).Some?
              && HasDict(s, ParseInt(Trim(parentText)).value)
              && !OnChain(s, subject, ParseInt(Trim(parentText)).value)))
    ensures DictVerdict(s, subject, nameText, codeText, parentText) == ParentNotNumeric <==>
      !Blank(nameText) && !Blank(codeText) && !Blank(parentText) && ParseInt(Trim(parentText)).None?
  {
  }

  /** The outcome of validating the item form: a selection, then non-blank code and name. */
  function ItemVerdict(hasSelection: bool, codeText: string, nameText: string): (r: Outcome)
    ensures r == Ok <==> hasSelection && !Blank(codeText) && !Blank(nameText)
    ensures r == NothingSelected <==> !hasSelection
    ensures r == EmptyRequired <==> hasSelection && (Blank(codeText) || Blank(nameText))
  {
    if !hasSelection then NothingSelected
    else if Trim(codeText) == [] || Trim(nameText) == [] then EmptyRequired
    else Ok
  }

  /** A form whose name or code is blank is rejected first, whatever the parent field says. */
  lemma BlankFieldRejected(s: seq<Dict>, subject: int, nameText: string, codeText: string, parentText: string)
    requires Blank(nameText) || Blank(codeText)
    ensures DictVerdict(s, subject, nameText, codeText, parentText) == EmptyRequired
  {
  }

  /**
   * Naming a dictionary as its own parent is rejected as a cycle, whichever text names it
   * ("5", "+5", "05", or the id as the parent box shows it).
   */
  lemma SelfParentRejected(s: seq<Dict>, x: int, nameText: string, codeText: string, parentText: string)
    requires !Blank(nameText) && !Blank(codeText)
    requires HasDict(s, x) && ParseInt(Trim(parentText)) == Some(x)
    ensures DictVerdict(s, x, nameText, codeText, parentText) == WouldCycle
  {
    SelfOnChain(s, x);
  }

  /**
   * A parent field that is not an optional sign followed by digits is rejected as not
   * numeric, before any lookup: such text is never stored as a root.
   */
  lemma NonNumericParentRejected(s: seq<Dict>, subject: int, nameText: string, codeText: string, parentText: string)
    requires !Blank(nameText) && !Blank(codeText) && !Blank(parentText)
    requires !SignedDigits(Trim(parentText))
    ensures DictVerdict(s, subject, nameText, codeText, parentText) == ParentNotNumeric
  {
  }

  /** A parent id with no row is rejected as not found, before any cycle check. */
  lemma OrphanParentRejected(s: seq<Dict>, subject: int, p: int, nameText: string, codeText: string, parentText: string)
    requires !Blank(nameText) && !Blank(codeText)
    requires !HasDict(s, p) && ParseInt(Trim(parentText)) == Some(p)
    ensures DictVerdict(s, subject, nameText, codeText, parentText) == ParentNotFound
  {
  }

  /**
   * A, B under A and C under B: making C the parent of A is rejected as a cycle, and so the
   * write that would close the loop never happens.
   */
  lemma ThreeLevelCycleRejected(a: Dict, b: Dict, c: Dict, nameText: string, codeText: string)
    requires a.dictId < b.dictId < c.dictId && IsInt32(c.dictId)
    requires b.parentId == Some(a.dictId) && c.parentId == Some(b.dictId)
    requires !Blank(nameText) && !Blank(codeText)
    ensures DictVerdict([a, b, c], a.dictId, nameText, codeText, FormatInt(c.dictId)) == WouldCycle
  {
    var s := [a, b, c];
    ParseFormatRoundTrip(c.dictId);
    assert IncreasingBy(s, DictKey);
    FindDictUnique(s, b);
    FindDictUnique(s, c);
    assert Walk(s, Some(c.dictId), 1) == ParentOf(s, c.dictId) == Some(b.dictId);
    assert Walk(s, Some(c.dictId), 2) == ParentOf(s, b.dictId) == Some(a.dictId);
  }

  /** For creation the sentinel subject 0 never meets a cycle: ids are positive. */
  lemma CreateNeverWouldCycle(s: seq<Dict>, nameText: string, codeText: string, parentText: string)
    requires ParentsExist(s)
    requires forall i :: 0 <= i < |s| ==> s[i].dictId > 0
    ensures DictVerdict(s, 0, nameText, codeText, parentText) != WouldCycle
  {
    var p := ParentFromText(parentText);
    if p.Some? && HasDict(s, p.value) {
      SentinelNeverOnChain(s, p.value);
    }
  }

  /** An update the validation lets through keeps the hierarchy a forest. */
  lemma AcceptedUpdateKeepsForest(s: seq<Dict>, x: int, nameText: string, codeText: string, descText: string, parentText: string)
    requires Forest(s)
    requires DictVerdict(s, x, nameText, codeText, parentText) == Ok
    ensures Forest(OverwriteDict(s, EditedDict(x, nameText, codeText, descText, parentText)))
  {
    UpdateKeepsForest(s, EditedDict(x, nameText, codeText, descText, parentText));
  }

  /** The seed data is a forest. */
  lemma SeedIsForest()
    ensures Forest(Store.SeedDicts())
  {
    var s := Store.SeedDicts();
    assert s[0].dictId == 1 && s[1].dictId == 2;
    assert HasDict(s, 1);
    forall id ensures Ends(s, id) {
      if id == 2 {
        assert Walk(s, Some(id), 2) == None;
      } else {
        assert Walk(s, Some(id), 1) == None;
      }
    }
  }
  /** Every seeded item belongs to a seeded dictionary. */
  lemma SeedItemsOwned()
    ensures ItemsOwned(Store.SeedItems(), Store.SeedDicts())
  {
    var s := Store.SeedDicts();
    assert s[0].dictId == 1 && s[1].dictId == 2;
  }


  class MainWindow {
    const db: Store.Database
    /** The snapshot `dicts`, reloaded after every write. */
    var dicts: seq<Dict>
    /** The items shown for the selected dictionary. */
    var items: seq<DictItem>

    ghost predicate Valid()
      reads this, db
    {
      && db.Valid() && db.created
      && dicts == db.dicts
      && Forest(dicts)
      && ItemsOwned(db.items, db.dicts)
      && (forall it :: it in items ==> it in db.items)
    }

    /** Opens the form: initializes the store (seeding a new one) and loads the snapshot. */
    constructor (db: Store.Database)
      requires db.Valid() && Forest(db.dicts) && ItemsOwned(db.items, db.dicts)
      modifies db
      ensures Valid() && this.db == db && items == []
      ensures !old(db.created) ==> db.dicts == Store.SeedDicts() && db.items == Store.SeedItems()
      ensures !old(db.created) ==> db.dictSeq == 2 && db.itemSeq == 5
      ensures old(db.created) ==> db.dicts == old(db.dicts) && db.items == old(db.items)
      ensures old(db.created) ==> db.dictSeq == old(db.dictSeq) && db.itemSeq == old(db.itemSeq)
    {
      db.Initialize();
      SeedIsForest();
      SeedItemsOwned();
      var list := db.GetAllDicts();
      this.db := db;
      dicts := list;
      items := [];
    }

    /** Reloads the snapshot and clears the item list. */
    method LoadDicts()
      requires db.Valid() && db.created && Forest(db.dicts) && ItemsOwned(db.items, db.dicts)
      modifies this
      ensures Valid() && dicts == db.dicts && items == []
    {
      dicts := db.GetAllDicts();
      items := [];
    }

    /** Reloads the item list for the selected dictionary, or clears it when none is selected. */
    method LoadItemsForSelectedDict(selected: Option<Dict>)
      requires db.Valid() && db.created && dicts == db.dicts && Forest(dicts)
      requires ItemsOwned(db.items, db.dicts)
      modifies this`items
      ensures Valid()
      ensures items == if selected.Some? then ItemsOf(db.items, selected.value.dictId) else []
    {
      if selected.None? {
        items := [];
      } else {
        items := db.GetItemsByDict(selected.value.dictId);
      }
    }

    /**
     * Walks the parent chain in the snapshot from `potentialParentId` and reports whether it
     * reaches `dictId`. The walk ends at a root or at an id the snapshot does not hold; it
     * terminates only because that chain is finite.
     */
    method IsCyclic(dictId: int, potentialParentId: int) returns (cyclic: bool)
      requires Ends(dicts, potentialParentId)
      ensures cyclic == OnChain(dicts, dictId, potentialParentId)
    {
      var s := dicts;
      ghost var start := Some(potentialParentId);
      var currentParent: Option<int> := Some(potentialParentId);
      ghost var steps: nat := 0;
      ghost var bound: nat :| Walk(s, start, bound) == None;
      while currentParent.Some?
        invariant currentParent == Walk(s, start, steps)
        invariant steps <= bound
        invariant forall j :: 0 <= j < steps ==> Walk(s, start, j) != Some(dictId)
        decreases bound - steps
      {
        if currentParent.value == dictId {
          return true;
        }
        var parent := FindDict(s, currentParent.value);
        ghost var prev := currentParent;
        currentParent := if parent.Some? then parent.value.parentId else None;
        assert currentParent == Next(s, prev);
        steps := steps + 1;
      }
      forall k: nat ensures Walk(s, start, k) != Some(dictId) {
        if k >= steps {
          WalkNoneStays(s, start, steps, k);
        }
      }
      return false;
    }

    /**
     * The checks `BtnAddDict_Click` and `BtnUpdateDict_Click` make before writing: required
     * fields, a numeric parent, an existing parent, and no cycle through `subject`.
     */
    method CheckDictForm(subject: int, nameText: string, codeText: string, parentText: string)
      returns (o: Outcome, parentId: Option<int>)
      requires Valid()
      ensures o == DictVerdict(dicts, subject, nameText, codeText, parentText)
      ensures o == Ok ==> parentId == ParentFromText(parentText)
    {
      var name := Trim(nameText);
      var code := Trim(codeText);
      var parentStr := Trim(parentText);
      if name == [] || code == [] {
        return EmptyRequired, None;
      }
      parentId := None;
      if parentStr != [] {
        var pid := ParseInt(parentStr);
        if pid.None? {
          return ParentNotNumeric, None;
        }
        if !HasDict(dicts, pid.value) {
          return ParentNotFound, None;
        }
        parentId := pid;
      }
      if parentId.Some? {
        assert Ends(dicts, parentId.value);
        var cyclic := IsCyclic(subject, parentId.value);
        if cyclic {
          return WouldCycle, None;
        }
      }
      o := Ok;
    }

    /** Adds a dictionary from the form (`BtnAddDict_Click`). */
    method AddDict(nameText: string, codeText: string, descText: string, parentText: string) returns (o: Outcome)
      requires Valid()
      modifies this, db
      ensures Valid()
      ensures o == DictVerdict(old(dicts), 0, nameText, codeText, parentText)
      ensures db.dictSeq == old(db.dictSeq) + (if o == Ok then 1 else 0) && db.itemSeq == old(db.itemSeq)
      ensures o == Ok ==>
        && db.dicts == old(db.dicts) + [EditedDict(old(db.dictSeq) + 1, nameText, codeText, descText, parentText)]
        && db.items == old(db.items) && items == []
      ensures o != Ok ==> unchanged(db) && dicts == old(dicts) && items == old(items)
    {
      var parentId;
      o, parentId := CheckDictForm(0, nameText, codeText, parentText);
      if o != Ok {
        return;
      }
      var name, code, desc := Trim(nameText), Trim(codeText), Trim(descText);
      var d := Dict(0, parentId, name, code, Some(desc));
      var newId := InsertDict(d);
      assert d.(dictId := newId) == EditedDict(old(db.dictSeq) + 1, nameText, codeText, descText, parentText);
      o := Ok;
    }

    /**
     * The write that ends `BtnAddDict_Click`: inserts the row under the next id and reloads.
     * A parent that exists in the snapshot keeps the hierarchy a forest.
     */
    method InsertDict(d: Dict) returns (newId: int)
      requires Valid()
      requires d.parentId.Some? ==> HasDict(dicts, d.parentId.value)
      modifies this, db
      ensures Valid()
      ensures newId == old(db.dictSeq) + 1 && db.dictSeq == newId && db.itemSeq == old(db.itemSeq)
      ensures db.dicts == old(db.dicts) + [d.(dictId := newId)]
      ensures db.items == old(db.items) && items == []
    {
      ghost var before := db.dicts;
      newId := db.CreateDict(d);
      CreateKeepsForest(before, d.(dictId := newId));
      OwnedAfterCreateDict(db.items, before, d.(dictId := newId));
      LoadDicts();
    }

    /** Updates the selected dictionary from the form (`BtnUpdateDict_Click`). */
    method UpdateDict(selected: Option<Dict>, nameText: string, codeText: string, descText: string, parentText: string)
      returns (o: Outcome)
      requires Valid()
      modifies this, db
      ensures Valid()
      ensures o == if selected.None? then NothingSelected
        else DictVerdict(old(dicts), selected.value.dictId, nameText, codeText, parentText)
      ensures db.dictSeq == old(db.dictSeq) && db.itemSeq == old(db.itemSeq)
      ensures o == Ok ==>
        && selected.Some?
        && db.dicts == OverwriteDict(old(db.dicts), EditedDict(selected.value.dictId, nameText, codeText, descText, parentText))
        && db.items == old(db.items) && items == []
      ensures o != Ok ==> unchanged(db) && dicts == old(dicts) && items == old(items)
    {
      if selected.None? {
        return NothingSelected;
      }
      var parentId;
      o, parentId := CheckDictForm(selected.value.dictId, nameText, codeText, parentText);
      if o != Ok {
        return;
      }
      var name, code, desc := Trim(nameText), Trim(codeText), Trim(descText);
      var d := selected.value.(name := name, code := code, description := Some(desc), parentId := parentId);
      assert d == EditedDict(selected.value.dictId, nameText, codeText, descText, parentText);
      AcceptedUpdateKeepsForest(dicts, selected.value.dictId, nameText, codeText, descText, parentText);
      OwnedAfterUpdateDict(db.items, db.dicts, d);
      db.UpdateDict(d);
      LoadDicts();
      o := Ok;
    }

    /**
     * Deletes the selected dictionary once confirmed (`BtnDeleteDict_Click`). The store
     * removes its items with it, and refuses while another dictionary names it as parent.
     */
    method DeleteDict(selected: Option<Dict>, confirmed: bool) returns (o: Outcome)
      requires Valid()
      modifies this, db
      ensures Valid()
      ensures selected.None? ==> o == NothingSelected
      ensures selected.Some? && !confirmed ==> o == Cancelled
      ensures selected.Some? && confirmed ==>
        o == if Referenced(old(db.dicts), selected.value.dictId) then StillReferenced else Ok
      ensures db.dictSeq == old(db.dictSeq) && db.itemSeq == old(db.itemSeq)
      ensures o == Ok ==>
        && selected.Some?
        && db.dicts == RemoveDict(old(db.dicts), selected.value.dictId)
        && db.items == (if HasDict(old(db.dicts), selected.value.dictId)
                        then ItemsNotOf(old(db.items), selected.value.dictId) else old(db.items))
        && items == []
      ensures o != Ok ==> unchanged(db) && dicts == old(dicts) && items == old(items)
    {
      if selected.None? {
        return NothingSelected;
      }
      if !confirmed {
        return Cancelled;
      }
      ReferencedExists(db.dicts, selected.value.dictId);
      ghost var before := db.dicts;
      OwnedAfterDeleteDict(db.items, db.dicts, selected.value.dictId);
      var ok := db.DeleteDict(selected.value.dictId);
      if !ok {
        return StillReferenced;
      }
      DeleteKeepsForest(before, selected.value.dictId);
      LoadDicts();
      o := Ok;
    }

    /** Adds an item to the selected dictionary (`BtnAddItem_Click`). */
    method AddItem(selected: Option<Dict>, codeText: string, nameText: string) returns (o: Outcome)
      requires Valid()
      requires selected.Some? ==> selected.value in dicts
      modifies this, db
      ensures Valid()
      ensures o == ItemVerdict(selected.Some?, codeText, nameText)
      ensures db.itemSeq == old(db.itemSeq) + (if o == Ok then 1 else 0) && db.dictSeq == old(db.dictSeq)
      ensures o == Ok ==>
        && selected.Some?
        && db.items == old(db.items) + [DictItem(old(db.itemSeq) + 1, selected.value.dictId, Trim(codeText), Trim(nameText))]
        && db.dicts == old(db.dicts)
        && items == ItemsOf(db.items, selected.value.dictId)
      ensures o != Ok ==> unchanged(db) && dicts == old(dicts) && items == old(items)
    {
      if selected.None? {
        return NothingSelected;
      }
      var code := Trim(codeText);
      var name := Trim(nameText);
      if code == [] || name == [] {
        return EmptyRequired;
      }
      var it := DictItem(0, selected.value.dictId, code, name);
      ghost var before := db.items;
      ghost var j :| 0 <= j < |dicts| && dicts[j] == selected.value;
      var id := db.CreateItem(it);
      OwnedAfterCreateItem(before, db.dicts, it.(itemId := id));
      assert it.(itemId := id) == DictItem(old(db.itemSeq) + 1, selected.value.dictId, Trim(codeText), Trim(nameText));
      LoadItemsForSelectedDict(selected);
      o := Ok;
    }

    /**
     * Updates the selected item's code and name (`BtnUpdateItem_Click`); its id and its
     * dictionary stay as they were.
     */
    method UpdateItem(selectedDict: Option<Dict>, selectedItem: Option<DictItem>, codeText: string, nameText: string)
      returns (o: Outcome)
      requires Valid()
      requires selectedItem.Some? ==> selectedItem.value in items
      modifies this, db
      ensures Valid()
      ensures o == ItemVerdict(selectedItem.Some?, codeText, nameText)
      ensures db.dictSeq == old(db.dictSeq) && db.itemSeq == old(db.itemSeq)
      ensures o == Ok ==>
        && selectedItem.Some?
        && db.items == OverwriteItem(old(db.items), selectedItem.value.(code := Trim(codeText), name := Trim(nameText)))
        && db.dicts == old(db.dicts)
        && items == (if selectedDict.Some? then ItemsOf(db.items, selectedDict.value.dictId) else [])
      ensures o == Ok ==> forall i :: 0 <= i < |db.items| ==>
        db.items[i].itemId == old(db.items)[i].itemId && db.items[i].dictId == old(db.items)[i].dictId
      ensures o != Ok ==> unchanged(db) && dicts == old(dicts) && items == old(items)
    {
      if selectedItem.None? {
        return NothingSelected;
      }
      var code := Trim(codeText);
      var name := Trim(nameText);
      if code == [] || name == [] {
        return EmptyRequired;
      }
      var it := selectedItem.value.(code := code, name := name);
      ghost var before := db.items;
      ghost var k :| 0 <= k < |before| && before[k] == selectedItem.value;
      OwnedAfterUpdateItem(before, db.dicts, it);
      db.UpdateItem(it);
      assert db.items == OverwriteItem(old(db.items), selectedItem.value.(code := Trim(codeText), name := Trim(nameText)));
      OverwriteItemKeepsOwner(before, selectedItem.value, it);
      LoadItemsForSelectedDict(selectedDict);
      o := Ok;
    }

    /** Deletes the selected item once confirmed (`BtnDeleteItem_Click`). */
    method DeleteItem(selectedDict: Option<Dict>, selectedItem: Option<DictItem>, confirmed: bool)
      returns (o: Outcome)
      requires Valid()
      modifies this, db
      ensures Valid()
      ensures selectedItem.None? ==> o == NothingSelected
      ensures selectedItem.Some? ==> o == if confirmed then Ok else Cancelled
      ensures db.dictSeq == old(db.dictSeq) && db.itemSeq == old(db.itemSeq)
      ensures o == Ok ==>
        && selectedItem.Some?
        && db.items == RemoveItem(old(db.items), selectedItem.value.itemId)
        && db.dicts == old(db.dicts)
        && items == (if selectedDict.Some? then ItemsOf(db.items, selectedDict.value.dictId) else [])
      ensures o != Ok ==> unchanged(db) && dicts == old(dicts) && items == old(items)
    {
      if selectedItem.None? {
        return NothingSelected;
      }
      if !confirmed {
        return Cancelled;
      }
      OwnedAfterDeleteItem(db.items, db.dicts, selectedItem.value.itemId);
      db.DeleteItem(selectedItem.value.itemId);
      LoadItemsForSelectedDict(selectedDict);
      o := Ok;
    }
  }
}
