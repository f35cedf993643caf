/**
 * The parent hierarchy of a snapshot of DICT rows, seen as the walk that `IsCyclic`
 * (MainWindow.xaml.cs) performs: from an id to the parent of the first row with that id,
 * ending when a row has no parent or an id has no row.
 */
module Hierarchy {
  import opened Models
  import opened Tables

  /** The parent the walk moves to from `id`; `None` for a root or an id without a row. */
  function ParentOf(s: seq<Dict>, id: int): Option<int> {
    match FindDict(s, id)
    case None => None
    case Some(d) => d.parentId
  }

  /** One step of the walk. */
  function Next(s: seq<Dict>, cur: Option<int>): Option<int> {
    match cur
    case None => None
    case Some(c) => ParentOf(s, c)
  }

  /** Where the walk from `start` is after `k` steps. */
  function Walk(s: seq<Dict>, start: Option<int>, k: nat): Option<int> {
    if k == 0 then start else Next(s, Walk(s, start, k - 1))
  }

  /** `id` is on the parent chain that starts at `p`, `p` included. */
  ghost predicate OnChain(s: seq<Dict>, id: int, p: int) {
    exists k: nat :: Walk(s, Some(p), k) == Some(id)
  }

  /** The parent chain starting at `p` is finite. */
  ghost predicate Ends(s: seq<Dict>, p: int) {
    exists k: nat :: Walk(s, Some(p), k) == None
  }

  /** Every parent chain is finite. */
  ghost predicate Acyclic(s: seq<Dict>) {
    forall id :: Ends(s, id)
  }

  /** Every parent reference names a dictionary of the snapshot. */
  ghost predicate ParentsExist(s: seq<Dict>) {
    forall i :: 0 <= i < |s| && s[i].parentId.Some? ==> HasDict(s, s[i].parentId.value)
  }

  /** The hierarchy is a forest: finite chains and no dangling parent reference. */
  ghost predicate Forest(s: seq<Dict>) {
    Acyclic(s) && ParentsExist(s)
  }

  /** Once the walk has ended it stays ended: a walk that is still going was going before. */
  lemma {:induction false} WalkSomeBefore(s: seq<Dict>, start: Option<int>, i: nat, j: nat)
    requires i <= j && Walk(s, start, j) != None
    ensures Walk(s, start, i) != None
  {
    if i < j {
      WalkSomeBefore(s, start, i, j - 1);
    }
  }

  /** A walk that has ended stays ended. */
  lemma {:induction false} WalkNoneStays(s: seq<Dict>, start: Option<int>, i: nat, j: nat)
    requires i <= j && Walk(s, start, i) == None
    ensures Walk(s, start, j) == None
  {
    if i < j {
      WalkNoneStays(s, start, i, j - 1);
    }
  }

  lemma {:induction false} WalkCompose(s: seq<Dict>, start: Option<int>, a: nat, b: nat)
    ensures Walk(s, start, a + b) == Walk(s, Walk(s, start, a), b)
  {
    if b > 0 {
      WalkCompose(s, start, a, b - 1);
    }
  }

  /** A walk that returns to its start goes around forever. */
  lemma {:induction false} LoopNeverEnds(s: seq<Dict>, x: int, k: nat, n: nat)
    requires k >= 1 && Walk(s, Some(x), k) == Some(x)
    ensures Walk(s, Some(x), n) != None
    decreases n
  {
    if n < k {
      WalkSomeBefore(s, Some(x), n, k);
    } else {
      WalkCompose(s, Some(x), k, n - k);
      LoopNeverEnds(s, x, k, n - k);
    }
  }

  /** In an acyclic snapshot no dictionary is its own proper ancestor. */
  lemma NoSelfAncestor(s: seq<Dict>, x: int, k: nat)
    requires Acyclic(s) && k >= 1
    ensures Walk(s, Some(x), k) != Some(x)
  {
    assert Ends(s, x);
    var end: nat :| Walk(s, Some(x), end) == None;
    if Walk(s, Some(x), k) == Some(x) {
      LoopNeverEnds(s, x, k, end);
    }
  }

  /** `IsCyclic` compares the start itself first, so a dictionary is always on its own chain. */
  lemma SelfOnChain(s: seq<Dict>, x: int)
    ensures OnChain(s, x, x)
  {
    assert Walk(s, Some(x), 0) == Some(x);
  }

  /** A walk that reaches an id without a row stops there. */
  lemma StopsAtMissing(s: seq<Dict>, id: int, p: int)
    requires !HasDict(s, p) && p != id
    ensures !OnChain(s, id, p)
  {
    forall k: nat ensures Walk(s, Some(p), k) != Some(id) {
      if k >= 1 {
        WalkNoneStays(s, Some(p), 1, k);
      }
    }
  }

  /** The first time the walk meets `x`, or `bound` if it does not meet it earlier. */
  lemma {:induction false} FirstHit(s: seq<Dict>, start: Option<int>, x: int, bound: nat) returns (j: nat)
    ensures j <= bound
    ensures forall i :: 0 <= i < j ==> Walk(s, start, i) != Some(x)
    ensures j < bound ==> Walk(s, start, j) == Some(x)
  {
    if bound == 0 {
      j := 0;
    } else {
      j := FirstHit(s, start, x, bound - 1);
      if j == bound - 1 && Walk(s, start, j) != Some(x) {
        j := bound;
      }
    }
  }

  /** Two snapshots with the same parents away from `x` walk alike until the walk meets `x`. */
  lemma {:induction false} WalkAgree(s: seq<Dict>, t: seq<Dict>, x: int, start: Option<int>, n: nat)
    requires forall v :: v != x ==> ParentOf(t, v) == ParentOf(s, v)
    requires forall j :: 0 <= j < n ==> Walk(s, start, j) != Some(x)
    ensures Walk(t, start, n) == Walk(s, start, n)
  {
    if n > 0 {
      WalkAgree(s, t, x, start, n - 1);
    }
  }

  /**
   * Changing the parent of one dictionary `x` keeps every chain finite, provided the new
   * chain from `x` is finite.
   */
  lemma AcyclicAfterChange(s: seq<Dict>, t: seq<Dict>, x: int)
    requires Acyclic(s)
    requires forall v :: v != x ==> ParentOf(t, v) == ParentOf(s, v)
    requires Ends(t, x)
    ensures Acyclic(t)
  {
    var endX: nat :| Walk(t, Some(x), endX) == None;
    forall c ensures Ends(t, c) {
      assert Ends(s, c);
      var end: nat :| Walk(s, Some(c), end) == None;
      var j := FirstHit(s, Some(c), x, end);
      WalkAgree(s, t, x, Some(c), j);
      if j == end {
        assert Walk(t, Some(c), end) == None;
      } else {
        WalkCompose(t, Some(c), j, endX);
        assert Walk(t, Some(c), j + endX) == None;
      }
    }
  }

  /** In a snapshot without dangling references, every step of a walk lands on a stored row. */
  lemma WalkInside(s: seq<Dict>, start: Option<int>, k: nat)
    requires ParentsExist(s) && k >= 1
    ensures Walk(s, start, k).Some? ==> HasDict(s, Walk(s, start, k).value)
  {
    var prev := Walk(s, start, k - 1);
    if prev.Some? {
      var f := FindDict(s, prev.value);
      if f.Some? {
        var i :| 0 <= i < |s| && s[i] == f.value;
        assert s[i].parentId == ParentOf(s, prev.value);
      }
    }
  }

  /** The walk from `p` agrees in `s` and `t` when `x` has no row in `s` and `p` has one. */
  lemma EndsWhenOutside(s: seq<Dict>, t: seq<Dict>, x: int, p: int)
    requires Forest(s) && !HasDict(s, x) && HasDict(s, p)
    requires forall v :: v != x ==> ParentOf(t, v) == ParentOf(s, v)
    ensures Ends(t, p)
  {
    assert Ends(s, p);
    var end: nat :| Walk(s, Some(p), end) == None;
    forall j | 0 <= j < end ensures Walk(s, Some(p), j) != Some(x) {
      if j >= 1 {
        WalkInside(s, Some(p), j);
      }
    }
    WalkAgree(s, t, x, Some(p), end);
  }

  /** An overwrite keeps the set of ids and changes no parent but the overwritten one's. */
  lemma OverwriteKeepsOthers(s: seq<Dict>, d: Dict)
    requires HasDict(s, d.dictId)
    ensures forall v :: HasDict(OverwriteDict(s, d), v) == HasDict(s, v)
    ensures forall v :: v != d.dictId ==> ParentOf(OverwriteDict(s, d), v) == ParentOf(s, v)
    ensures Walk(OverwriteDict(s, d), Some(d.dictId), 1) == d.parentId
  {
    var t := OverwriteDict(s, d);
    forall v ensures HasDict(t, v) == HasDict(s, v) {
      if HasDict(s, v) {
        var i :| 0 <= i < |s| && s[i].dictId == v;
        assert t[i].dictId == v;
      }
      if HasDict(t, v) {
        var i :| 0 <= i < |t| && t[i].dictId == v;
        assert s[i].dictId == v;
      }
    }
    forall v | v != d.dictId ensures ParentOf(t, v) == ParentOf(s, v) {
      FindDictOverwrite(s, d, v);
    }
    FindDictOverwrite(s, d, d.dictId);
  }

  /** After re-parenting `x` under a parent whose chain avoids `x`, the walk from `x` ends. */
  lemma ReparentEnds(s: seq<Dict>, t: seq<Dict>, x: int, p: int)
    requires Acyclic(s) && !OnChain(s, x, p)
    requires forall v :: v != x ==> ParentOf(t, v) == ParentOf(s, v)
    requires Walk(t, Some(x), 1) == Some(p)
    ensures Ends(t, x)
  {
    assert Ends(s, p);
    var end: nat :| Walk(s, Some(p), end) == None;
    WalkAgree(s, t, x, Some(p), end);
    WalkCompose(t, Some(x), 1, end);
    assert Walk(t, Some(x), 1 + end) == None;
  }

  /**
   * Re-parenting an existing dictionary keeps the forest when the new parent exists and
   * the dictionary is not on the new parent's chain (MainWindow.xaml.cs, the update path).
   */
  lemma UpdateKeepsForest(s: seq<Dict>, d: Dict)
    requires Forest(s)
    requires d.parentId.Some? ==> HasDict(s, d.parentId.value) && !OnChain(s, d.dictId, d.parentId.value)
    ensures Forest(OverwriteDict(s, d))
  {
    var t := OverwriteDict(s, d);
    var x := d.dictId;
    if HasDict(s, x) {
      OverwriteKeepsOthers(s, d);
      if d.parentId.Some? {
        ReparentEnds(s, t, x, d.parentId.value);
      } else {
        assert Walk(t, Some(x), 1) == None;
      }
      AcyclicAfterChange(s, t, x);
      forall i | 0 <= i < |t| && t[i].parentId.Some? ensures HasDict(t, t[i].parentId.value) {
        if s[i].dictId != x {
          assert t[i] == s[i];
        }
      }
    }
  }

  /**
   * Adding a row with a fresh id and an existing (or no) parent keeps the forest
   * (MainWindow.xaml.cs, the create path).
   */
  lemma CreateKeepsForest(s: seq<Dict>, d: Dict)
    requires Forest(s) && !HasDict(s, d.dictId)
    requires d.parentId.Some? ==> HasDict(s, d.parentId.value)
    ensures Forest(s + [d])
  {
    var t := s + [d];
    var x := d.dictId;
    forall v | v != x ensures ParentOf(t, v) == ParentOf(s, v) {
      FindDictSnoc(s, d, v);
    }
    FindDictSnoc(s, d, x);
    assert Walk(t, Some(x), 1) == d.parentId;
    if d.parentId.Some? {
      var p := d.parentId.value;
      EndsWhenOutside(s, t, x, p);
      var end: nat :| Walk(t, Some(p), end) == None;
      WalkCompose(t, Some(x), 1, end);
      assert Walk(t, Some(x), 1 + end) == None;
    }
    AcyclicAfterChange(s, t, x);
    forall i | 0 <= i < |t| && t[i].parentId.Some? ensures HasDict(t, t[i].parentId.value) {
      if i < |s| {
        var k :| 0 <= k < |s| && s[k].dictId == s[i].parentId.value;
        assert t[k] == s[k];
      } else {
        var k :| 0 <= k < |s| && s[k].dictId == d.parentId.value;
        assert t[k] == s[k];
      }
    }
  }

  /**
   * Deleting a dictionary that no other dictionary names as parent keeps the forest
   * (Data/Database.cs, the delete that the PARENT_ID foreign key lets through).
   */
  lemma DeleteKeepsForest(s: seq<Dict>, x: int)
    requires Forest(s) && !Referenced(s, x)
    ensures Forest(RemoveDict(s, x))
  {
    var t := RemoveDict(s, x);
    forall v | v != x ensures ParentOf(t, v) == ParentOf(s, v) {
      FindDictRemove(s, x, v);
    }
    assert Walk(t, Some(x), 1) == None;
    AcyclicAfterChange(s, t, x);
    forall r | r in t && r.parentId.Some? ensures HasDict(t, r.parentId.value) {
      var i :| 0 <= i < |s| && s[i] == r;
      var p := r.parentId.value;
      var k :| 0 <= k < |s| && s[k].dictId == p;
      assert p != x;
      assert s[k] in t;
      var m :| 0 <= m < |t| && t[m] == s[k];
    }
  }

  /** A dictionary that another one names as parent has a row (no dangling references). */
  lemma ReferencedExists(s: seq<Dict>, x: int)
    requires ParentsExist(s)
    ensures Referenced(s, x) ==> HasDict(s, x)
  {
    if Referenced(s, x) {
      var i :| 0 <= i < |s| && s[i].dictId != x && s[i].parentId == Some(x);
    }
  }

  /**
   * With positive ids and no dangling references, the sentinel subject 0 that the create
   * path passes to `IsCyclic` is on no chain that starts at an existing dictionary.
   */
  lemma SentinelNeverOnChain(s: seq<Dict>, p: int)
    requires ParentsExist(s) && HasDict(s, p)
    requires forall i :: 0 <= i < |s| ==> s[i].dictId > 0
    ensures !OnChain(s, 0, p)
  {
    forall k: nat ensures Walk(s, Some(p), k) != Some(0) {
      if k >= 1 {
        WalkInside(s, Some(p), k);
      }
    }
  }
}
