/** What a restore guarantees about the tree it rearranges. */
module RestoreFacts {
  import opened Menus
  import opened OrderCodec
  import opened OrderRestorer

  /** `b` holds the same ids as `a`, and every collection, with the ids of `ds` taken out,
      reads as before: only members of `ds` have moved. */
  predicate Rearranged(a: Arena, b: Arena, ds: set<Id>)
  {
    && |b.kids| == |a.kids|
    && Entries(b) == Entries(a)
    && forall q | 0 <= q < |a.kids| :: Without(b.kids[q], ds) == Without(a.kids[q], ds)
  }

  lemma RearrangedTrans(a: Arena, b: Arena, c: Arena, ds: set<Id>)
    requires Rearranged(a, b, ds) && Rearranged(b, c, ds)
    ensures Rearranged(a, c, ds)
  {
  }

  /** The placing loop moves only the items it places, and loses none. */
  lemma {:induction false} PlaceRearranges(a: Arena, menu: Id, desired: seq<Id>, i: nat, ds: set<Id>)
    requires Valid(a) && menu < |a.items| && i <= |desired|
    requires forall d | d in desired :: d < |a.items|
    requires forall d | d in desired :: d in ds
    ensures Rearranged(a, Place(a, menu, desired, i).arena, ds)
    decreases |desired| - i
  {
    if i < |desired| {
      var item := desired[i];
      assert item in desired;
      match Locate(a, a.root, item, Enterable(a))
      case None =>
      case Some(loc) =>
        if loc.parent == menu && loc.index == i {
          PlaceRearranges(a, menu, desired, i + 1, ds);
        } else {
          var b := Relocate(a, loc, menu, i, item);
          RelocateConserves(a, loc, menu, i, item);
          RelocateKeepsOthersInOrder(a, loc, menu, i, item, ds);
          PlaceRearranges(b, menu, desired, i + 1, ds);
        }
    }
  }

  lemma {:induction false} ScanRearranges(a: Arena, m: map<string, Id>, menu: Id, entries: seq<Entry>,
                                          level: int, index: nat, desired: seq<Id>, ds: set<Id>)
    requires Valid(a) && MapInto(m, |a.items|) && menu < |a.items| && index <= |entries|
    requires forall d | d in desired :: d < |a.items|
    requires forall d | d in desired :: d in ds
    requires forall k | k in m :: m[k] in ds
    ensures Rearranged(a, Scan(a, m, menu, entries, level, index, desired).arena, ds)
    decreases |entries|, 1, 2 * (|entries| - index) + 1, 0
  {
    if index == |entries| {
      PlaceRearranges(a, menu, desired, 0, ds);
    } else {
      match entries[index]
      case Malformed =>
        ScanRearranges(a, m, menu, entries, level, index + 1, desired, ds);
      case BadLevel =>
      case Token(l, identifier) =>
        if l < level {
          PlaceRearranges(a, menu, desired, 0, ds);
        } else if l == level && identifier in m {
          AdmitRearranges(a, m, menu, entries, level, index, desired, m[identifier], ds);
        } else {
          ScanRearranges(a, m, menu, entries, level, index + 1, desired, ds);
        }
    }
  }

  lemma {:induction false} AdmitRearranges(a: Arena, m: map<string, Id>, menu: Id, entries: seq<Entry>,
                                           level: int, index: nat, desired: seq<Id>, item: Id, ds: set<Id>)
    requires Valid(a) && MapInto(m, |a.items|) && menu < |a.items| && index < |entries|
    requires forall d | d in desired :: d < |a.items|
    requires forall d | d in desired :: d in ds
    requires forall k | k in m :: m[k] in ds
    requires item < |a.items| && item in ds
    ensures Rearranged(a, Admit(a, m, menu, entries, level, index, desired, item).arena, ds)
    decreases |entries|, 1, 2 * (|entries| - index), 1
  {
    var more := desired + [item];
    assert forall d | d in more :: d in desired || d == item;
    if Descends(a, item) {
      match ChildSlice(entries, index + 1, level)
      case SliceFault =>
      case Sliced(children, next) =>
        if |children| > 0 {
          AdmitDropDownRearranges(a, m, menu, entries, level, index, desired, item, ds);
        } else {
          ScanRearranges(a, m, menu, entries, level, next, more, ds);
        }
    } else {
      ScanRearranges(a, m, menu, entries, level, index + 1, more, ds);
    }
  }

  /** Accepting a drop-down whose child slice is non-empty: its children are reconciled
      under it, then the scan goes on past the slice. */
  lemma {:induction false} AdmitDropDownRearranges(a: Arena, m: map<string, Id>, menu: Id, entries: seq<Entry>,
                                                   level: int, index: nat, desired: seq<Id>, item: Id, ds: set<Id>)
    requires Valid(a) && MapInto(m, |a.items|) && menu < |a.items| && index < |entries|
    requires forall d | d in desired :: d < |a.items|
    requires forall d | d in desired + [item] :: d in ds
    requires forall k | k in m :: m[k] in ds
    requires item < |a.items| && Descends(a, item)
    requires ChildSlice(entries, index + 1, level).Sliced? && |ChildSlice(entries, index + 1, level).children| > 0
    ensures Rearranged(a, Admit(a, m, menu, entries, level, index, desired, item).arena, ds)
    decreases |entries|, 1, 2 * (|entries| - index), 0
  {
    var children, next := ChildSlice(entries, index + 1, level).children, ChildSlice(entries, index + 1, level).next;
    var r := Reconcile(a, m, item, children, level + 1);
    ReconcileRearranges(a, m, item, children, level + 1, ds);
    if !r.faulted {
      var after := Scan(r.arena, m, menu, entries, level, next, desired + [item]);
      assert Admit(a, m, menu, entries, level, index, desired, item) == after;
      ScanRearranges(r.arena, m, menu, entries, level, next, desired + [item], ds);
      RearrangedTrans(a, r.arena, after.arena, ds);
    }
  }

  lemma {:induction false} ReconcileRearranges(a: Arena, m: map<string, Id>, menu: Id, entries: seq<Entry>,
                                               level: int, ds: set<Id>)
    requires Valid(a) && MapInto(m, |a.items|) && menu < |a.items|
    requires forall k | k in m :: m[k] in ds
    ensures Rearranged(a, Reconcile(a, m, menu, entries, level).arena, ds)
    decreases |entries|, 2, 0, 0
  {
    ScanRearranges(a, m, menu, entries, level, 0, [], ds);
  }

  /** A restore neither loses nor duplicates an item, and only items an identifier names move:
      all others keep their container and their relative order. */
  lemma RestoreRearranges(a: Arena, menuOrder: string, ds: set<Id>)
    requires Valid(a)
    requires forall k | k in MenuItemMap(a) :: MenuItemMap(a)[k] in ds
    ensures Rearranged(a, Restore(a, menuOrder).arena, ds)
  {
    if menuOrder != "" {
      ReconcileRearranges(a, MenuItemMap(a), a.root, Classified(Fragments(menuOrder)), 0, ds);
    }
  }

  /** After a placing loop that does not fault, `menu` starts with the placed items, in
      order, provided they are pairwise distinct. */
  lemma {:induction false} PlacePrefix(a: Arena, menu: Id, desired: seq<Id>, i: nat)
    requires Valid(a) && menu < |a.items| && i <= |desired|
    requires forall d | d in desired :: d < |a.items|
    requires Distinct(desired)
    requires i <= |a.kids[menu]| && a.kids[menu][..i] == desired[..i]
    ensures var r := Place(a, menu, desired, i);
      !r.faulted ==> |desired| <= |r.arena.kids[menu]| && r.arena.kids[menu][..|desired|] == desired
    decreases |desired| - i
  {
    if i == |desired| {
      assert desired[..i] == desired;
    } else {
      var item := desired[i];
      match Locate(a, a.root, item, Enterable(a))
      case None =>
      case Some(loc) =>
        if loc.parent == menu && loc.index == i {
          assert desired[..i + 1] == desired[..i] + [item];
          assert a.kids[menu][..i + 1] == a.kids[menu][..i] + [item];
          PlacePrefix(a, menu, desired, i + 1);
        } else {
          RelocatePrefix(a, loc, menu, desired, i);
          PlacePrefix(Relocate(a, loc, menu, i, item), menu, desired, i + 1);
        }
    }
  }

  /** Moving `desired[i]` from elsewhere to index `i` of `menu` extends the placed prefix. */
  lemma RelocatePrefix(a: Arena, loc: Location, menu: Id, desired: seq<Id>, i: nat)
    requires Valid(a) && menu < |a.items| && i < |desired|
    requires forall d | d in desired :: d < |a.items|
    requires Distinct(desired)
    requires i <= |a.kids[menu]| && a.kids[menu][..i] == desired[..i]
    requires loc.parent < |a.kids| && loc.index < |a.kids[loc.parent]|
    requires a.kids[loc.parent][loc.index] == desired[i] && loc != Location(menu, i)
    ensures var b := Relocate(a, loc, menu, i, desired[i]);
      i + 1 <= |b.kids[menu]| && b.kids[menu][..i + 1] == desired[..i + 1]
  {
    var item := desired[i];
    assert item in desired;
    DistinctPairwise(desired);
    assert desired[..i + 1] == desired[..i] + [item];
    var p := loc.parent;
    var removed := RemoveAt(a.kids[p], loc.index);
    var detached := a.kids[p := removed];
    if p == menu {
      assert i <= loc.index;
      assert removed[..i] == a.kids[menu][..i];
    }
    assert i <= |detached[menu]| && detached[menu][..i] == desired[..i];
    var b := Relocate(a, loc, menu, i, item);
    var placed := InsertOrAdd(detached[menu], i, item);
    assert b.kids[menu] == placed;
    assert placed[..i + 1] == placed[..i] + [item];
  }

  /** The fast path: when every item is already found at its own index, nothing moves. */
  lemma {:induction false} PlaceInPlace(a: Arena, menu: Id, desired: seq<Id>, i: nat)
    requires Valid(a) && menu < |a.items| && i <= |desired|
    requires forall d | d in desired :: d < |a.items|
    requires forall j | i <= j < |desired| :: Locate(a, a.root, desired[j], Enterable(a)) == Some(Location(menu, j))
    ensures Place(a, menu, desired, i) == Run(a, false)
    decreases |desired| - i
  {
    if i < |desired| {
      PlaceInPlace(a, menu, desired, i + 1);
    }
  }

  /** `FindItemLocation` from the root finds exactly the items the pre-order walk meets. */
  lemma LocateIffVisited(a: Arena, x: Id)
    requires Valid(a)
    ensures Locate(a, a.root, x, Enterable(a)).Some? <==> exists v :: v in PreOrder(a) && v.item == x
  {
    if Locate(a, a.root, x, Enterable(a)).Some? {
      LocateFindsVisitedSlot(a, a.root, x, 0, Enterable(a));
      var loc := Locate(a, a.root, x, Enterable(a)).value;
      if Visit(x, 0, loc.parent, loc.index) in PreOrder(a) {
        assert Visit(x, 0, loc.parent, loc.index).item == x;
      }
    }
    if exists v :: v in PreOrder(a) && v.item == x {
      LocateFindsVisited(a, a.root, x, 0, Enterable(a));
    }
  }

  // ----- malformed fragments are ignored wherever they occur -----

  /** Where entry `k` of `rest` stands once a fragment is inserted at index `at`. */
  function Up(at: nat, k: nat): nat
  {
    if k < at then k else k + 1
  }

  /** `whole` is `rest` with one malformed entry inserted at index `at`. */
  predicate InsertedMalformed(whole: seq<Entry>, rest: seq<Entry>, at: nat)
  {
    && |whole| == |rest| + 1 && at <= |rest|
    && whole[at] == Malformed
    && forall k | 0 <= k < |rest| :: whole[Up(at, k)] == rest[k]
  }

  /** Cursor `j` into `whole` stands for cursor `i` into `rest`: the inserted fragment's own
      index stands for the cursor just past it as well. */
  predicate Corresponds(at: nat, i: nat, j: nat)
  {
    j == Up(at, i) || (i == at && j == at)
  }

  /** A slice of `rest` as read in `whole`: the same children, resuming past the insertion. */
  function Shifted(r: Slice, at: nat): Slice
  {
    match r
    case SliceFault => SliceFault
    case Sliced(cs, n) => Sliced(cs, if n < at then n else n + 1)
  }

  lemma {:induction false} ChildSliceIgnoresMalformed(whole: seq<Entry>, rest: seq<Entry>, at: nat,
                                                      level: int, i: nat, j: nat)
    requires InsertedMalformed(whole, rest, at)
    requires i <= |rest| && Corresponds(at, i, j)
    ensures j <= |whole|
    ensures ChildSlice(whole, j, level) == Shifted(ChildSlice(rest, i, level), at)
    decreases |rest| - i, if i == at && j == at then 1 else 0
  {
    if i == at && j == at {
      ChildSliceIgnoresMalformed(whole, rest, at, level, i, j + 1);
      assert ChildSlice(whole, j, level) == ChildSlice(whole, j + 1, level);
    } else if i == |rest| {
      assert j == |whole|;
    } else {
      match rest[i]
      case Malformed =>
        ChildSliceIgnoresMalformed(whole, rest, at, level, i + 1, j + 1);
        assert ChildSlice(rest, i, level) == ChildSlice(rest, i + 1, level);
        assert ChildSlice(whole, j, level) == ChildSlice(whole, j + 1, level);
      case BadLevel =>
        assert ChildSlice(rest, i, level) == SliceFault;
        assert ChildSlice(whole, j, level) == SliceFault;
      case Token(l, _) =>
        if l > level {
          ChildSliceIgnoresMalformed(whole, rest, at, level, i + 1, j + 1);
          var tail := ChildSlice(rest, i + 1, level);
          assert ChildSlice(rest, i, level) == if tail.SliceFault? then tail else Sliced([rest[i]] + tail.children, tail.next);
          assert ChildSlice(whole, j, level) == if tail.SliceFault? then tail else Sliced([whole[j]] + tail.children, Shifted(tail, at).next);
        } else {
          assert ChildSlice(rest, i, level) == Sliced([], i);
          assert ChildSlice(whole, j, level) == Sliced([], j);
        }
    }
  }

  lemma {:induction false} ScanIgnoresMalformed(a: Arena, m: map<string, Id>, menu: Id,
                                                whole: seq<Entry>, rest: seq<Entry>, at: nat,
                                                level: int, i: nat, j: nat, desired: seq<Id>)
    requires Valid(a) && MapInto(m, |a.items|) && menu < |a.items|
    requires forall d | d in desired :: d < |a.items|
    requires InsertedMalformed(whole, rest, at)
    requires i <= |rest| && Corresponds(at, i, j)
    ensures j <= |whole|
    ensures Scan(a, m, menu, whole, level, j, desired) == Scan(a, m, menu, rest, level, i, desired)
    decreases |rest|, 3 * (|rest| - i) + (if i == at && j == at then 2 else 1), 0
  {
    if i == at && j == at {
      ScanIgnoresMalformed(a, m, menu, whole, rest, at, level, i, j + 1, desired);
    } else if i < |rest| {
      match rest[i]
      case Malformed =>
        ScanIgnoresMalformed(a, m, menu, whole, rest, at, level, i + 1, j + 1, desired);
      case BadLevel =>
      case Token(l, identifier) =>
        if l == level && identifier in m {
          AdmitIgnoresMalformed(a, m, menu, whole, rest, at, level, i, j, desired, m[identifier]);
        } else if l >= level {
          ScanIgnoresMalformed(a, m, menu, whole, rest, at, level, i + 1, j + 1, desired);
        }
    }
  }

  lemma {:induction false} AdmitIgnoresMalformed(a: Arena, m: map<string, Id>, menu: Id,
                                                 whole: seq<Entry>, rest: seq<Entry>, at: nat,
                                                 level: int, i: nat, j: nat, desired: seq<Id>, item: Id)
    requires Valid(a) && MapInto(m, |a.items|) && menu < |a.items|
    requires forall d | d in desired :: d < |a.items|
    requires item < |a.items|
    requires InsertedMalformed(whole, rest, at)
    requires i < |rest| && Corresponds(at, i, j) && !(i == at && j == at)
    ensures j < |whole|
    ensures Admit(a, m, menu, whole, level, j, desired, item) == Admit(a, m, menu, rest, level, i, desired, item)
    decreases |rest|, 3 * (|rest| - i), 2
  {
    if Descends(a, item) {
      AdmitDropDownIgnoresMalformed(a, m, menu, whole, rest, at, level, i, j, desired, item);
    } else {
      var more := desired + [item];
      assert forall d | d in more :: d in desired || d == item;
      assert Corresponds(at, i + 1, j + 1);
      AdmitLeaf(a, m, menu, whole, level, j, desired, item);
      AdmitLeaf(a, m, menu, rest, level, i, desired, item);
      ScanIgnoresMalformed(a, m, menu, whole, rest, at, level, i + 1, j + 1, more);
    }
  }

  lemma {:induction false} AdmitDropDownIgnoresMalformed(a: Arena, m: map<string, Id>, menu: Id,
                                                         whole: seq<Entry>, rest: seq<Entry>, at: nat,
                                                         level: int, i: nat, j: nat, desired: seq<Id>, item: Id)
    requires Valid(a) && MapInto(m, |a.items|) && menu < |a.items|
    requires forall d | d in desired :: d < |a.items|
    requires item < |a.items| && Descends(a, item)
    requires InsertedMalformed(whole, rest, at)
    requires i < |rest| && Corresponds(at, i, j) && !(i == at && j == at)
    ensures j < |whole|
    ensures Admit(a, m, menu, whole, level, j, desired, item) == Admit(a, m, menu, rest, level, i, desired, item)
    decreases |rest|, 3 * (|rest| - i), 1
  {
    assert Corresponds(at, i + 1, j + 1);
    ChildSliceIgnoresMalformed(whole, rest, at, level, i + 1, j + 1);
    match ChildSlice(rest, i + 1, level)
    case SliceFault =>
      AdmitSliceFault(a, m, menu, whole, level, j, desired, item);
      AdmitSliceFault(a, m, menu, rest, level, i, desired, item);
    case Sliced(children, next) =>
      AdmitSlicedIgnoresMalformed(a, m, menu, whole, rest, at, level, i, j, desired, item, children, next);
  }

  /** The same, once the child slice is read: the same children, resuming one entry later
      in `whole` when the slice ends past the inserted fragment. */
  lemma {:induction false} AdmitSlicedIgnoresMalformed(a: Arena, m: map<string, Id>, menu: Id,
                                                       whole: seq<Entry>, rest: seq<Entry>, at: nat,
                                                       level: int, i: nat, j: nat, desired: seq<Id>, item: Id,
                                                       children: seq<Entry>, next: nat)
    requires Valid(a) && MapInto(m, |a.items|) && menu < |a.items|
    requires forall d | d in desired :: d < |a.items|
    requires item < |a.items| && Descends(a, item)
    requires InsertedMalformed(whole, rest, at)
    requires i < |rest| && j < |whole| && Corresponds(at, i, j) && !(i == at && j == at)
    requires ChildSlice(rest, i + 1, level) == Sliced(children, next)
    requires ChildSlice(whole, j + 1, level) == Sliced(children, if next < at then next else next + 1)
    ensures Admit(a, m, menu, whole, level, j, desired, item) == Admit(a, m, menu, rest, level, i, desired, item)
    decreases |rest|, 3 * (|rest| - i), 0
  {
    var more := desired + [item];
    assert forall d | d in more :: d in desired || d == item;
    var next' := if next < at then next else next + 1;
    var r := Reconcile(a, m, item, children, level + 1);
    if |children| == 0 || !r.faulted {
      var b := if |children| > 0 then r.arena else a;
      AdmitDescends(a, m, menu, whole, level, j, desired, item, children, next', b);
      AdmitDescends(a, m, menu, rest, level, i, desired, item, children, next, b);
      ScanIgnoresMalformed(b, m, menu, whole, rest, at, level, next, next', more);
    } else {
      AdmitChildFault(a, m, menu, whole, level, j, desired, item, children, next');
      AdmitChildFault(a, m, menu, rest, level, i, desired, item, children, next);
    }
  }

  /** Accepting an item that is not a drop-down resumes the scan at the next entry. */
  lemma AdmitLeaf(a: Arena, m: map<string, Id>, menu: Id, entries: seq<Entry>, level: int,
                  index: nat, desired: seq<Id>, item: Id)
    requires Valid(a) && MapInto(m, |a.items|) && menu < |a.items| && index < |entries|
    requires forall d | d in desired :: d < |a.items|
    requires item < |a.items| && !Descends(a, item)
    ensures Admit(a, m, menu, entries, level, index, desired, item) == Scan(a, m, menu, entries, level, index + 1, desired + [item])
  {
  }

  /** Accepting a drop-down whose child slice holds an unparsable level faults there. */
  lemma AdmitSliceFault(a: Arena, m: map<string, Id>, menu: Id, entries: seq<Entry>, level: int,
                        index: nat, desired: seq<Id>, item: Id)
    requires Valid(a) && MapInto(m, |a.items|) && menu < |a.items| && index < |entries|
    requires forall d | d in desired :: d < |a.items|
    requires item < |a.items| && Descends(a, item)
    requires ChildSlice(entries, index + 1, level).SliceFault?
    ensures Admit(a, m, menu, entries, level, index, desired, item) == Run(a, true)
  {
  }

  /** Accepting a drop-down whose child slice faults while reconciled ends with that fault. */
  lemma AdmitChildFault(a: Arena, m: map<string, Id>, menu: Id, entries: seq<Entry>, level: int,
                        index: nat, desired: seq<Id>, item: Id, children: seq<Entry>, next: nat)
    requires Valid(a) && MapInto(m, |a.items|) && menu < |a.items| && index < |entries|
    requires forall d | d in desired :: d < |a.items|
    requires item < |a.items| && Descends(a, item)
    requires ChildSlice(entries, index + 1, level) == Sliced(children, next)
    requires |children| > 0 && Reconcile(a, m, item, children, level + 1).faulted
    ensures Admit(a, m, menu, entries, level, index, desired, item) == Reconcile(a, m, item, children, level + 1)
  {
  }

  /** Accepting a drop-down whose child slice reconciles without a fault resumes the scan
      past the slice, on the tree the slice left. */
  lemma AdmitDescends(a: Arena, m: map<string, Id>, menu: Id, entries: seq<Entry>, level: int,
                      index: nat, desired: seq<Id>, item: Id, children: seq<Entry>, next: nat, b: Arena)
    requires Valid(a) && MapInto(m, |a.items|) && menu < |a.items| && index < |entries|
    requires forall d | d in desired :: d < |a.items|
    requires item < |a.items| && Descends(a, item)
    requires ChildSlice(entries, index + 1, level) == Sliced(children, next)
    requires |children| == 0 || !Reconcile(a, m, item, children, level + 1).faulted
    requires b == if |children| > 0 then Reconcile(a, m, item, children, level + 1).arena else a
    ensures Valid(b) && SameItems(a, b) && next <= |entries|
    ensures Admit(a, m, menu, entries, level, index, desired, item) == Scan(b, m, menu, entries, level, next, desired + [item])
  {
  }

  /** A malformed entry has no effect, wherever it stands: in particular never on how the
      entries after it are nested. */
  lemma ReconcileIgnoresMalformed(a: Arena, m: map<string, Id>, menu: Id,
                                  before: seq<Entry>, after: seq<Entry>, level: int)
    requires Valid(a) && MapInto(m, |a.items|) && menu < |a.items|
    ensures Reconcile(a, m, menu, before + [Malformed] + after, level) == Reconcile(a, m, menu, before + after, level)
  {
    var whole, rest, at := before + [Malformed] + after, before + after, |before|;
    assert forall k | 0 <= k < |rest| :: whole[Up(at, k)] == rest[k];
    ScanIgnoresMalformed(a, m, menu, whole, rest, at, level, 0, 0, []);
  }

  /** The same for a saved fragment that does not split into exactly two parts. */
  lemma ReconcileIgnoresMalformedFragment(a: Arena, m: map<string, Id>, menu: Id,
                                          before: seq<string>, bad: string, after: seq<string>, level: int)
    requires Valid(a) && MapInto(m, |a.items|) && menu < |a.items|
    requires Classify(bad) == Malformed
    ensures Reconcile(a, m, menu, Classified(before + [bad] + after), level)
         == Reconcile(a, m, menu, Classified(before + after), level)
  {
    ClassifiedAppend(before + [bad], after);
    ClassifiedAppend(before, [bad]);
    ClassifiedAppend(before, after);
    assert Classified([bad]) == [Malformed];
    ReconcileIgnoresMalformed(a, m, menu, Classified(before), Classified(after), level);
  }
}
