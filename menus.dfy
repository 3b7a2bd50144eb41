/** The abstract menu tree shared by the order codec, the restorers and the editor.

    The host's item objects are an arena: an item is an `Id` (its index), its static
    attributes live in `items`, the ordered child collection of container `c` is
    `kids[c]`, and the mutable `Visible` flag of item `x` is `visible[x]`. The root
    menu (the host's main menu) is an id as well. */
module Menus {

  type Id = nat

  datatype Option<T> = None | Some(value: T)

  /** The attributes of one host menu item that the core reads. */
  datatype MenuItem = MenuItem(
    name: string,
    text: string,
    hasItems: bool,        // the item owns a child collection (`Items != null`)
    isDropDown: bool,      // the item is an `IMenu` whose `IsDropDown` holds
    isToolStripItem: bool) // its underlying object is a `ToolStripItem`, whose visibility can be set

  datatype Arena = Arena(items: seq<MenuItem>, kids: seq<seq<Id>>, visible: seq<bool>, root: Id)

  /** One item met by a pre-order walk: the item, its nesting depth, and the slot holding it. */
  datatype Visit = Visit(item: Id, level: nat, parent: Id, index: nat)

  /** A slot of the tree: the container and the index inside its child collection. */
  datatype Location = Location(parent: Id, index: nat)

  /** Every id stored anywhere refers to an item. */
  predicate Valid(a: Arena)
  {
    && |a.kids| == |a.items|
    && |a.visible| == |a.items|
    && a.root < |a.items|
    && forall c, k | 0 <= c < |a.kids| && 0 <= k < |a.kids[c]| :: a.kids[c][k] < |a.items|
  }

  /** Two arenas over the same items and root. */
  predicate SameItems(a: Arena, b: Arena)
  {
    a.items == b.items && a.root == b.root && |a.kids| == |b.kids| && |a.visible| == |b.visible|
  }

  /** The walk enters the children of a drop-down item only. */
  predicate Descends(a: Arena, x: Id)
    requires x < |a.items|
  {
    a.items[x].isDropDown
  }

  /** The ids a walk from the root may still enter: every item but the root. */
  function Enterable(a: Arena): (f: set<Id>)
    ensures forall x: int :: x in f <==> 0 <= x < |a.items| && x != a.root
  {
    Ids(|a.items|) - {a.root}
  }

  /** The ids below `n`. */
  function Ids(n: nat): (r: set<Id>)
    ensures forall x: int :: x in r <==> 0 <= x < n
  {
    if n == 0 then {} else Ids(n - 1) + {n - 1}
  }

  // ----- sequence primitives of the host collections -----

  /** `RemoveAt(k)` on a collection. */
  function RemoveAt<T>(s: seq<T>, k: nat): (r: seq<T>)
    requires k < |s|
    ensures |r| == |s| - 1
    ensures forall j | 0 <= j < k :: r[j] == s[j]
    ensures forall j | k <= j < |r| :: r[j] == s[j + 1]
  {
    seq(|s| - 1, j requires 0 <= j < |s| - 1 => if j < k then s[j] else s[j + 1])
  }

  /** `Insert(k, x)` when `0 <= k <= Count`, otherwise `Add(x)`. */
  function InsertOrAdd<T>(s: seq<T>, k: int, x: T): (r: seq<T>)
    ensures |r| == |s| + 1
    ensures 0 <= k <= |s| ==> r[k] == x
    ensures 0 <= k <= |s| ==> forall j | 0 <= j < k :: r[j] == s[j]
    ensures 0 <= k <= |s| ==> forall j | k < j < |r| :: r[j] == s[j - 1]
    ensures !(0 <= k <= |s|) ==> r == s + [x]
  {
    if 0 <= k <= |s| then seq(|s| + 1, j requires 0 <= j < |s| + 1 => if j < k then s[j] else if j == k then x else s[j - 1])
    else s + [x]
  }

  /** The first index holding `x`, if any. */
  function FirstIndex<T(==)>(s: seq<T>, x: T): (r: Option<nat>)
    ensures r.None? <==> x !in s
    ensures r.Some? ==> r.value < |s| && s[r.value] == x && x !in s[..r.value]
  {
    FirstIndexFrom(s, x, 0)
  }

  /** The first index from `i` on holding `x`, if any. */
  function FirstIndexFrom<T(==)>(s: seq<T>, x: T, i: nat): (r: Option<nat>)
    requires i <= |s| && x !in s[..i]
    ensures r.None? <==> x !in s
    ensures r.Some? ==> i <= r.value < |s| && s[r.value] == x && x !in s[..r.value]
    decreases |s| - i
  {
    if i == |s| then assert s[..i] == s; None
    else if s[i] == x then Some(i)
    else assert s[..i + 1] == s[..i] + [s[i]]; FirstIndexFrom(s, x, i + 1)
  }

  /** The list with every occurrence of the ids in `ds` dropped, others kept in order. */
  function Without(s: seq<Id>, ds: set<Id>): (r: seq<Id>)
  {
    if |s| == 0 then [] else (if s[0] in ds then [] else [s[0]]) + Without(s[1..], ds)
  }

  /** The last index before `i` holding `x`, -1 when there is none. */
  function LastIndexBefore(s: seq<Id>, x: Id, i: nat): int
    requires i <= |s|
  {
    if i == 0 then -1 else if s[i - 1] == x then i - 1 else LastIndexBefore(s, x, i - 1)
  }

  /** No id occurs twice: every index is the last one holding its id. */
  predicate Distinct(s: seq<Id>)
  {
    forall j | 0 <= j < |s| :: LastIndexBefore(s, s[j], |s|) == j
  }

  /** Ids at different indices of a distinct list differ. */
  lemma DistinctPairwise(s: seq<Id>)
    requires Distinct(s)
    ensures forall j, k | 0 <= j < k < |s| :: s[j] != s[k]
  {
  }

  /** A list whose ids differ pairwise is distinct. */
  lemma DistinctFromPairwise(s: seq<Id>)
    requires forall j, k | 0 <= j < k < |s| :: s[j] != s[k]
    ensures Distinct(s)
  {
    forall j | 0 <= j < |s|
      ensures LastIndexBefore(s, s[j], |s|) == j
    {
      LastIndexFound(s, j, |s|);
    }
  }

  lemma {:induction false} LastIndexFound(s: seq<Id>, j: nat, i: nat)
    requires forall j, k | 0 <= j < k < |s| :: s[j] != s[k]
    requires j < i <= |s|
    ensures LastIndexBefore(s, s[j], i) == j
    decreases i
  {
    if i - 1 != j {
      LastIndexFound(s, j, i - 1);
    }
  }

  /** All ids held in the child collections `kids[from..]`, as a multiset. */
  function Held(kids: seq<seq<Id>>): (m: multiset<Id>)
  {
    if |kids| == 0 then multiset{} else multiset(kids[0]) + Held(kids[1..])
  }

  /** All ids held in some child collection of the arena: items are conserved when this is. */
  function Entries(a: Arena): multiset<Id>
  {
    Held(a.kids)
  }

  // ----- a single move: detach from one slot, insert into a container -----

  /** Remove the item at `from` and insert `x` at index `k` of container `c` (appending when
      `k` is past the end), the remove-then-insert step both restorer and editor perform. */
  function Relocate(a: Arena, from: Location, c: Id, k: int, x: Id): (b: Arena)
    requires Valid(a) && c < |a.items| && x < |a.items|
    requires from.parent < |a.kids| && from.index < |a.kids[from.parent]|
    ensures Valid(b) && SameItems(a, b) && b.visible == a.visible
  {
    var detached := a.kids[from.parent := RemoveAt(a.kids[from.parent], from.index)];
    a.(kids := detached[c := InsertOrAdd(detached[c], k, x)])
  }

  // ----- the pre-order walk -----

  /** Pre-order visits of `kids[c][i..]` at depth `level`, descending through drop-downs that
      are still in `free`; this is the order in which the codec and the map builder meet items. */
  function Walk(a: Arena, c: Id, i: nat, level: nat, free: set<Id>): (vs: seq<Visit>)
    requires Valid(a) && c < |a.items|
    ensures forall v | v in vs :: v.item < |a.items| && v.parent < |a.items|
    decreases free, |a.kids[c]| - i
  {
    if i >= |a.kids[c]| then []
    else
      var x := a.kids[c][i];
      [Visit(x, level, c, i)]
      + (if Descends(a, x) && x in free then Walk(a, x, 0, level + 1, free - {x}) else [])
      + Walk(a, c, i + 1, level, free)
  }

  /** The whole tree in pre-order, root children at depth 0. */
  function PreOrder(a: Arena): (vs: seq<Visit>)
    requires Valid(a)
    ensures |vs| == 0 <==> |a.kids[a.root]| == 0
    ensures |vs| > 0 ==> vs[0] == Visit(a.kids[a.root][0], 0, a.root, 0)
  {
    Walk(a, a.root, 0, 0, Enterable(a))
  }

  /** The spec of `FindItemLocation`: look in `kids[menu]` first, then in each drop-down child
      in order. */
  function Locate(a: Arena, menu: Id, x: Id, free: set<Id>): (r: Option<Location>)
    requires Valid(a) && menu < |a.items|
    ensures r.Some? ==> r.value.parent < |a.kids| && r.value.index < |a.kids[r.value.parent]|
                        && a.kids[r.value.parent][r.value.index] == x
    decreases free, 1, 0
  {
    match FirstIndex(a.kids[menu], x)
    case Some(k) => Some(Location(menu, k))
    case None => LocateBelow(a, menu, 0, x, free)
  }

  /** The submenu part of `Locate`, over the children `kids[menu][i..]`. */
  function LocateBelow(a: Arena, menu: Id, i: nat, x: Id, free: set<Id>): (r: Option<Location>)
    requires Valid(a) && menu < |a.items|
    ensures r.Some? ==> r.value.parent < |a.kids| && r.value.index < |a.kids[r.value.parent]|
                        && a.kids[r.value.parent][r.value.index] == x
    decreases free, 0, |a.kids[menu]| - i
  {
    if i >= |a.kids[menu]| then None
    else
      var y := a.kids[menu][i];
      var below := if Descends(a, y) && y in free then Locate(a, y, x, free - {y}) else None;
      if below.Some? then below else LocateBelow(a, menu, i + 1, x, free)
  }

  // ----- facts about the primitives -----

  lemma {:induction false} HeldUpdate(kids: seq<seq<Id>>, p: nat, s: seq<Id>)
    requires p < |kids|
    ensures Held(kids[p := s]) + multiset(kids[p]) == Held(kids) + multiset(s)
  {
    var updated := kids[p := s];
    assert Held(updated) == multiset(updated[0]) + Held(updated[1..]);
    assert Held(kids) == multiset(kids[0]) + Held(kids[1..]);
    if p == 0 {
      assert updated[1..] == kids[1..];
    } else {
      assert updated[1..] == kids[1..][p - 1 := s];
      HeldUpdate(kids[1..], p - 1, s);
      assert kids[1..][p - 1] == kids[p];
      assert updated[0] == kids[0];
      calc {
        Held(updated) + multiset(kids[p]);
        multiset(kids[0]) + (Held(kids[1..][p - 1 := s]) + multiset(kids[p]));
        multiset(kids[0]) + (Held(kids[1..]) + multiset(s));
      }
    }
  }

  lemma MultisetCancel<T>(x: multiset<T>, y: multiset<T>, z: multiset<T>)
    requires x + z == y + z
    ensures x == y
  {
    forall e ensures x[e] == y[e] {
      assert (x + z)[e] == (y + z)[e];
    }
  }

  /** `RemoveAt` as slices: the part before `k`, then the part after it. */
  lemma RemoveAtSlices<T>(s: seq<T>, k: nat)
    requires k < |s|
    ensures RemoveAt(s, k) == s[..k] + s[k + 1..]
  {
  }

  /** `Insert` as slices: the part before `k`, `x`, then the rest. */
  lemma InsertOrAddSlices<T>(s: seq<T>, k: int, x: T)
    requires 0 <= k <= |s|
    ensures InsertOrAdd(s, k, x) == s[..k] + [x] + s[k..]
  {
  }

  lemma RemoveAtMultiset<T>(s: seq<T>, k: nat)
    requires k < |s|
    ensures multiset(RemoveAt(s, k)) + multiset{s[k]} == multiset(s)
  {
    RemoveAtSlices(s, k);
    assert s == s[..k] + [s[k]] + s[k + 1..];
  }

  lemma InsertOrAddMultiset<T>(s: seq<T>, k: int, x: T)
    ensures multiset(InsertOrAdd(s, k, x)) == multiset(s) + multiset{x}
  {
    if 0 <= k <= |s| {
      InsertOrAddSlices(s, k, x);
      assert s == s[..k] + s[k..];
    }
  }

  /** A move neither creates, destroys nor duplicates an item. */
  lemma RelocateConserves(a: Arena, from: Location, c: Id, k: int, x: Id)
    requires Valid(a) && c < |a.items| && x < |a.items|
    requires from.parent < |a.kids| && from.index < |a.kids[from.parent]|
    requires a.kids[from.parent][from.index] == x
    ensures Entries(Relocate(a, from, c, k, x)) == Entries(a)
  {
    var p := from.parent;
    var removed := RemoveAt(a.kids[p], from.index);
    var detached := a.kids[p := removed];
    var inserted := InsertOrAdd(detached[c], k, x);
    HeldUpdate(a.kids, p, removed);
    RemoveAtMultiset(a.kids[p], from.index);
    HeldUpdate(detached, c, inserted);
    InsertOrAddMultiset(detached[c], k, x);
    assert Held(detached) + multiset(removed) + multiset{x} == Held(a.kids) + multiset(removed);
    MultisetCancel(Held(detached) + multiset{x}, Held(a.kids), multiset(removed));
    assert Held(detached[c := inserted]) + multiset(detached[c]) == Held(a.kids) + multiset(detached[c]);
    MultisetCancel(Held(detached[c := inserted]), Held(a.kids), multiset(detached[c]));
    assert Relocate(a, from, c, k, x).kids == detached[c := inserted];
  }

  lemma {:induction false} WithoutAppend(s: seq<Id>, t: seq<Id>, ds: set<Id>)
    ensures Without(s + t, ds) == Without(s, ds) + Without(t, ds)
  {
    if |s| == 0 {
      assert s + t == t;
    } else {
      assert (s + t)[1..] == s[1..] + t;
      WithoutAppend(s[1..], t, ds);
    }
  }

  lemma WithoutRemoveAt(s: seq<Id>, k: nat, ds: set<Id>)
    requires k < |s| && s[k] in ds
    ensures Without(RemoveAt(s, k), ds) == Without(s, ds)
  {
    RemoveAtSlices(s, k);
    assert s == s[..k] + [s[k]] + s[k + 1..];
    WithoutAppend(s[..k], s[k + 1..], ds);
    WithoutAppend(s[..k] + [s[k]], s[k + 1..], ds);
    WithoutAppend(s[..k], [s[k]], ds);
  }

  lemma WithoutInsertOrAdd(s: seq<Id>, k: int, x: Id, ds: set<Id>)
    requires x in ds
    ensures Without(InsertOrAdd(s, k, x), ds) == Without(s, ds)
  {
    if 0 <= k <= |s| {
      InsertOrAddSlices(s, k, x);
      assert s == s[..k] + s[k..];
      WithoutAppend(s[..k] + [x], s[k..], ds);
      WithoutAppend(s[..k], [x], ds);
      WithoutAppend(s[..k], s[k..], ds);
    } else {
      WithoutAppend(s, [x], ds);
    }
  }

  /** A move of `x` leaves every collection, with the moved items taken out, as it was. */
  lemma RelocateKeepsOthersInOrder(a: Arena, from: Location, c: Id, k: int, x: Id, ds: set<Id>)
    requires Valid(a) && c < |a.items| && x < |a.items|
    requires from.parent < |a.kids| && from.index < |a.kids[from.parent]|
    requires a.kids[from.parent][from.index] == x && x in ds
    ensures forall q | 0 <= q < |a.kids| ::
      Without(Relocate(a, from, c, k, x).kids[q], ds) == Without(a.kids[q], ds)
  {
    var p := from.parent;
    WithoutRemoveAt(a.kids[p], from.index, ds);
    var detached := a.kids[p := RemoveAt(a.kids[p], from.index)];
    WithoutInsertOrAdd(detached[c], k, x, ds);
  }

  // ----- facts about the walk and the search -----

  /** Every visit names the item held in its slot, at a depth no smaller than the start. */
  lemma {:induction false} WalkSlots(a: Arena, c: Id, i: nat, level: nat, free: set<Id>)
    requires Valid(a) && c < |a.items|
    ensures forall v | v in Walk(a, c, i, level, free) ::
      v.parent < |a.kids| && v.index < |a.kids[v.parent]| && a.kids[v.parent][v.index] == v.item
      && level <= v.level
    decreases free, |a.kids[c]| - i
  {
    if i < |a.kids[c]| {
      var x := a.kids[c][i];
      if Descends(a, x) && x in free {
        WalkSlots(a, x, 0, level + 1, free - {x});
      }
      WalkSlots(a, c, i + 1, level, free);
    }
  }

  /** The walk meets every child of `c` from index `i` on, in its own slot and at depth `level`. */
  lemma {:induction false} WalkCovers(a: Arena, c: Id, i: nat, level: nat, free: set<Id>, k: nat)
    requires Valid(a) && c < |a.items| && i <= k < |a.kids[c]|
    ensures Visit(a.kids[c][k], level, c, k) in Walk(a, c, i, level, free)
    decreases |a.kids[c]| - i
  {
    var x := a.kids[c][i];
    var below := if Descends(a, x) && x in free then Walk(a, x, 0, level + 1, free - {x}) else [];
    var rest := Walk(a, c, i + 1, level, free);
    assert Walk(a, c, i, level, free) == [Visit(x, level, c, i)] + below + rest;
    if i < k {
      WalkCovers(a, c, i + 1, level, free, k);
      assert Visit(a.kids[c][k], level, c, k) in rest;
    }
  }

  /** `FindItemLocation` answers with a slot the walk visits. */
  lemma {:induction false} LocateFindsVisitedSlot(a: Arena, menu: Id, x: Id, level: nat, free: set<Id>)
    requires Valid(a) && menu < |a.items|
    requires Locate(a, menu, x, free).Some?
    ensures var loc := Locate(a, menu, x, free).value;
      Visit(x, level, loc.parent, loc.index) in Walk(a, menu, 0, level, free)
      || exists v :: v in Walk(a, menu, 0, level, free) && v.item == x && v.parent == loc.parent && v.index == loc.index
    decreases free, 1, 0
  {
    match FirstIndex(a.kids[menu], x)
    case Some(k) =>
      WalkCovers(a, menu, 0, level, free, k);
    case None =>
      LocateBelowFindsVisitedSlot(a, menu, 0, x, level, free);
  }

  lemma {:induction false} LocateBelowFindsVisitedSlot(a: Arena, menu: Id, i: nat, x: Id, level: nat, free: set<Id>)
    requires Valid(a) && menu < |a.items|
    requires LocateBelow(a, menu, i, x, free).Some?
    ensures var loc := LocateBelow(a, menu, i, x, free).value;
      exists v :: v in Walk(a, menu, i, level, free) && v.item == x && v.parent == loc.parent && v.index == loc.index
    decreases free, 0, |a.kids[menu]| - i
  {
    var y := a.kids[menu][i];
    var loc := LocateBelow(a, menu, i, x, free).value;
    var rest := Walk(a, menu, i + 1, level, free);
    if Descends(a, y) && y in free && Locate(a, y, x, free - {y}).Some? {
      LocateFindsVisitedSlot(a, y, x, level + 1, free - {y});
      var sub := Walk(a, y, 0, level + 1, free - {y});
      if Visit(x, level + 1, loc.parent, loc.index) in sub {
        assert Visit(x, level + 1, loc.parent, loc.index) in Walk(a, menu, i, level, free);
      } else {
        var v :| v in sub && v.item == x && v.parent == loc.parent && v.index == loc.index;
        assert v in Walk(a, menu, i, level, free);
      }
    } else {
      LocateBelowFindsVisitedSlot(a, menu, i + 1, x, level, free);
      var v :| v in rest && v.item == x && v.parent == loc.parent && v.index == loc.index;
      assert v in Walk(a, menu, i, level, free);
    }
  }

  /** `FindItemLocation` succeeds on every item the walk meets. */
  lemma {:induction false} LocateFindsVisited(a: Arena, menu: Id, x: Id, level: nat, free: set<Id>)
    requires Valid(a) && menu < |a.items|
    requires exists v :: v in Walk(a, menu, 0, level, free) && v.item == x
    ensures Locate(a, menu, x, free).Some?
    decreases free, 1, 0
  {
    if x !in a.kids[menu] {
      LocateBelowFindsVisited(a, menu, 0, x, level, free);
    }
  }

  lemma {:induction false} LocateBelowFindsVisited(a: Arena, menu: Id, i: nat, x: Id, level: nat, free: set<Id>)
    requires Valid(a) && menu < |a.items| && x !in a.kids[menu]
    requires exists v :: v in Walk(a, menu, i, level, free) && v.item == x
    ensures LocateBelow(a, menu, i, x, free).Some?
    decreases free, 0, |a.kids[menu]| - i
  {
    var v :| v in Walk(a, menu, i, level, free) && v.item == x;
    var y := a.kids[menu][i];
    var sub := if Descends(a, y) && y in free then Walk(a, y, 0, level + 1, free - {y}) else [];
    var rest := Walk(a, menu, i + 1, level, free);
    assert Walk(a, menu, i, level, free) == [Visit(y, level, menu, i)] + sub + rest;
    if v in sub {
      LocateFindsVisited(a, y, x, level + 1, free - {y});
    } else {
      assert v in rest;
      if !(Descends(a, y) && y in free && Locate(a, y, x, free - {y}).Some?) {
        LocateBelowFindsVisited(a, menu, i + 1, x, level, free);
      }
    }
  }

  /** The host's live menu tree: its child collections and visibility flags change in place. */
  class LiveMenu {
    const items: seq<MenuItem>
    const root: Id
    var kids: seq<seq<Id>>
    var visible: seq<bool>

    /** The current tree as a value. */
    function Shape(): Arena
      reads this
    {
      Arena(items, kids, visible, root)
    }

    constructor (a: Arena)
      requires Valid(a)
      ensures Shape() == a
    {
      items, root, kids, visible := a.items, a.root, a.kids, a.visible;
    }

    /** `Items.RemoveAt(k)` on the collection of container `c`. */
    method RemoveItemAt(c: Id, k: nat)
      requires Valid(Shape()) && c < |kids| && k < |kids[c]|
      modifies this
      ensures kids == old(kids)[c := RemoveAt(old(kids)[c], k)] && visible == old(visible)
      ensures Valid(Shape())
    {
      kids := kids[c := RemoveAt(kids[c], k)];
    }

    /** `Items.Insert(k, x)` on the collection of container `c`. */
    method InsertItem(c: Id, k: nat, x: Id)
      requires Valid(Shape()) && c < |kids| && k <= |kids[c]| && x < |items|
      modifies this
      ensures kids == old(kids)[c := InsertOrAdd(old(kids)[c], k, x)] && visible == old(visible)
      ensures Valid(Shape())
    {
      InsertOrAddSlices(kids[c], k, x);
      kids := kids[c := kids[c][..k] + [x] + kids[c][k..]];
    }

    /** `Items.Add(x)` on the collection of container `c`. */
    method AddItem(c: Id, x: Id)
      requires Valid(Shape()) && c < |kids| && x < |items|
      modifies this
      ensures kids == old(kids)[c := old(kids)[c] + [x]] && visible == old(visible)
      ensures Valid(Shape())
    {
      kids := kids[c := kids[c] + [x]];
    }

    /** Assigning `Visible` on the underlying tool strip item of `x`. */
    method SetVisible(x: Id, v: bool)
      requires Valid(Shape()) && x < |visible|
      modifies this
      ensures visible == old(visible)[x := v] && kids == old(kids)
      ensures Valid(Shape())
    {
      visible := visible[x := v];
    }
  }

  /** Depths grow by one per descent, and a descent uses up one enterable id. */
  lemma {:induction false} WalkDepthBound(a: Arena, c: Id, i: nat, level: nat, free: set<Id>)
    requires Valid(a) && c < |a.items|
    ensures forall v | v in Walk(a, c, i, level, free) :: v.level <= level + |free|
    decreases free, |a.kids[c]| - i
  {
    if i < |a.kids[c]| {
      var x := a.kids[c][i];
      if Descends(a, x) && x in free {
        WalkDepthBound(a, x, 0, level + 1, free - {x});
        assert |free - {x}| == |free| - 1;
      }
      WalkDepthBound(a, c, i + 1, level, free);
    }
  }

  lemma {:induction false} IdsSize(n: nat)
    ensures |Ids(n)| == n
  {
    if n > 0 {
      var below := Ids(n - 1);
      IdsSize(n - 1);
      assert n - 1 !in below;
      assert Ids(n) == below + {n - 1};
    }
  }
}
