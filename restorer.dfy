/** The order reconciler: `MenuOrderRestorer` reads the persisted tokens and moves live items
    so that each container starts with the items its tokens name, in their order. */
module OrderRestorer {
  import opened Menus
  import opened OrderCodec

  /** Where a restore ends: the tree reached, and whether an exception escaped (from
      `Int32.Parse`, or from the null parent dereferenced when an item is not found). */
  datatype Run = Run(arena: Arena, faulted: bool)

  /** Every value of the identifier map is an item. */
  predicate MapInto(m: map<string, Id>, n: nat)
  {
    forall k | k in m :: m[k] < n
  }

  /** The children of an accepted drop-down: the well-formed entries deeper than `level`
      from `j` on, up to the first one at most `level` deep; malformed entries are skipped. */
  datatype Slice = Sliced(children: seq<Entry>, next: nat) | SliceFault

  function ChildSlice(entries: seq<Entry>, j: nat, level: int): (r: Slice)
    requires j <= |entries|
    ensures r.Sliced? ==> j <= r.next <= |entries| && |r.children| <= r.next - j
    ensures r.Sliced? ==> forall e | e in r.children :: e.Token? && e.level > level
    decreases |entries| - j
  {
    if j == |entries| then Sliced([], j)
    else match entries[j]
      case Malformed => ChildSlice(entries, j + 1, level)
      case BadLevel => SliceFault
      case Token(l, _) =>
        if l <= level then Sliced([], j)
        else match ChildSlice(entries, j + 1, level)
          case SliceFault => SliceFault
          case Sliced(cs, n) => Sliced([entries[j]] + cs, n)
  }

  /** The collecting loop of `ApplyMenuOrderFromEntries` from cursor `index`, with the items
      `desired` collected so far; it ends by placing them. */
  function Scan(a: Arena, m: map<string, Id>, menu: Id, entries: seq<Entry>, level: int,
                index: nat, desired: seq<Id>): (r: Run)
    requires Valid(a) && MapInto(m, |a.items|) && menu < |a.items| && index <= |entries|
    requires forall d | d in desired :: d < |a.items|
    ensures Valid(r.arena) && SameItems(a, r.arena) && r.arena.visible == a.visible
    decreases |entries|, 1, 2 * (|entries| - index) + 1
  {
    if index == |entries| then Place(a, menu, desired, 0)
    else match entries[index]
      case Malformed => Scan(a, m, menu, entries, level, index + 1, desired)
      case BadLevel => Run(a, true)
      case Token(l, identifier) =>
        if l < level then Place(a, menu, desired, 0)
        else if l == level && identifier in m then Admit(a, m, menu, entries, level, index, desired, m[identifier])
        else Scan(a, m, menu, entries, level, index + 1, desired)
  }

  /** The collecting loop accepting `item`, named by the token at `index`: a drop-down first
      has its child slice reconciled under it (when that slice is non-empty). */
  function Admit(a: Arena, m: map<string, Id>, menu: Id, entries: seq<Entry>, level: int,
                 index: nat, desired: seq<Id>, item: Id): (r: Run)
    requires Valid(a) && MapInto(m, |a.items|) && menu < |a.items| && index < |entries|
    requires forall d | d in desired :: d < |a.items|
    requires item < |a.items|
    ensures Valid(r.arena) && SameItems(a, r.arena) && r.arena.visible == a.visible
    decreases |entries|, 1, 2 * (|entries| - index)
  {
    if Descends(a, item) then
      match ChildSlice(entries, index + 1, level)
      case SliceFault => Run(a, true)
      case Sliced(children, next) =>
        if |children| > 0 then
          var r := Reconcile(a, m, item, children, level + 1);
          if r.faulted then r else Scan(r.arena, m, menu, entries, level, next, desired + [item])
        else Scan(a, m, menu, entries, level, next, desired + [item])
    else Scan(a, m, menu, entries, level, index + 1, desired + [item])
  }

  /** `ApplyMenuOrderFromEntries(menu, entries, level)`. */
  function Reconcile(a: Arena, m: map<string, Id>, menu: Id, entries: seq<Entry>, level: int): (r: Run)
    requires Valid(a) && MapInto(m, |a.items|) && menu < |a.items|
    ensures Valid(r.arena) && SameItems(a, r.arena) && r.arena.visible == a.visible
    decreases |entries|, 2, 0
  {
    Scan(a, m, menu, entries, level, 0, [])
  }

  /** The placing loop: item `desired[i]` is found anywhere in the tree and, unless it already
      sits at index `i` of `menu`, removed there and inserted at `i` (appended past the end). */
  function Place(a: Arena, menu: Id, desired: seq<Id>, i: nat): (r: Run)
    requires Valid(a) && menu < |a.items| && i <= |desired|
    requires forall d | d in desired :: d < |a.items|
    ensures Valid(r.arena) && SameItems(a, r.arena) && r.arena.visible == a.visible
    decreases |desired| - i
  {
    if i == |desired| then Run(a, false)
    else
      var item := desired[i];
      match Locate(a, a.root, item, Enterable(a))
      case None => Run(a, true)
      case Some(loc) =>
        if loc.parent == menu && loc.index == i then Place(a, menu, desired, i + 1)
        else Place(Relocate(a, loc, menu, i, item), menu, desired, i + 1)
  }

  /** `DeserializeAndApply(menuOrder)` on a tree. */
  function Restore(a: Arena, menuOrder: string): (r: Run)
    requires Valid(a)
    ensures Valid(r.arena) && SameItems(a, r.arena) && r.arena.visible == a.visible
  {
    if menuOrder == "" then Run(a, false)
    else Reconcile(a, MenuItemMap(a), a.root, Classified(Fragments(menuOrder)), 0)
  }

  /** The tree after one round of the placing loop for `item` and index `i` (unchanged when
      the item is missing, a fault). */
  function Moved(a: Arena, menu: Id, item: Id, i: nat): (b: Arena)
    requires Valid(a) && menu < |a.items| && item < |a.items|
    ensures Valid(b) && b.items == a.items && b.root == a.root && b.visible == a.visible
  {
    match Locate(a, a.root, item, Enterable(a))
    case None => a
    case Some(loc) => if loc == Location(menu, i) then a else Relocate(a, loc, menu, i, item)
  }

  /** One round of the placing loop, when the item is found. */
  lemma PlaceStep(a: Arena, menu: Id, desired: seq<Id>, i: nat, b: Arena)
    requires Valid(a) && menu < |a.items| && i < |desired|
    requires forall d | d in desired :: d < |a.items|
    requires Locate(a, a.root, desired[i], Enterable(a)).Some?
    requires b == Moved(a, menu, desired[i], i)
    ensures Valid(b) && b.items == a.items
    ensures Place(b, menu, desired, i + 1) == Place(a, menu, desired, i)
  {
  }

  /** One round of the map-building loop. */
  lemma AddFirstStep(a: Arena, m: map<string, Id>, c: Id, i: nat, level: nat, free: set<Id>)
    requires Valid(a) && c < |a.items| && i < |a.kids[c]|
    ensures var x := a.kids[c][i];
            var key := Identifier(a.items[x]);
            var sub := if Descends(a, x) && x in free then Walk(a, x, 0, level + 1, free - {x}) else [];
            AddFirst(a, m, Walk(a, c, i, level, free))
            == AddFirst(a, AddFirst(a, if key in m then m else m[key := x], sub), Walk(a, c, i + 1, level, free))
  {
    var x := a.kids[c][i];
    var key := Identifier(a.items[x]);
    var sub := if Descends(a, x) && x in free then Walk(a, x, 0, level + 1, free - {x}) else [];
    var rest := Walk(a, c, i + 1, level, free);
    assert Walk(a, c, i, level, free) == [Visit(x, level, c, i)] + (sub + rest);
    AddFirstAppend(a, if key in m then m else m[key := x], sub, rest);
  }

  /** The child slice extended in front by the entries already collected. */
  function Extend(prefix: seq<Entry>, r: Slice): Slice
  {
    match r
    case SliceFault => SliceFault
    case Sliced(cs, n) => Sliced(prefix + cs, n)
  }

  lemma {:induction false} AddFirstAppend(a: Arena, m: map<string, Id>, xs: seq<Visit>, ys: seq<Visit>)
    requires forall v | v in xs + ys :: v.item < |a.items|
    ensures AddFirst(a, m, xs + ys) == AddFirst(a, AddFirst(a, m, xs), ys)
    decreases |xs|
  {
    if |xs| == 0 {
      assert xs + ys == ys;
    } else {
      var key := Identifier(a.items[xs[0].item]);
      assert (xs + ys)[1..] == xs[1..] + ys;
      AddFirstAppend(a, if key in m then m else m[key := xs[0].item], xs[1..], ys);
    }
  }

  class MenuOrderRestorer {
    const rootMenu: LiveMenu
    var menuItemMap: map<string, Id>

    constructor (rootMenu: LiveMenu)
      ensures this.rootMenu == rootMenu && menuItemMap == map[]
    {
      this.rootMenu := rootMenu;
      menuItemMap := map[];
    }

    /** `DeserializeAndApply`: nothing on empty input, else build the map and reconcile from
        the root at level 0. */
    method DeserializeAndApply(menuOrder: string) returns (faulted: bool)
      requires Valid(rootMenu.Shape())
      modifies this, rootMenu
      ensures Run(rootMenu.Shape(), faulted) == Restore(old(rootMenu.Shape()), menuOrder)
    {
      if menuOrder == "" {
        return false;
      }
      var entries := Fragments(menuOrder);
      menuItemMap := map[];
      BuildMenuItemMap(rootMenu.root, Enterable(rootMenu.Shape()), 0);
      faulted := ApplyMenuOrderFromEntries(rootMenu.root, entries, 0);
    }

    /** `BuildMenuItemMap` over `kids[c]`: the first item met with each identifier wins. */
    method BuildMenuItemMap(c: Id, free: set<Id>, ghost level: nat)
      requires Valid(rootMenu.Shape()) && c < |rootMenu.items|
      modifies this
      ensures menuItemMap == AddFirst(rootMenu.Shape(), old(menuItemMap), Walk(rootMenu.Shape(), c, 0, level, free))
      decreases free
    {
      ghost var a := rootMenu.Shape();
      var items := rootMenu.kids[c];
      var i := 0;
      while i < |items|
        invariant 0 <= i <= |items|
        invariant AddFirst(a, menuItemMap, Walk(a, c, i, level, free)) == AddFirst(a, old(menuItemMap), Walk(a, c, 0, level, free))
      {
        var item := items[i];
        AddFirstStep(a, menuItemMap, c, i, level, free);
        var identifier := Identifier(rootMenu.items[item]);
        if identifier !in menuItemMap {
          menuItemMap := menuItemMap[identifier := item];
        }
        if rootMenu.items[item].isDropDown && item in free {
          BuildMenuItemMap(item, free - {item}, level + 1);
        }
        i := i + 1;
      }
    }

    /** `FindItemLocation`: the first slot holding `itemToFind` in `kids[menu]`, else the first
        found in a drop-down child, searched in order; the outputs are left as given when the
        item is not found. */
    method FindItemLocation(menu: Id, itemToFind: Id, parentMenu: Option<Id>, index: int, free: set<Id>)
      returns (found: bool, parentOut: Option<Id>, indexOut: int)
      requires Valid(rootMenu.Shape()) && menu < |rootMenu.items|
      ensures found == Locate(rootMenu.Shape(), menu, itemToFind, free).Some?
      ensures found ==> parentOut == Some(Locate(rootMenu.Shape(), menu, itemToFind, free).value.parent)
                        && indexOut == Locate(rootMenu.Shape(), menu, itemToFind, free).value.index
      ensures !found ==> parentOut == parentMenu && indexOut == index
      decreases free
    {
      ghost var a := rootMenu.Shape();
      var items := rootMenu.kids[menu];
      for i := 0 to |items|
        invariant itemToFind !in items[..i]
      {
        if items[i] == itemToFind {
          assert FirstIndex(items, itemToFind) == Some(i);
          return true, Some(menu), i;
        }
      }
      assert items[..|items|] == items;
      var j := 0;
      while j < |items|
        invariant 0 <= j <= |items|
        invariant LocateBelow(a, menu, j, itemToFind, free) == Locate(a, menu, itemToFind, free)
      {
        var item := items[j];
        if rootMenu.items[item].isDropDown && item in free {
          var f, p, k := FindItemLocation(item, itemToFind, parentMenu, index, free - {item});
          if f {
            return true, p, k;
          }
        }
        j := j + 1;
      }
      return false, parentMenu, index;
    }

    /** `ApplyMenuOrderFromEntries`: collect the items for `menu` at `currentLevel` (reconciling
        each accepted drop-down's children first), then place them at indexes 0, 1, ... */
    method ApplyMenuOrderFromEntries(menu: Id, entries: seq<string>, currentLevel: int) returns (faulted: bool)
      requires Valid(rootMenu.Shape()) && menu < |rootMenu.items| && MapInto(menuItemMap, |rootMenu.items|)
      modifies rootMenu
      ensures Run(rootMenu.Shape(), faulted) == Reconcile(old(rootMenu.Shape()), menuItemMap, menu, Classified(entries), currentLevel)
      decreases |entries|
    {
      ghost var a0 := rootMenu.Shape();
      ghost var es := Classified(entries);
      ghost var goal := Reconcile(a0, menuItemMap, menu, es, currentLevel);
      var itemsAtCurrentLevel: seq<Id> := [];
      var index := 0;
      while index < |entries|
        invariant 0 <= index <= |entries|
        invariant Valid(rootMenu.Shape()) && SameItems(a0, rootMenu.Shape()) && rootMenu.visible == a0.visible
        invariant forall d | d in itemsAtCurrentLevel :: d < |rootMenu.items|
        invariant Scan(rootMenu.Shape(), menuItemMap, menu, es, currentLevel, index, itemsAtCurrentLevel) == goal
        decreases |entries| - index
      {
        var entry := ReadEntry(entries, index);
        match entry
        case Malformed =>
          index := index + 1;
        case BadLevel =>
          return true;
        case Token(level, identifier) =>
          if level < currentLevel {
            break;
          }
          if level == currentLevel && identifier in menuItemMap {
            var item := menuItemMap[identifier];
            itemsAtCurrentLevel := itemsAtCurrentLevel + [item];
            index := index + 1;
            if rootMenu.items[item].isDropDown {
              var sliceFault, childEntries, next := CollectChildEntries(entries, index, currentLevel);
              if sliceFault {
                return true;
              }
              index := next;
              if |childEntries| > 0 {
                var f := ApplyMenuOrderFromEntries(item, childEntries, currentLevel + 1);
                if f {
                  return true;
                }
              }
            }
          } else {
            index := index + 1;
          }
      }
      faulted := PlaceItems(menu, itemsAtCurrentLevel);
    }

    /** The placing loop of `ApplyMenuOrderFromEntries`: each collected item in turn is moved
        to index `i` of `menu`. */
    method PlaceItems(menu: Id, itemsAtCurrentLevel: seq<Id>) returns (faulted: bool)
      requires Valid(rootMenu.Shape()) && menu < |rootMenu.items|
      requires forall d | d in itemsAtCurrentLevel :: d < |rootMenu.items|
      modifies rootMenu
      ensures Run(rootMenu.Shape(), faulted) == Place(old(rootMenu.Shape()), menu, itemsAtCurrentLevel, 0)
    {
      ghost var goal := Place(rootMenu.Shape(), menu, itemsAtCurrentLevel, 0);
      var i := 0;
      while i < |itemsAtCurrentLevel|
        invariant 0 <= i <= |itemsAtCurrentLevel|
        invariant Valid(rootMenu.Shape()) && menu < |rootMenu.Shape().items|
        invariant forall d | d in itemsAtCurrentLevel :: d < |rootMenu.Shape().items|
        invariant Place(rootMenu.Shape(), menu, itemsAtCurrentLevel, i) == goal
      {
        ghost var before := rootMenu.Shape();
        var item := itemsAtCurrentLevel[i];
        assert item in itemsAtCurrentLevel;
        faulted := MoveIntoPlace(menu, item, i);
        if faulted {
          return;
        }
        PlaceStep(before, menu, itemsAtCurrentLevel, i, rootMenu.Shape());
        i := i + 1;
      }
      return false;
    }

    /** One round of the placing loop: find `item` from the root; a missing item dereferences
        a null parent (a fault); otherwise, unless it already sits at index `i` of `menu`,
        remove it there and insert it at `i`, or append it when `i` is past the end. */
    method MoveIntoPlace(menu: Id, item: Id, i: nat) returns (faulted: bool)
      requires Valid(rootMenu.Shape()) && menu < |rootMenu.items| && item < |rootMenu.items|
      modifies rootMenu
      ensures Valid(rootMenu.Shape())
      ensures faulted <==> Locate(old(rootMenu.Shape()), rootMenu.root, item, Enterable(old(rootMenu.Shape()))).None?
      ensures rootMenu.Shape() == Moved(old(rootMenu.Shape()), menu, item, i)
    {
      ghost var a := rootMenu.Shape();
      var found, currentParent, currentIndex := FindItemLocation(rootMenu.root, item, None, -1, Enterable(rootMenu.Shape()));
      if currentParent.None? {
        return true;
      }
      var isAtCorrectPosition := currentParent.value == menu && currentIndex == i;
      if !isAtCorrectPosition && currentIndex >= 0 {
        rootMenu.RemoveItemAt(currentParent.value, currentIndex);
        if i <= |rootMenu.kids[menu]| {
          rootMenu.InsertItem(menu, i, item);
        } else {
          rootMenu.AddItem(menu, item);
        }
      }
      return false;
    }
  }

  /** The inner loop of `ApplyMenuOrderFromEntries` that gathers an accepted drop-down's
      child entries from `start` on. */
  method CollectChildEntries(entries: seq<string>, start: nat, currentLevel: int)
    returns (faulted: bool, childEntries: seq<string>, next: nat)
    requires start <= |entries|
    ensures faulted <==> ChildSlice(Classified(entries), start, currentLevel).SliceFault?
    ensures !faulted ==> ChildSlice(Classified(entries), start, currentLevel) == Sliced(Classified(childEntries), next)
    ensures |childEntries| <= next - start
  {
    ghost var es := Classified(entries);
    childEntries := [];
    var index := start;
    while index < |entries|
      invariant start <= index <= |entries| && |childEntries| <= index - start
      invariant Extend(Classified(childEntries), ChildSlice(es, index, currentLevel)) == ChildSlice(es, start, currentLevel)
      decreases |entries| - index
    {
      var entry := ReadEntry(entries, index);
      match entry
      case Malformed =>
        index := index + 1;
      case BadLevel =>
        return true, childEntries, index;
      case Token(nextLevel, _) =>
        if nextLevel <= currentLevel {
          break;
        }
        CollectStep(entries, childEntries, index, currentLevel);
        childEntries := childEntries + [entries[index]];
        index := index + 1;
    }
    return false, childEntries, index;
  }

  /** Collecting a deeper token moves it from the slice still to read to the collected prefix. */
  lemma CollectStep(entries: seq<string>, collected: seq<string>, index: nat, currentLevel: int)
    requires index < |entries|
    requires Classified(entries)[index].Token? && Classified(entries)[index].level > currentLevel
    ensures Extend(Classified(collected + [entries[index]]), ChildSlice(Classified(entries), index + 1, currentLevel))
         == Extend(Classified(collected), ChildSlice(Classified(entries), index, currentLevel))
  {
    var es := Classified(entries);
    ClassifiedAppend(collected, [entries[index]]);
    ClassifiedAt(entries, index);
    assert Classified([entries[index]]) == [es[index]];
  }

  /** `entries[index].Split(':')` and, on two parts, `int.Parse` of the first. */
  method ReadEntry(entries: seq<string>, index: nat) returns (entry: Entry)
    requires index < |entries|
    ensures entry == Classified(entries)[index]
  {
    ClassifiedAt(entries, index);
    entry := Classify(entries[index]);
  }

  /** `RestoreMenuOrder`: no saved order (null or empty) leaves the menu alone. */
  method RestoreMenuOrder(mainMenu: LiveMenu, customMenuOrder: Option<string>) returns (faulted: bool)
    requires Valid(mainMenu.Shape())
    modifies mainMenu
    ensures customMenuOrder == None || customMenuOrder.value == "" ==> mainMenu.Shape() == old(mainMenu.Shape()) && !faulted
    ensures customMenuOrder.Some? ==> Run(mainMenu.Shape(), faulted) == Restore(old(mainMenu.Shape()), customMenuOrder.value)
  {
    if customMenuOrder == None || customMenuOrder.value == "" {
      return false;
    }
    var restorer := new MenuOrderRestorer(mainMenu);
    faulted := restorer.DeserializeAndApply(customMenuOrder.value);
  }
}
