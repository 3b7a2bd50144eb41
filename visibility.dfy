/** `MenuVisibilityRestorer` and `RestoreHiddenItems`: the saved hidden-identifier set is
    applied to the host menu by clearing `Visible` on the items it names. */
module Visibility {
  import opened Menus
  import opened OrderCodec

  /** An item the restorer hides for the set `hidden`: its `Name`/`Text` identifier (without
      the codec's separator sentinel) is non-empty and in the set, and its underlying object
      is a tool strip item whose visibility can be set. */
  predicate Hideable(a: Arena, x: Id, hidden: set<string>)
    requires x < |a.items|
    ensures Hideable(a, x, hidden) ==> Identifier(a.items[x]) in hidden
  {
    && EditorIdentifier(a.items[x]) != ""
    && a.items[x].isToolStripItem
    && EditorIdentifier(a.items[x]) in hidden
  }

  /** The items `ApplyHiddenItemsRecursive` clears on `kids[c][i..]`: for each child, first
      those below it when it is a drop-down (children before their parent), then the child. */
  function Hidden(a: Arena, hidden: set<string>, c: Id, i: nat, free: set<Id>): (s: set<Id>)
    requires Valid(a) && c < |a.items|
    ensures forall x | x in s :: x < |a.items| && Hideable(a, x, hidden)
    decreases free, |a.kids[c]| - i
  {
    if i >= |a.kids[c]| then {}
    else
      var x := a.kids[c][i];
      (if Descends(a, x) && x in free then Hidden(a, hidden, x, 0, free - {x}) else {})
      + (if Hideable(a, x, hidden) then {x} else {})
      + Hidden(a, hidden, c, i + 1, free)
  }

  /** The items the restorer clears for one child: those below it, then the child itself. */
  function ItemHidden(a: Arena, hidden: set<string>, x: Id, free: set<Id>): set<Id>
    requires Valid(a) && x < |a.items|
  {
    (if Descends(a, x) && x in free then Hidden(a, hidden, x, 0, free - {x}) else {})
    + (if Hideable(a, x, hidden) then {x} else {})
  }

  /** The visibility flags once every item of `s` has been given `Visible = false`. */
  function Hide(visible: seq<bool>, s: set<Id>): (r: seq<bool>)
    ensures |r| == |visible|
  {
    seq(|visible|, k requires 0 <= k < |visible| => visible[k] && k !in s)
  }

  /** The tree after `ApplyHiddenItems(hidden)` on the main menu. */
  function ApplyHidden(a: Arena, hidden: set<string>): (b: Arena)
    requires Valid(a)
    ensures Valid(b) && SameItems(a, b) && b.kids == a.kids
  {
    a.(visible := Hide(a.visible, Hidden(a, hidden, a.root, 0, Enterable(a))))
  }

  // ----- the restorer on the live menu -----

  class MenuVisibilityRestorer {
    const rootMenu: LiveMenu

    constructor (rootMenu: LiveMenu)
      ensures this.rootMenu == rootMenu
    {
      this.rootMenu := rootMenu;
    }

    /** `ApplyHiddenItems(hiddenItems)`. */
    method ApplyHiddenItems(hiddenItems: set<string>)
      requires Valid(rootMenu.Shape())
      modifies rootMenu
      ensures rootMenu.Shape() == ApplyHidden(old(rootMenu.Shape()), hiddenItems)
    {
      var a := rootMenu.Shape();
      ApplyHiddenItemsRecursive(a, rootMenu.root, hiddenItems, Enterable(a));
    }

    /** `ApplyHiddenItemsRecursive(items, hiddenItems)` over the children of container `c`. */
    method ApplyHiddenItemsRecursive(ghost a: Arena, c: Id, hiddenItems: set<string>, free: set<Id>)
      requires Valid(a) && c < |a.items|
      requires rootMenu.items == a.items && rootMenu.kids == a.kids && rootMenu.root == a.root
      requires |rootMenu.visible| == |a.items|
      modifies rootMenu
      ensures rootMenu.kids == a.kids
      ensures rootMenu.visible == Hide(old(rootMenu.visible), Hidden(a, hiddenItems, c, 0, free))
      decreases free, 1
    {
      ghost var visible0 := rootMenu.visible;
      var items := rootMenu.kids[c];
      var i := 0;
      while i < |items|
        invariant 0 <= i <= |items| && items == a.kids[c]
        invariant rootMenu.kids == a.kids && |rootMenu.visible| == |a.items|
        invariant Hide(rootMenu.visible, Hidden(a, hiddenItems, c, i, free))
               == Hide(visible0, Hidden(a, hiddenItems, c, 0, free))
      {
        ghost var before := rootMenu.visible;
        ApplyToItem(a, items[i], hiddenItems, free);
        HiddenUnfold(a, hiddenItems, c, i, free);
        HideHide(before, ItemHidden(a, hiddenItems, items[i], free), Hidden(a, hiddenItems, c, i + 1, free));
        i := i + 1;
      }
      HideNothing(rootMenu.visible);
    }

    /** The body of the loop in `ApplyHiddenItemsRecursive` for one item: its drop-down
        children first, then the item itself. */
    method ApplyToItem(ghost a: Arena, item: Id, hiddenItems: set<string>, free: set<Id>)
      requires Valid(a) && item < |a.items|
      requires rootMenu.items == a.items && rootMenu.kids == a.kids && rootMenu.root == a.root
      requires |rootMenu.visible| == |a.items|
      modifies rootMenu
      ensures rootMenu.kids == a.kids
      ensures rootMenu.visible == Hide(old(rootMenu.visible), ItemHidden(a, hiddenItems, item, free))
      decreases free, 0
    {
      ghost var before := rootMenu.visible;
      ghost var below: set<Id> := {};
      if rootMenu.items[item].isDropDown && item in free {
        ApplyHiddenItemsRecursive(a, item, hiddenItems, free - {item});
        below := Hidden(a, hiddenItems, item, 0, free - {item});
      } else {
        HideNothing(before);
      }
      ghost var middle := rootMenu.visible;
      ghost var self: set<Id> := {};
      var identifier := EditorIdentifier(rootMenu.items[item]);
      if identifier != "" && rootMenu.items[item].isToolStripItem && identifier in hiddenItems {
        rootMenu.SetVisible(item, false);
        HideOne(middle, item);
        self := {item};
      } else {
        HideNothing(middle);
      }
      HideHide(before, below, self);
    }
  }

  /** `RestoreHiddenItems`: an empty hidden set leaves the menu alone. */
  method RestoreHiddenItems(mainMenu: LiveMenu, hiddenItems: set<string>)
    requires Valid(mainMenu.Shape())
    modifies mainMenu
    ensures mainMenu.Shape() == ApplyHidden(old(mainMenu.Shape()), hiddenItems)
  {
    if |hiddenItems| == 0 {
      EmptySetHidesNothing(mainMenu.Shape());
      return;
    }
    var restorer := new MenuVisibilityRestorer(mainMenu);
    restorer.ApplyHiddenItems(hiddenItems);
  }

  // ----- properties -----

  lemma HideOne(visible: seq<bool>, x: Id)
    requires x < |visible|
    ensures Hide(visible, {x}) == visible[x := false]
  {
  }

  /** One round of the loop: the items below child `i` and child `i` itself, then the rest. */
  lemma HiddenUnfold(a: Arena, hidden: set<string>, c: Id, i: nat, free: set<Id>)
    requires Valid(a) && c < |a.items| && i < |a.kids[c]|
    ensures Hidden(a, hidden, c, i, free) == ItemHidden(a, hidden, a.kids[c][i], free) + Hidden(a, hidden, c, i + 1, free)
  {
  }

  lemma HideNothing(visible: seq<bool>)
    ensures Hide(visible, {}) == visible
  {
  }

  /** Hiding in two rounds is hiding the union. */
  lemma HideHide(visible: seq<bool>, s: set<Id>, t: set<Id>)
    ensures Hide(Hide(visible, s), t) == Hide(visible, s + t)
  {
  }

  /** An item is hidden exactly when the pre-order walk over drop-downs meets it and it is
      hideable for the set. */
  lemma {:induction false} HiddenIffWalked(a: Arena, hidden: set<string>, c: Id, i: nat, level: nat, free: set<Id>, x: Id)
    requires Valid(a) && c < |a.items|
    ensures x in Hidden(a, hidden, c, i, free)
        <==> x < |a.items| && Hideable(a, x, hidden) && exists v :: v in Walk(a, c, i, level, free) && v.item == x
    decreases free, |a.kids[c]| - i
  {
    if i < |a.kids[c]| {
      var y := a.kids[c][i];
      var sub := if Descends(a, y) && y in free then Walk(a, y, 0, level + 1, free - {y}) else [];
      var rest := Walk(a, c, i + 1, level, free);
      assert Walk(a, c, i, level, free) == [Visit(y, level, c, i)] + sub + rest;
      HiddenIffWalked(a, hidden, c, i + 1, level, free, x);
      if Descends(a, y) && y in free {
        HiddenIffWalked(a, hidden, y, 0, level + 1, free - {y}, x);
      }
      if exists v :: v in Walk(a, c, i, level, free) && v.item == x {
        var v :| v in Walk(a, c, i, level, free) && v.item == x;
        if v != Visit(y, level, c, i) && v !in sub {
          assert v in rest;
        }
      }
      if x in Hidden(a, hidden, c, i + 1, free) {
        var v :| v in rest && v.item == x;
        assert v in Walk(a, c, i, level, free);
      }
      if Descends(a, y) && y in free && x in Hidden(a, hidden, y, 0, free - {y}) {
        var v :| v in sub && v.item == x;
        assert v in Walk(a, c, i, level, free);
      }
      if x == y {
        assert Visit(y, level, c, i) in Walk(a, c, i, level, free);
      }
    }
  }

  /** The restorer never shows an item, and hides exactly the hideable items the walk from
      the main menu meets; nothing else changes. */
  lemma ApplyHiddenOnlyHides(a: Arena, hidden: set<string>, x: Id)
    requires Valid(a) && x < |a.items|
    ensures ApplyHidden(a, hidden).visible[x]
        <==> a.visible[x] && !(Hideable(a, x, hidden) && exists v :: v in PreOrder(a) && v.item == x)
  {
    HiddenIffWalked(a, hidden, a.root, 0, 0, Enterable(a), x);
  }

  /** Which items are hidden does not depend on the current visibility. */
  lemma {:induction false} HiddenIgnoresVisible(a: Arena, b: Arena, hidden: set<string>, c: Id, i: nat, free: set<Id>)
    requires Valid(a) && Valid(b) && a.items == b.items && a.kids == b.kids && c < |a.items|
    ensures Hidden(a, hidden, c, i, free) == Hidden(b, hidden, c, i, free)
    decreases free, |a.kids[c]| - i
  {
    if i < |a.kids[c]| {
      var x := a.kids[c][i];
      if Descends(a, x) && x in free {
        HiddenIgnoresVisible(a, b, hidden, x, 0, free - {x});
      }
      HiddenIgnoresVisible(a, b, hidden, c, i + 1, free);
    }
  }

  /** Applying the hidden set twice is the same as applying it once. */
  lemma ApplyHiddenIdempotent(a: Arena, hidden: set<string>)
    requires Valid(a)
    ensures ApplyHidden(ApplyHidden(a, hidden), hidden) == ApplyHidden(a, hidden)
  {
    var b := ApplyHidden(a, hidden);
    var s := Hidden(a, hidden, a.root, 0, Enterable(a));
    HiddenIgnoresVisible(a, b, hidden, a.root, 0, Enterable(a));
    HideHide(a.visible, s, s);
    assert s + s == s;
  }

  /** An empty set hides nothing, so the guard in `RestoreHiddenItems` changes no outcome. */
  lemma {:induction false} EmptySetHidesNothingBelow(a: Arena, c: Id, i: nat, free: set<Id>)
    requires Valid(a) && c < |a.items|
    ensures Hidden(a, {}, c, i, free) == {}
    decreases free, |a.kids[c]| - i
  {
    if i < |a.kids[c]| {
      var x := a.kids[c][i];
      if Descends(a, x) && x in free {
        EmptySetHidesNothingBelow(a, x, 0, free - {x});
      }
      EmptySetHidesNothingBelow(a, c, i + 1, free);
    }
  }

  lemma EmptySetHidesNothing(a: Arena)
    requires Valid(a)
    ensures ApplyHidden(a, {}) == a
  {
    EmptySetHidesNothingBelow(a, a.root, 0, Enterable(a));
    HideNothing(a.visible);
  }
}
