/** The editor panel: its event handlers as methods on the panel's state (the tree view,
    the host's live menu and the set of hidden identifiers) and on the plugin settings they
    write. Each handler is proved against the editor function of the same name. */
module Panel {
  import opened Menus
  import opened OrderCodec
  import opened T = Arrangement
  import opened Editing
  import opened TreeBuild

  /** `GetItemIndex`: the first index holding `item`, scanning from the front; -1 when
      there is none, and also when the collection or the item is missing. */
  method GetItemIndex(collection: Option<seq<Id>>, item: Option<Id>) returns (r: int)
    ensures collection.None? || item.None? ==> r == -1
    ensures collection.Some? && item.Some? ==> r == IndexOf(collection.value, item.value)
  {
    if collection.None? || item.None? {
      return -1;
    }
    var s, x := collection.value, item.value;
    var i := 0;
    while i < |s|
      invariant 0 <= i <= |s| && x !in s[..i]
    {
      if s[i] == x {
        return i;
      }
      i := i + 1;
    }
    return -1;
  }

  /** `IsDescendant(node, potentialAncestor)`: walks the parent chain from `node`, `node`
      itself included. */
  method IsDescendant(v: View, node: NodeId, potentialAncestor: NodeId) returns (b: bool)
    requires Forest(v) && node < |v.tag|
    ensures b == Descendant(v, node, potentialAncestor)
  {
    assert Grounded(v, node);
    ghost var fuel: nat :| Rooted(v, node, fuel) && InSubtree(v, node, potentialAncestor, fuel) == Descendant(v, node, potentialAncestor);
    var current: Option<NodeId> := Some(node);
    while current.Some?
      invariant current.Some? ==> Rooted(v, current.value, fuel)
      invariant current.Some? ==> InSubtree(v, current.value, potentialAncestor, fuel) == Descendant(v, node, potentialAncestor)
      invariant current.None? ==> !Descendant(v, node, potentialAncestor)
      decreases fuel + (if current.Some? then 1 else 0)
    {
      if current.value == potentialAncestor {
        return true;
      }
      current := v.parent[current.value];
      if current.Some? {
        fuel := fuel - 1;
      }
    }
    return false;
  }

  /** The plugin settings the editor writes: the saved order and the stored hidden
      identifiers, `None` standing for `null`. How the set is encoded into the settings is
      not part of this model. */
  class Settings {
    var customMenuOrder: Option<string>
    var hiddenMenuItems: Option<set<string>>

    constructor (order: Option<string>, hidden: Option<set<string>>)
      ensures customMenuOrder == order && hiddenMenuItems == hidden
    {
      customMenuOrder, hiddenMenuItems := order, hidden;
    }

    /** Assigning `CustomMenuOrder`. */
    method SetCustomMenuOrder(order: Option<string>)
      modifies this
      ensures customMenuOrder == order && hiddenMenuItems == old(hiddenMenuItems)
    {
      customMenuOrder := order;
    }

    /** `SetHiddenMenuItemsSet`. */
    method SetHiddenMenuItems(hidden: Option<set<string>>)
      modifies this
      ensures hiddenMenuItems == hidden && customMenuOrder == old(customMenuOrder)
    {
      hiddenMenuItems := hidden;
    }

    /** `GetHiddenMenuItemsSet`: the stored set, empty when none is stored. */
    function HiddenSet(): set<string>
      reads this
    {
      if hiddenMenuItems.None? then {} else hiddenMenuItems.value
    }
  }

  /** The buttons `tvMenuItems_AfterSelect` enables. */
  datatype Buttons = Buttons(moveUp: bool, moveDown: bool, indent: bool, outdent: bool)

  /** `tvMenuItems_AfterSelect`: nothing without a selection; otherwise move up and indent
      need a predecessor in the node's list, move down a successor, outdent a parent. */
  function ButtonStates(v: View, selected: Option<NodeId>): (b: Buttons)
    requires ViewOk(v) && (selected.Some? ==> selected.value < |v.tag|)
    ensures selected.None? ==> !b.moveUp && !b.moveDown && !b.indent && !b.outdent
    ensures b.moveUp == b.indent
    ensures selected.Some? && (b.moveUp || b.moveDown) ==> |Siblings(v, v.parent[selected.value])| >= 2
  {
    match selected
    case None => Buttons(false, false, false, false)
    case Some(n) =>
      var i, count := Index(v, n), |Siblings(v, v.parent[n])|;
      Buttons(i > 0, i < count - 1, i > 0, v.parent[n].Some?)
  }

  /** A disabled button's handler changes nothing, so the keyboard shortcuts, which run a
      handler only when its button is enabled, act exactly as the handlers do. An enabled
      move up swaps the node with its predecessor, an enabled outdent puts the node right
      after its former parent, and an enabled move down leaves the order as it is. */
  lemma ButtonsGuardCommands(s: T.Arrangement, n: NodeId)
    requires Mirror(s.view, s.menu) && Forest(s.view) && n < |s.view.tag|
    ensures var b, v := ButtonStates(s.view, Some(n)), s.view;
      && (b.moveUp <==> MoveUp(s, n) != s)
      && (b.moveUp ==> MoveUp(s, n) == Swapped(s, n, Index(v, n) - 1))
      && MoveDown(s, n) == s
      && (b.moveDown ==> MoveDownPastSuccessor(s, n) == Swapped(s, n, Index(v, n)))
      && (!b.indent ==> Indent(s, n) == s)
      && (b.outdent <==> Outdent(s, n) != s)
      && (b.outdent ==> Outdent(s, n).view.parent[n] != v.parent[n])
  {
    var v, i := s.view, Index(s.view, n);
    MoveDownKeepsOrder(s, n);
    if i > 0 {
      MoveUpSwaps(s, n);
      SwappedMoves(s, n, i - 1);
    }
    if i + 1 < |Siblings(v, v.parent[n])| {
      MoveDownPastSuccessorSwaps(s, n);
    }
    if v.parent[n].Some? {
      var q := v.parent[n].value;
      OutdentPlacesAfterParent(s, n, q);
      ParentDiffers(v, q);
    }
  }

  /** A swap at `j` moves the node at `j + 1` and so changes the arrangement. */
  lemma SwappedMoves(s: T.Arrangement, n: NodeId, j: nat)
    requires Mirror(s.view, s.menu) && n < |s.view.tag|
    requires j + 1 < |Siblings(s.view, s.view.parent[n])|
    ensures Swapped(s, n, j) != s
  {
    var v, p := s.view, s.view.parent[n];
    var S := Siblings(v, p);
    assert SlotOk(v, p);
    assert S[j] != S[j + 1];
    assert Siblings(Swapped(s, n, j).view, p)[j] == S[j + 1];
  }

  /** The editor panel. */
  class PanelMenuArrangement {
    const menu: LiveMenu
    const settings: Settings
    var view: View
    var hiddenItems: set<string>
    var resetEnabled: bool

    /** The tree view mirrors the live menu and is a forest. */
    ghost predicate Valid()
      reads this, menu
    {
      Mirror(view, menu.Shape()) && Forest(view)
    }

    /** The tree view and the live menu as a value. */
    function State(): T.Arrangement
      reads this, menu
    {
      T.Arrangement.Arrangement(view, menu.Shape())
    }

    /** The saved order is the serialisation of the live menu as it stands. */
    predicate Saved()
      reads this, menu, settings
    {
      Menus.Valid(menu.Shape()) && settings.customMenuOrder == Some(SerializeMenuOrder(menu.Shape()))
    }

    /** `OnCreateControl`: the hidden set is read from the settings, the tree view is filled
        from the live menu, and the reset button is enabled when an order is saved or an
        item is hidden. On a menu that is a tree the filled view mirrors it. */
    constructor (menu: LiveMenu, settings: Settings)
      requires Menus.Valid(menu.Shape()) && TreeShaped(menu.Shape())
      ensures this.menu == menu && this.settings == settings
      ensures hiddenItems == settings.HiddenSet()
      ensures view == Loaded(menu.Shape(), hiddenItems)
      ensures resetEnabled <==> (settings.customMenuOrder.Some? && settings.customMenuOrder.value != "") || hiddenItems != {}
      ensures Valid()
    {
      this.menu, this.settings := menu, settings;
      hiddenItems := settings.HiddenSet();
      view := Empty;
      resetEnabled := false;
      new;
      LoadMenuItems();
      resetEnabled := (settings.customMenuOrder.Some? && settings.customMenuOrder.value != "") || |hiddenItems| > 0;
    }

    /** `LoadMenuItems`: the tree view is cleared and receives, in order, one top-level node
        per item of the main menu. */
    method LoadMenuItems()
      requires Menus.Valid(menu.Shape())
      modifies this
      ensures view == Loaded(menu.Shape(), hiddenItems)
      ensures hiddenItems == old(hiddenItems) && resetEnabled == old(resetEnabled)
    {
      ghost var a := menu.Shape();
      view := Empty;
      var i := 0;
      while i < |menu.kids[menu.root]|
        invariant 0 <= i <= |a.kids[a.root]| && Sized(view)
        invariant hiddenItems == old(hiddenItems) && resetEnabled == old(resetEnabled)
        invariant LoadedFrom(a, hiddenItems, i, view) == Loaded(a, hiddenItems)
      {
        var node := CreateTreeNode(menu.kids[menu.root][i], Enterable(menu.Shape()));
        view := AddTop(view, node);
        i := i + 1;
      }
    }

    /** `CreateTreeNode(x)`: a new node shows `x`, checked unless `x`'s identifier is hidden,
        and, when `x` owns a collection, receives one node per child, created the same way.
        The walk enters an item only while it is in `free`. */
    method CreateTreeNode(x: Id, free: set<Id>) returns (node: NodeId)
      requires Menus.Valid(menu.Shape()) && x < |menu.items| && Sized(view)
      modifies this
      ensures node == |old(view).tag|
      ensures view == Created(menu.Shape(), hiddenItems, x, old(view), free)
      ensures hiddenItems == old(hiddenItems) && resetEnabled == old(resetEnabled)
      decreases free
    {
      ghost var a := menu.Shape();
      node := |view.tag|;
      view := NewNode(view, x, IsChecked(menu.Shape(), hiddenItems, x));
      if menu.items[x].hasItems && x in free {
        ghost var goal := ChildrenAdded(a, hiddenItems, x, 0, node, view, free - {x});
        var i := 0;
        while i < |menu.kids[x]|
          invariant 0 <= i <= |a.kids[x]| && Sized(view) && node < |view.tag|
          invariant hiddenItems == old(hiddenItems) && resetEnabled == old(resetEnabled)
          invariant ChildrenAdded(a, hiddenItems, x, i, node, view, free - {x}) == goal
        {
          var child := CreateTreeNode(menu.kids[x][i], free - {x});
          view := AddChild(view, node, child);
          i := i + 1;
        }
      }
    }

    /** `MoveNode(node, newParent, newIndex)`: nothing happens when the target node's item
        owns no collection; otherwise the node leaves its list, the item leaves the current
        collection, the index is corrected, both go in at that index (or at the end), and
        the order is saved. */
    method MoveNode(n: NodeId, newParent: Option<NodeId>, newIndex: int)
      requires Valid() && n < |view.tag| && Has(view, newParent)
      requires newParent.Some? ==> !Descendant(view, newParent.value, n)
      modifies this, menu, settings
      ensures Valid()
      ensures State() == T.MoveNode(old(State()), n, newParent, newIndex)
      ensures hiddenItems == old(hiddenItems) && settings.hiddenMenuItems == old(settings.hiddenMenuItems) && resetEnabled == old(resetEnabled)
      ensures Collection(old(view), old(menu.Shape()), newParent).None? ==>
        State() == old(State()) && settings.customMenuOrder == old(settings.customMenuOrder)
      ensures Collection(old(view), old(menu.Shape()), newParent).Some? ==> Saved()
    {
      ghost var s := State();
      var a := menu.Shape();
      var targetCollection := Collection(view, a, newParent);
      if targetCollection.None? {
        return;
      }
      var target, item := targetCollection.value, view.tag[n];
      var currentCollection := Collection(view, a, view.parent[n]);
      var detached := Detach(view, n);
      var oldIndex, k := MoveItem(menu, currentCollection, target, newIndex, item);
      var moved := menu.Shape();
      view := Attach(detached, n, newParent, k);
      assert hiddenItems == old(hiddenItems) && resetEnabled == old(resetEnabled);
      settings.SetCustomMenuOrder(Some(SerializeMenuOrder(moved)));
      MoveNodeSteps(s, n, newParent, newIndex, target, currentCollection, oldIndex, k, view, moved);
    }

    /** `btnMoveUp_Click`: with a selected node not first in its list, `MoveNode` to the
        index before it in the same list. */
    method MoveUp(selected: Option<NodeId>)
      requires Valid() && (selected.Some? ==> selected.value < |view.tag|)
      modifies this, menu, settings
      ensures Valid() && hiddenItems == old(hiddenItems) && settings.hiddenMenuItems == old(settings.hiddenMenuItems) && resetEnabled == old(resetEnabled)
      ensures selected.None? ==> State() == old(State())
      ensures selected.Some? ==> State() == Editing.MoveUp(old(State()), selected.value)
      ensures settings.customMenuOrder == old(settings.customMenuOrder) || Saved()
      ensures State() != old(State()) ==> Saved()
    {
      if selected.None? {
        return;
      }
      var n := selected.value;
      ghost var s := State();
      var i, p := Index(view, n), view.parent[n];
      MoveUpMoves(s, n);
      if i == 0 {
        return;
      }
      assert Editing.MoveUp(s, n) == T.MoveNode(s, n, p, i - 1);
      OwnListOutsideSubtree(view, n);
      ItemAtIndex(view, menu.Shape(), n);
      MoveNode(n, p, i - 1);
    }

    /** `tsbnMoveDown_Click`: with a selected node not last in its list, `MoveNode` to the
        index after it in the same list, which leaves the order as it was but saves it. */
    method MoveDown(selected: Option<NodeId>)
      requires Valid() && (selected.Some? ==> selected.value < |view.tag|)
      modifies this, menu, settings
      ensures Valid() && hiddenItems == old(hiddenItems) && settings.hiddenMenuItems == old(settings.hiddenMenuItems) && resetEnabled == old(resetEnabled)
      ensures State() == old(State())
      ensures selected.Some? ==> State() == Editing.MoveDown(old(State()), selected.value)
      ensures selected.Some? && old(Index(view, selected.value)) < old(|Siblings(view, view.parent[selected.value])|) - 1 ==> Saved()
      ensures settings.customMenuOrder == old(settings.customMenuOrder) || Saved()
    {
      if selected.None? {
        return;
      }
      var n := selected.value;
      ghost var s := State();
      MoveDownKeepsOrder(s, n);
      var maxIndex := |Siblings(view, view.parent[n])| - 1;
      var i := Index(view, n);
      if i >= maxIndex {
        return;
      }
      OwnListOutsideSubtree(view, n);
      ItemAtIndex(view, menu.Shape(), n);
      MoveNode(n, view.parent[n], i + 1);
    }

    /** `tsbnIndent_Click`: with a selected node not first in its list, `MoveNode` to the end
        of the child list of the node before it. */
    method Indent(selected: Option<NodeId>)
      requires Valid() && (selected.Some? ==> selected.value < |view.tag|)
      modifies this, menu, settings
      ensures Valid() && hiddenItems == old(hiddenItems) && settings.hiddenMenuItems == old(settings.hiddenMenuItems) && resetEnabled == old(resetEnabled)
      ensures selected.None? ==> State() == old(State())
      ensures selected.Some? ==> State() == Editing.Indent(old(State()), selected.value)
      ensures settings.customMenuOrder == old(settings.customMenuOrder) || Saved()
      ensures State() != old(State()) ==> Saved()
    {
      if selected.None? {
        return;
      }
      var n := selected.value;
      var i := Index(view, n);
      if i == 0 {
        return;
      }
      var newParentNode := Siblings(view, view.parent[n])[i - 1];
      PreviousSibling(State(), n, newParentNode);
      OwnListOutsideSubtree(view, n);
      DescendantStep(view, newParentNode, n);
      MoveNode(n, Some(newParentNode), |view.nodes[newParentNode]|);
    }

    /** `tsbnOutdent_Click`: with a selected node that has a parent, `MoveNode` to the index
        after the parent in the grandparent's list (the top level when there is none). */
    method Outdent(selected: Option<NodeId>)
      requires Valid() && (selected.Some? ==> selected.value < |view.tag|)
      modifies this, menu, settings
      ensures Valid() && hiddenItems == old(hiddenItems) && settings.hiddenMenuItems == old(settings.hiddenMenuItems) && resetEnabled == old(resetEnabled)
      ensures selected.None? ==> State() == old(State())
      ensures selected.Some? ==> State() == Editing.Outdent(old(State()), selected.value)
      ensures settings.customMenuOrder == old(settings.customMenuOrder) || Saved()
      ensures State() != old(State()) ==> Saved()
    {
      if selected.None? {
        return;
      }
      var n := selected.value;
      OwnListOutsideSubtree(view, n);
      OutdentMoves(State(), n);
      if view.parent[n].None? {
        return;
      }
      var parentNode := view.parent[n].value;
      var insertIndex := Index(view, parentNode) + 1;
      DescendantStep(view, parentNode, n);
      MoveNode(n, view.parent[parentNode], insertIndex);
    }

    /** `tvMenuItems_DragDrop` of `drag` (`None` when no tree node is dragged) onto
        `target`: nothing without a target, onto the dragged node or into its subtree;
        otherwise `MoveNode` to the list and index the drop zone picks. */
    method DragDrop(drag: Option<NodeId>, target: Option<NodeId>, relativeY: int, nodeHeight: int)
      requires Valid() && (drag.Some? ==> drag.value < |view.tag|) && (target.Some? ==> target.value < |view.tag|)
      modifies this, menu, settings
      ensures Valid() && hiddenItems == old(hiddenItems) && settings.hiddenMenuItems == old(settings.hiddenMenuItems) && resetEnabled == old(resetEnabled)
      ensures drag.None? ==> State() == old(State())
      ensures drag.Some? ==> State() == Drop(old(State()), drag.value, target, relativeY, nodeHeight)
      ensures settings.customMenuOrder == old(settings.customMenuOrder) || Saved()
      ensures State() != old(State()) ==> Saved()
    {
      if drag.None? {
        return;
      }
      var dragNode := drag.value;
      if target.None? || target.value == dragNode {
        return;
      }
      var targetNode := target.value;
      var inside := IsDescendant(view, targetNode, dragNode);
      if inside {
        return;
      }
      var zone := DropZone(relativeY, nodeHeight);
      ItemAtIndex(view, menu.Shape(), targetNode);
      DescendantStep(view, targetNode, dragNode);
      MoveNode(dragNode, DropList(view, targetNode, zone), DropIndex(view, targetNode, zone));
    }

    /** `tvMenuItems_AfterCheck` for `node`, whose check box has just been set to
        `view.checked[node]`: nothing for an item without an identifier; otherwise a checked
        node's identifier leaves the hidden set and an unchecked node's joins it, a tool
        strip item's visibility follows the check box, and the set is stored. */
    method AfterCheck(node: Option<NodeId>)
      requires Valid() && (node.Some? ==> node.value < |view.tag|)
      modifies this, menu, settings
      ensures Valid() && view == old(view) && menu.kids == old(menu.kids) && resetEnabled == old(resetEnabled)
      ensures settings.customMenuOrder == old(settings.customMenuOrder)
      ensures node.None? || EditorIdentifier(menu.items[view.tag[node.value]]) == "" ==>
        && hiddenItems == old(hiddenItems) && menu.visible == old(menu.visible)
        && settings.hiddenMenuItems == old(settings.hiddenMenuItems)
      ensures node.Some? && EditorIdentifier(menu.items[view.tag[node.value]]) != "" ==>
        var n, x := node.value, view.tag[node.value];
        var id := EditorIdentifier(menu.items[x]);
        && (id in hiddenItems <==> !view.checked[n])
        && hiddenItems - {id} == old(hiddenItems) - {id}
        && menu.visible == (if menu.items[x].isToolStripItem then old(menu.visible)[x := view.checked[n]] else old(menu.visible))
        && settings.hiddenMenuItems == Some(hiddenItems)
    {
      if node.None? {
        return;
      }
      var n := node.value;
      var x := view.tag[n];
      var identifier := EditorIdentifier(menu.items[x]);
      if identifier == "" {
        return;
      }
      if view.checked[n] {
        hiddenItems := hiddenItems - {identifier};
      } else {
        hiddenItems := hiddenItems + {identifier};
      }
      if menu.items[x].isToolStripItem {
        ghost var a := menu.Shape();
        menu.SetVisible(x, view.checked[n]);
        MirrorIgnoresVisible(view, a, menu.visible);
      }
      settings.SetHiddenMenuItems(Some(hiddenItems));
    }

    /** `btnReset_Click`: the saved order and the stored hidden set are cleared, and so is
        the panel's hidden set; neither tree changes. */
    method Reset()
      modifies this, settings
      ensures settings.customMenuOrder.None? && settings.HiddenSet() == {} && hiddenItems == {}
      ensures settings.hiddenMenuItems.None? && view == old(view) && resetEnabled == old(resetEnabled)
    {
      settings.SetCustomMenuOrder(None);
      settings.SetHiddenMenuItems(None);
      hiddenItems := {};
    }
  }

  /** `GetItemIndex` on the current collection, then `RemoveAt` there when the item is
      found; -1 when there is no current collection. */
  method RemoveFromCollection(menu: LiveMenu, current: Option<Id>, item: Id) returns (oldIndex: int)
    requires Valid(menu.Shape()) && (current.Some? ==> current.value < |menu.items|)
    modifies menu
    ensures Valid(menu.Shape()) && menu.visible == old(menu.visible)
    ensures oldIndex == if current.Some? then IndexOf(old(menu.kids)[current.value], item) else -1
    ensures menu.kids == if oldIndex >= 0 then old(menu.kids)[current.value := RemoveAt(old(menu.kids)[current.value], oldIndex)] else old(menu.kids)
  {
    oldIndex := -1;
    if current.Some? {
      oldIndex := GetItemIndex(Some(menu.kids[current.value]), Some(item));
      if oldIndex >= 0 {
        menu.RemoveItemAt(current.value, oldIndex);
      }
    }
  }

  /** `Insert(k, item)` into the target collection, or `Add(item)` when `k` is out of
      range. */
  method InsertIntoCollection(menu: LiveMenu, target: Id, k: int, item: Id)
    requires Valid(menu.Shape()) && target < |menu.items| && item < |menu.items|
    modifies menu
    ensures Valid(menu.Shape()) && menu.visible == old(menu.visible)
    ensures menu.kids == old(menu.kids)[target := InsertOrAdd(old(menu.kids)[target], k, item)]
  {
    if k < 0 || k > |menu.kids[target]| {
      menu.AddItem(target, item);
    } else {
      menu.InsertItem(target, k, item);
    }
  }

  /** The live menu's half of `MoveNode`: the item leaves the current collection (when
      found there), the index is lowered by one when the item stood before it in the same
      collection, and the item goes into the target collection at that index. */
  method MoveItem(menu: LiveMenu, current: Option<Id>, target: Id, newIndex: int, item: Id) returns (oldIndex: int, k: int)
    requires Valid(menu.Shape()) && (current.Some? ==> current.value < |menu.items|)
    requires target < |menu.items| && item < |menu.items|
    modifies menu
    ensures Valid(menu.Shape()) && menu.visible == old(menu.visible)
    ensures oldIndex == if current.Some? then IndexOf(old(menu.kids)[current.value], item) else -1
    ensures k == if current == Some(target) && oldIndex >= 0 && oldIndex < newIndex then newIndex - 1 else newIndex
    ensures var kids1 := Removed(old(menu.kids), current, oldIndex);
      menu.kids == kids1[target := InsertOrAdd(kids1[target], k, item)]
  {
    oldIndex := RemoveFromCollection(menu, current, item);
    k := newIndex;
    if current == Some(target) && oldIndex >= 0 && oldIndex < newIndex {
      k := newIndex - 1;
    }
    InsertIntoCollection(menu, target, k, item);
  }

  /** The collections after the item at `oldIndex` of `current` is removed, when found. */
  function Removed(kids: seq<seq<Id>>, current: Option<Id>, oldIndex: int): seq<seq<Id>>
    requires oldIndex >= 0 ==> current.Some? && current.value < |kids| && oldIndex < |kids[current.value]|
  {
    if oldIndex >= 0 then kids[current.value := RemoveAt(kids[current.value], oldIndex)] else kids
  }

  /** `MoveNode` as the sequence of steps the handler takes: the removal from the current
      collection, the index correction, then the insertion into both lists. */
  lemma MoveNodeSteps(s: T.Arrangement, n: NodeId, newParent: Option<NodeId>, newIndex: int,
                      target: Id, current: Option<Id>, oldIndex: int, k: int, v: View, a: Arena)
    requires Mirror(s.view, s.menu) && Forest(s.view) && n < |s.view.tag| && Has(s.view, newParent)
    requires newParent.Some? ==> !Descendant(s.view, newParent.value, n)
    requires Collection(s.view, s.menu, newParent) == Some(target)
    requires current == Collection(s.view, s.menu, s.view.parent[n])
    requires oldIndex == if current.Some? then IndexOf(s.menu.kids[current.value], s.view.tag[n]) else -1
    requires k == if current == Some(target) && oldIndex >= 0 && oldIndex < newIndex then newIndex - 1 else newIndex
    requires v == Attach(Detach(s.view, n), n, newParent, k)
    requires var kids1 := Removed(s.menu.kids, current, oldIndex);
      a == s.menu.(kids := kids1[target := InsertOrAdd(kids1[target], k, s.view.tag[n])])
    ensures T.MoveNode(s, n, newParent, newIndex) == T.Arrangement.Arrangement(v, a)
    ensures Mirror(v, a) && Forest(v) && Menus.Valid(a)
  {
    var r := T.MoveNode(s, n, newParent, newIndex);
    assert r == T.Arrangement.Arrangement(v, a);
    MoveNodeKeepsMirror(s, n, newParent, newIndex);
    MoveNodeKeepsForest(s, n, newParent, newIndex);
    MirrorOfEqual(r, T.Arrangement.Arrangement(v, a));
  }

  /** A node's own list, and so the list of its parent, lies outside its subtree. */
  lemma OwnListOutsideSubtree(v: View, n: NodeId)
    requires ViewOk(v) && Forest(v) && n < |v.tag|
    ensures Has(v, v.parent[n])
    ensures v.parent[n].Some? ==> v.parent[n].value < |v.tag| && !Descendant(v, v.parent[n].value, n)
  {
    assert Has(v, v.parent[n]);
    if v.parent[n].Some? {
      ParentOutsideSubtree(v, n, v.parent[n].value);
    }
  }
}
