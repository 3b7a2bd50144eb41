/** How the editor fills its tree view from the live menu: `LoadMenuItems` creates one node
    per top-level item with `CreateTreeNode`, which creates the item's node and then, when
    the item owns a collection, the nodes of its children, adding each to the node's list.

    Nodes are numbered in the order they are created, so creating a node is appending it to
    the view's sequences; a node has no parent and sits in no list until it is added. */
module TreeBuild {
  import opened Menus
  import opened Arrangement
  import OrderCodec
  import Visibility

  // ----- the items the builder meets -----

  /** The items `CreateTreeNode(x)` creates nodes for, in creation order: `x`, then, when `x`
      owns a collection, the items under it. */
  function Subtree(a: Arena, x: Id, free: set<Id>): (s: seq<Id>)
    requires Valid(a) && x < |a.items|
    ensures |s| > 0 && s[0] == x
    decreases free, 0, 0
  {
    [x] + if a.items[x].hasItems && x in free then TreeItems(a, x, 0, free - {x}) else []
  }

  /** The items met under the children `kids[c][i..]`, child by child. */
  function TreeItems(a: Arena, c: Id, i: nat, free: set<Id>): seq<Id>
    requires Valid(a) && c < |a.items|
    decreases free, 1, |a.kids[c]| - i
  {
    if i >= |a.kids[c]| then [] else Subtree(a, a.kids[c][i], free) + TreeItems(a, c, i + 1, free)
  }

  /** The live menu is a tree as far as the builder descends: no item is met twice and the
      main menu is not met at all. */
  ghost predicate TreeShaped(a: Arena)
    requires Valid(a)
  {
    var s := TreeItems(a, a.root, 0, Enterable(a));
    Distinct(s) && a.root !in s
  }

  // ----- the builder -----

  /** The check box of a new node: `!hiddenItems.Contains(identifier ?? "")`. */
  function IsChecked(a: Arena, hidden: set<string>, x: Id): (b: bool)
    requires x < |a.items|
    ensures hidden == {} ==> b
    ensures a.items[x].isToolStripItem && OrderCodec.EditorIdentifier(a.items[x]) != "" ==>
      (b <==> !Visibility.Hideable(a, x, hidden))
  {
    OrderCodec.EditorIdentifier(a.items[x]) !in hidden
  }

  /** The tree view after `tvMenuItems.Nodes.Clear()`. */
  const Empty: View := View([], [], [], [], [])

  /** `new TreeNode { Tag = x, Checked = checked }`: node `|v.tag|`, with no children and no
      parent. */
  function NewNode(v: View, x: Id, checked: bool): (w: View)
    requires Sized(v)
    ensures Sized(w) && |w.tag| == |v.tag| + 1 && w.top == v.top
    ensures w.tag[|v.tag|] == x && w.nodes[|v.tag|] == [] && w.parent[|v.tag|] == None && w.checked[|v.tag|] == checked
  {
    View(v.tag + [x], v.nodes + [[]], v.top, v.parent + [None], v.checked + [checked])
  }

  /** `node.Nodes.Add(child)`: `child` goes to the end of the list of `n` and gets `n` as its
      parent. */
  function AddChild(v: View, n: NodeId, child: NodeId): (w: View)
    requires Sized(v) && n < |v.tag| && child < |v.tag|
    ensures Sized(w) && w.tag == v.tag
  {
    v.(nodes := v.nodes[n := v.nodes[n] + [child]], parent := v.parent[child := Some(n)])
  }

  /** `tvMenuItems.Nodes.Add(node)`: a top-level node. */
  function AddTop(v: View, node: NodeId): View
  {
    v.(top := v.top + [node])
  }

  /** `CreateTreeNode(x)` on a view whose nodes are `0 .. |v.tag| - 1`: its node is
      `|v.tag|`; when `x` owns a collection, each child's node is created and added in turn. */
  function Created(a: Arena, hidden: set<string>, x: Id, v: View, free: set<Id>): (w: View)
    requires Valid(a) && x < |a.items| && Sized(v)
    ensures Sized(w) && |w.tag| > |v.tag|
    decreases free, 0, 0
  {
    var v1 := NewNode(v, x, IsChecked(a, hidden, x));
    if a.items[x].hasItems && x in free then ChildrenAdded(a, hidden, x, 0, |v.tag|, v1, free - {x})
    else v1
  }

  /** The loop of `CreateTreeNode` over the children `kids[c][i..]`, adding each child's node
      to the list of node `n`. */
  function ChildrenAdded(a: Arena, hidden: set<string>, c: Id, i: nat, n: NodeId, v: View, free: set<Id>): (w: View)
    requires Valid(a) && c < |a.items| && Sized(v) && n < |v.tag|
    ensures Sized(w) && |w.tag| >= |v.tag|
    decreases free, 1, |a.kids[c]| - i
  {
    if i >= |a.kids[c]| then v
    else
      var w := Created(a, hidden, a.kids[c][i], v, free);
      ChildrenAdded(a, hidden, c, i + 1, n, AddChild(w, n, |v.tag|), free)
  }

  /** The loop of `LoadMenuItems` over the main menu's items `kids[root][i..]`. */
  function LoadedFrom(a: Arena, hidden: set<string>, i: nat, v: View): (w: View)
    requires Valid(a) && Sized(v)
    ensures Sized(w) && |w.tag| >= |v.tag|
    decreases |a.kids[a.root]| - i
  {
    if i >= |a.kids[a.root]| then v
    else
      var w := Created(a, hidden, a.kids[a.root][i], v, Enterable(a));
      LoadedFrom(a, hidden, i + 1, AddTop(w, |v.tag|))
  }

  /** `LoadMenuItems` with the hidden set `hidden`: the view it leaves. On a tree-shaped
      menu it mirrors the menu: a forest whose nodes show the items the builder meets, each
      once, every list showing its collection in order, and each node checked exactly when
      its item's identifier is not hidden. */
  function Loaded(a: Arena, hidden: set<string>): (v: View)
    requires Valid(a)
    ensures Sized(v)
    ensures TreeShaped(a) ==>
      && Mirror(v, a) && Forest(v)
      && v.tag == TreeItems(a, a.root, 0, Enterable(a))
      && forall n | 0 <= n < |v.tag| :: v.checked[n] == IsChecked(a, hidden, v.tag[n])
  {
    LoadedFromEmptyOk(a, hidden);
    LoadedFrom(a, hidden, 0, Empty)
  }

  // ----- the view while it is being built -----

  predicate Pairwise(s: seq<Id>)
  {
    forall j, k | 0 <= j < k < |s| :: s[j] != s[k]
  }

  /** Every node shows an item other than the main menu and no item twice, its check box is
      set from the hidden set, and its parent was created before it. */
  ghost predicate NodesOk(v: View, a: Arena, hidden: set<string>)
  {
    && Valid(a) && Sized(v)
    && (forall m | 0 <= m < |v.tag| ::
          v.tag[m] < |a.items| && v.tag[m] != a.root && v.checked[m] == IsChecked(a, hidden, v.tag[m]))
    && Pairwise(v.tag)
    && (forall m | 0 <= m < |v.tag| && v.parent[m].Some? :: v.parent[m].value < m)
  }

  /** Every list holds each node once and only nodes that name it as their parent; a
      `loose` node (created, not yet added) has no parent and sits in no list, and every
      other node sits in the list its parent names. */
  ghost predicate Placed(v: View, loose: set<NodeId>)
    requires Sized(v)
  {
    && (forall p | Has(v, p) :: SlotOk(v, p))
    && (forall m | m in loose :: m < |v.tag| && v.parent[m].None? && m !in v.top)
    && (forall m | 0 <= m < |v.tag| && m !in loose :: Has(v, v.parent[m]) && m in Siblings(v, v.parent[m]))
  }

  /** The list of node `m` shows the collection of its item: all of it, or, while the node
      is `open` (still being filled), a prefix of it. */
  predicate Fills(v: View, a: Arena, m: NodeId, open: bool)
    requires Valid(a) && Sized(v) && m < |v.tag| && v.tag[m] < |a.items|
  {
    && (forall k | 0 <= k < |v.nodes[m]| :: v.nodes[m][k] < |v.tag|)
    && var t, x := Tags(v.tag, v.nodes[m]), v.tag[m];
       if open then a.items[x].hasItems && |t| <= |a.kids[x]| && t == a.kids[x][..|t|]
       else if a.items[x].hasItems then t == a.kids[x]
       else v.nodes[m] == []
  }

  /** Every node's list shows its collection, all of it unless the node is `open`, and the
      top-level list shows a prefix of the main menu's items. */
  ghost predicate Filled(v: View, a: Arena, open: set<NodeId>)
    requires Valid(a) && Sized(v)
    requires forall m | 0 <= m < |v.tag| :: v.tag[m] < |a.items|
  {
    && (forall m | m in open :: m < |v.tag|)
    && (forall m | 0 <= m < |v.tag| :: Fills(v, a, m, m in open))
    && (forall k | 0 <= k < |v.top| :: v.top[k] < |v.tag|)
    && |v.top| <= |a.kids[a.root]| && Tags(v.tag, v.top) == a.kids[a.root][..|v.top|]
  }

  /** The invariant of the builder. */
  ghost predicate Partial(v: View, a: Arena, hidden: set<string>, loose: set<NodeId>, open: set<NodeId>)
  {
    NodesOk(v, a, hidden) && Placed(v, loose) && Filled(v, a, open)
  }

  /** The items still to be met are new and not the main menu, and every id the walk may no
      longer enter is the main menu or already has a node. */
  ghost predicate Fresh(a: Arena, tag: seq<Id>, s: seq<Id>, free: set<Id>)
  {
    && Pairwise(tag + s) && a.root !in s
    && forall y: Id | y !in free && y < |a.items| :: y == a.root || y in tag
  }

  // ----- one step of the builder at a time -----

  /** Appending ids to the tag sequence leaves the items of existing lists alone. */
  lemma TagsExtend(tag: seq<Id>, more: seq<Id>, s: seq<NodeId>)
    requires forall k | 0 <= k < |s| :: s[k] < |tag|
    ensures Tags(tag + more, s) == Tags(tag, s)
  {
  }

  lemma AppendAssoc(x: seq<Id>, y: seq<Id>, z: seq<Id>)
    ensures (x + y) + z == x + (y + z)
  {
  }

  lemma PairwiseDistinct(s: seq<Id>)
    ensures Pairwise(s) <==> Distinct(s)
  {
    if Pairwise(s) { DistinctFromPairwise(s); }
    if Distinct(s) { DistinctPairwise(s); }
  }

  lemma DistinctAppend(s: seq<NodeId>, n: NodeId)
    requires Distinct(s) && n !in s
    ensures Distinct(s + [n])
  {
    DistinctPairwise(s);
    DistinctFromPairwise(s + [n]);
  }

  /** Creating a node for a new item keeps the invariant; the node is loose, and open when
      its item owns a collection. */
  lemma NewNodeOk(v: View, a: Arena, hidden: set<string>, loose: set<NodeId>, open: set<NodeId>, x: Id)
    requires Partial(v, a, hidden, loose, open)
    requires x < |a.items| && x != a.root && x !in v.tag
    ensures Partial(NewNode(v, x, IsChecked(a, hidden, x)), a, hidden, loose + {|v.tag|},
      if a.items[x].hasItems then open + {|v.tag|} else open)
  {
    NewNodeNodes(v, a, hidden, x);
    NewNodePlaced(v, loose, x, IsChecked(a, hidden, x));
    NewNodeFilled(v, a, open, x, IsChecked(a, hidden, x));
  }

  lemma NewNodeNodes(v: View, a: Arena, hidden: set<string>, x: Id)
    requires NodesOk(v, a, hidden) && x < |a.items| && x != a.root && x !in v.tag
    ensures NodesOk(NewNode(v, x, IsChecked(a, hidden, x)), a, hidden)
  {
    var n, w := |v.tag|, NewNode(v, x, IsChecked(a, hidden, x));
    forall j, k | 0 <= j < k < |w.tag| ensures w.tag[j] != w.tag[k] {
      if k == n { assert w.tag[j] == v.tag[j]; }
    }
  }

  lemma NewNodePlaced(v: View, loose: set<NodeId>, x: Id, checked: bool)
    requires Sized(v) && Placed(v, loose)
    ensures Placed(NewNode(v, x, checked), loose + {|v.tag|})
  {
    var n: NodeId, w := |v.tag|, NewNode(v, x, checked);
    assert SlotOk(v, None);
    forall p | Has(w, p) ensures SlotOk(w, p) {
      if p != Some(n) {
        assert Has(v, p) && SlotOk(v, p);
        assert Siblings(w, p) == Siblings(v, p);
      }
    }
    forall m | 0 <= m < |w.tag| && m !in loose + {n}
      ensures Has(w, w.parent[m]) && m in Siblings(w, w.parent[m])
    {
      assert Has(v, v.parent[m]) && m in Siblings(v, v.parent[m]);
    }
  }

  lemma NewNodeFilled(v: View, a: Arena, open: set<NodeId>, x: Id, checked: bool)
    requires Valid(a) && Sized(v) && x < |a.items|
    requires forall m | 0 <= m < |v.tag| :: v.tag[m] < |a.items|
    requires Filled(v, a, open)
    ensures Filled(NewNode(v, x, checked), a, if a.items[x].hasItems then open + {|v.tag|} else open)
  {
    var n, w := |v.tag|, NewNode(v, x, checked);
    var open' := if a.items[x].hasItems then open + {n} else open;
    forall m | 0 <= m < |w.tag| ensures Fills(w, a, m, m in open') {
      if m < n {
        assert Fills(v, a, m, m in open);
        TagsExtend(v.tag, [x], v.nodes[m]);
      }
    }
    TagsExtend(v.tag, [x], v.top);
  }

  /** Adding the loose, filled node `n` to the end of the open list of `k`, where the next
      item of `k`'s collection is `n`'s item, keeps the invariant; `n` is no longer loose. */
  lemma AddChildOk(v: View, a: Arena, hidden: set<string>, loose: set<NodeId>, open: set<NodeId>, k: NodeId, n: NodeId)
    requires Partial(v, a, hidden, loose, open)
    requires k in open && n in loose && n !in open && k < n
    requires |v.nodes[k]| < |a.kids[v.tag[k]]| && v.tag[n] == a.kids[v.tag[k]][|v.nodes[k]|]
    ensures Partial(AddChild(v, k, n), a, hidden, loose - {n}, open)
  {
    AddChildNodes(v, a, hidden, k, n);
    AddChildPlaced(v, loose, k, n);
    AddChildFilled(v, a, open, k, n);
  }

  lemma AddChildNodes(v: View, a: Arena, hidden: set<string>, k: NodeId, n: NodeId)
    requires NodesOk(v, a, hidden) && k < n < |v.tag|
    ensures NodesOk(AddChild(v, k, n), a, hidden)
  {
  }

  lemma AddChildPlaced(v: View, loose: set<NodeId>, k: NodeId, n: NodeId)
    requires Sized(v) && Placed(v, loose) && n in loose && k < |v.tag| && k != n
    ensures Placed(AddChild(v, k, n), loose - {n})
  {
    var w := AddChild(v, k, n);
    var L := v.nodes[k];
    assert Siblings(w, Some(k)) == L + [n];
    assert n !in L by {
      assert SlotOk(v, Some(k));
    }
    forall p | Has(w, p) ensures SlotOk(w, p) {
      assert SlotOk(v, p);
      if p == Some(k) {
        DistinctAppend(L, n);
      } else {
        assert Siblings(w, p) == Siblings(v, p);
        assert n !in Siblings(v, p);
      }
    }
    forall m | 0 <= m < |w.tag| && m !in loose - {n}
      ensures Has(w, w.parent[m]) && m in Siblings(w, w.parent[m])
    {
      if m != n {
        assert Has(v, v.parent[m]) && m in Siblings(v, v.parent[m]);
        assert v.parent[m] != Some(k) ==> Siblings(w, v.parent[m]) == Siblings(v, v.parent[m]);
      }
    }
  }

  lemma AddChildFilled(v: View, a: Arena, open: set<NodeId>, k: NodeId, n: NodeId)
    requires Valid(a) && Sized(v) && k < |v.tag| && n < |v.tag|
    requires forall m | 0 <= m < |v.tag| :: v.tag[m] < |a.items|
    requires Filled(v, a, open) && k in open
    requires |v.nodes[k]| < |a.kids[v.tag[k]]| && v.tag[n] == a.kids[v.tag[k]][|v.nodes[k]|]
    ensures Filled(AddChild(v, k, n), a, open)
  {
    var w := AddChild(v, k, n);
    var L := v.nodes[k];
    forall m | 0 <= m < |w.tag| ensures Fills(w, a, m, m in open) {
      assert Fills(v, a, m, m in open);
      if m == k {
        var x := v.tag[k];
        assert Tags(w.tag, L + [n]) == Tags(v.tag, L) + [v.tag[n]];
        assert a.kids[x][..|L| + 1] == a.kids[x][..|L|] + [a.kids[x][|L|]];
      }
    }
  }

  /** Adding the loose, filled node `n` to the top-level list, when the next item of the
      main menu is `n`'s item, keeps the invariant. */
  lemma AddTopOk(v: View, a: Arena, hidden: set<string>, loose: set<NodeId>, open: set<NodeId>, n: NodeId)
    requires Partial(v, a, hidden, loose, open)
    requires n in loose
    requires |v.top| < |a.kids[a.root]| && v.tag[n] == a.kids[a.root][|v.top|]
    ensures Partial(AddTop(v, n), a, hidden, loose - {n}, open)
  {
    assert NodesOk(AddTop(v, n), a, hidden);
    AddTopPlaced(v, loose, n);
    AddTopFilled(v, a, open, n);
  }

  lemma AddTopPlaced(v: View, loose: set<NodeId>, n: NodeId)
    requires Sized(v) && Placed(v, loose) && n in loose
    ensures Placed(AddTop(v, n), loose - {n})
  {
    var w := AddTop(v, n);
    assert SlotOk(v, None);
    DistinctAppend(v.top, n);
    forall p | Has(w, p) ensures SlotOk(w, p) {
      assert SlotOk(v, p);
    }
    forall m | 0 <= m < |w.tag| && m !in loose - {n}
      ensures Has(w, w.parent[m]) && m in Siblings(w, w.parent[m])
    {
      if m != n {
        assert Has(v, v.parent[m]) && m in Siblings(v, v.parent[m]);
      }
    }
  }

  lemma AddTopFilled(v: View, a: Arena, open: set<NodeId>, n: NodeId)
    requires Valid(a) && Sized(v) && n < |v.tag|
    requires forall m | 0 <= m < |v.tag| :: v.tag[m] < |a.items|
    requires Filled(v, a, open)
    requires |v.top| < |a.kids[a.root]| && v.tag[n] == a.kids[a.root][|v.top|]
    ensures Filled(AddTop(v, n), a, open)
  {
    var w := AddTop(v, n);
    forall m | 0 <= m < |w.tag| ensures Fills(w, a, m, m in open) {
      assert Fills(v, a, m, m in open);
    }
    assert Tags(w.tag, v.top + [n]) == Tags(v.tag, v.top) + [v.tag[n]];
    assert a.kids[a.root][..|v.top| + 1] == a.kids[a.root][..|v.top|] + [a.kids[a.root][|v.top|]];
  }

  /** An open node whose list has as many nodes as its collection has items is filled. */
  lemma CloseOk(v: View, a: Arena, hidden: set<string>, loose: set<NodeId>, open: set<NodeId>, k: NodeId)
    requires Partial(v, a, hidden, loose, open)
    requires k in open && |v.nodes[k]| == |a.kids[v.tag[k]]|
    ensures Partial(v, a, hidden, loose, open - {k})
  {
    forall m | 0 <= m < |v.tag| ensures Fills(v, a, m, m in open - {k}) {
      assert Fills(v, a, m, m in open);
    }
  }

  /** The items of a subtree are a prefix of what remains, and those after it remain once
      its nodes exist. */
  lemma FreshSplit(a: Arena, tag: seq<Id>, s: seq<Id>, t: seq<Id>, free: set<Id>)
    requires Fresh(a, tag, s + t, free)
    ensures Fresh(a, tag, s, free) && Fresh(a, tag + s, t, free)
  {
    assert tag + (s + t) == (tag + s) + t;
    forall j, k | 0 <= j < k < |tag + s| ensures (tag + s)[j] != (tag + s)[k] {
      assert (tag + s)[j] == (tag + (s + t))[j] && (tag + s)[k] == (tag + (s + t))[k];
    }
  }

  /** The next item is new and not the main menu, so the walk may still enter it. */
  lemma FreshFirst(a: Arena, tag: seq<Id>, s: seq<Id>, free: set<Id>)
    requires Fresh(a, tag, s, free) && |s| > 0 && s[0] < |a.items|
    ensures s[0] !in tag && s[0] != a.root && s[0] in free
  {
    assert s[0] in s;
    forall j | 0 <= j < |tag| ensures tag[j] != s[0] {
      assert (tag + s)[j] == tag[j] && (tag + s)[|tag|] == s[0];
    }
  }

  /** Entering the next item: it has its node, and the walk may no longer enter it. */
  lemma FreshEnter(a: Arena, tag: seq<Id>, x: Id, rest: seq<Id>, free: set<Id>)
    requires Fresh(a, tag, [x] + rest, free)
    ensures Fresh(a, tag + [x], rest, free - {x})
  {
    AppendAssoc(tag, [x], rest);
  }

  // ----- the builder keeps the invariant -----

  /** `CreateTreeNode(x)` creates the nodes of the items of `x`'s subtree, leaves its own
      node loose and filled, and touches no existing list. */
  lemma {:induction false} CreatedOk(a: Arena, hidden: set<string>, x: Id, v: View, free: set<Id>,
                                     loose: set<NodeId>, open: set<NodeId>)
    requires Partial(v, a, hidden, loose, open) && x < |a.items|
    requires Fresh(a, v.tag, Subtree(a, x, free), free)
    ensures var w := Created(a, hidden, x, v, free);
      && Partial(w, a, hidden, loose + {|v.tag|}, open)
      && w.tag == v.tag + Subtree(a, x, free)
      && w.top == v.top
      && forall m | 0 <= m < |v.tag| :: w.nodes[m] == v.nodes[m]
    decreases free, 0, 0, 1
  {
    var n := |v.tag|;
    var s := Subtree(a, x, free);
    FreshFirst(a, v.tag, s, free);
    NewNodeOk(v, a, hidden, loose, open, x);
    if a.items[x].hasItems && x in free {
      EnteredOk(a, hidden, x, v, free, loose, open);
    }
  }

  /** The descent of `CreateTreeNode` into an item with children: the new node's list
      receives the whole collection and is then closed. */
  lemma EnteredOk(a: Arena, hidden: set<string>, x: Id, v: View, free: set<Id>,
                  loose: set<NodeId>, open: set<NodeId>)
    requires Valid(a) && Sized(v) && x < |a.items| && x in free && a.items[x].hasItems
    requires |v.tag| !in open
    requires Partial(NewNode(v, x, IsChecked(a, hidden, x)), a, hidden, loose + {|v.tag|}, open + {|v.tag|})
    requires Fresh(a, v.tag, Subtree(a, x, free), free)
    ensures var w := ChildrenAdded(a, hidden, x, 0, |v.tag|, NewNode(v, x, IsChecked(a, hidden, x)), free - {x});
      && Partial(w, a, hidden, loose + {|v.tag|}, open)
      && w.tag == v.tag + Subtree(a, x, free)
      && w.top == v.top
      && forall m | 0 <= m < |v.tag| :: w.nodes[m] == v.nodes[m]
    decreases free, 0, 0, 0
  {
    var n := |v.tag|;
    var v1 := NewNode(v, x, IsChecked(a, hidden, x));
    var rest := TreeItems(a, x, 0, free - {x});
    FreshEnter(a, v.tag, x, rest, free);
    AppendAssoc(v.tag, [x], rest);
    ChildrenOk(a, hidden, x, 0, n, v1, free - {x}, loose + {n}, open + {n});
    var w := ChildrenAdded(a, hidden, x, 0, n, v1, free - {x});
    CloseOk(w, a, hidden, loose + {n}, open + {n}, n);
    assert (open + {n}) - {n} == open;
  }

  /** The loop over `kids[c][i..]` fills the open list of `n` to the end of its collection
      and touches no other existing list. */
  lemma {:induction false} ChildrenOk(a: Arena, hidden: set<string>, c: Id, i: nat, n: NodeId, v: View,
                                      free: set<Id>, loose: set<NodeId>, open: set<NodeId>)
    requires Partial(v, a, hidden, loose, open)
    requires n in open && v.tag[n] == c && i <= |a.kids[c]| && |v.nodes[n]| == i
    requires Fresh(a, v.tag, TreeItems(a, c, i, free), free)
    ensures var w := ChildrenAdded(a, hidden, c, i, n, v, free);
      && Partial(w, a, hidden, loose, open)
      && w.tag == v.tag + TreeItems(a, c, i, free)
      && w.top == v.top
      && |w.nodes[n]| == |a.kids[c]|
      && forall m | 0 <= m < |v.tag| && m != n :: w.nodes[m] == v.nodes[m]
    decreases free, 1, |a.kids[c]| - i, 1
  {
    if i < |a.kids[c]| {
      var x, m: NodeId := a.kids[c][i], |v.tag|;
      var s, t := Subtree(a, x, free), TreeItems(a, c, i + 1, free);
      FreshSplit(a, v.tag, s, t, free);
      ChildCreatedOk(a, hidden, c, i, n, v, free, loose, open);
      var v2 := AddChild(Created(a, hidden, x, v, free), n, m);
      ChildrenOk(a, hidden, c, i + 1, n, v2, free, loose, open);
      AppendAssoc(v.tag, s, t);
    }
  }

  /** One round of the loop of `CreateTreeNode`: the child's node is created and added to
      the list of `n`, which grows by one. */
  lemma ChildCreatedOk(a: Arena, hidden: set<string>, c: Id, i: nat, n: NodeId, v: View,
                       free: set<Id>, loose: set<NodeId>, open: set<NodeId>)
    requires Partial(v, a, hidden, loose, open)
    requires n in open && v.tag[n] == c && i < |a.kids[c]| && |v.nodes[n]| == i
    requires Fresh(a, v.tag, Subtree(a, a.kids[c][i], free), free)
    ensures var v2 := AddChild(Created(a, hidden, a.kids[c][i], v, free), n, |v.tag|);
      && Partial(v2, a, hidden, loose, open)
      && v2.tag == v.tag + Subtree(a, a.kids[c][i], free)
      && v2.top == v.top
      && |v2.nodes[n]| == i + 1
      && forall m | 0 <= m < |v.tag| && m != n :: v2.nodes[m] == v.nodes[m]
    decreases free, 1, |a.kids[c]| - i, 0
  {
    var x, m: NodeId := a.kids[c][i], |v.tag|;
    CreatedOk(a, hidden, x, v, free, loose, open);
    var w1 := Created(a, hidden, x, v, free);
    assert w1.tag[n] == c && w1.tag[m] == x && w1.nodes[n] == v.nodes[n];
    var v2 := AddChild(w1, n, m);
    assert v2.nodes == w1.nodes[n := v.nodes[n] + [m]];
    AddChildOk(w1, a, hidden, loose + {m}, open, n, m);
    assert (loose + {m}) - {m} == loose;
  }

  /** The loop of `LoadMenuItems` from `kids[root][i]` on fills the top-level list. */
  lemma {:induction false} LoadedFromOk(a: Arena, hidden: set<string>, i: nat, v: View)
    requires Partial(v, a, hidden, {}, {}) && |v.top| == i
    requires Fresh(a, v.tag, TreeItems(a, a.root, i, Enterable(a)), Enterable(a))
    ensures var w := LoadedFrom(a, hidden, i, v);
      Partial(w, a, hidden, {}, {}) && |w.top| == |a.kids[a.root]|
      && w.tag == v.tag + TreeItems(a, a.root, i, Enterable(a))
    decreases |a.kids[a.root]| - i
  {
    var free := Enterable(a);
    if i < |a.kids[a.root]| {
      var x, m := a.kids[a.root][i], |v.tag|;
      var s, t := Subtree(a, x, free), TreeItems(a, a.root, i + 1, free);
      FreshSplit(a, v.tag, s, t, free);
      CreatedOk(a, hidden, x, v, free, {}, {});
      var w1 := Created(a, hidden, x, v, free);
      assert w1.tag[m] == x;
      AddTopOk(w1, a, hidden, {m}, {}, m);
      assert {m} - {m} == {};
      LoadedFromOk(a, hidden, i + 1, AddTop(w1, m));
      AppendAssoc(v.tag, s, t);
    } else {
      assert i == |a.kids[a.root]|;
    }
  }

  /** Parent chains that always lead to an earlier node end. */
  lemma {:induction false} RootedFromEarlier(v: View, x: NodeId, fuel: nat)
    requires Sized(v) && x < |v.tag| && x <= fuel
    requires forall m | 0 <= m < |v.tag| && v.parent[m].Some? :: v.parent[m].value < m
    ensures Rooted(v, x, fuel)
    decreases fuel
  {
    if v.parent[x].Some? {
      RootedFromEarlier(v, v.parent[x].value, fuel - 1);
    }
  }

  /** A finished view: no loose or open node, and every item of the main menu has its
      top-level node. */
  lemma FinishedMirrors(v: View, a: Arena, hidden: set<string>)
    requires Partial(v, a, hidden, {}, {}) && |v.top| == |a.kids[a.root]|
    ensures Mirror(v, a) && Forest(v)
  {
    PairwiseDistinct(v.tag);
    assert Tagged(v, a);
    assert ViewOk(v);
    forall p | Has(v, p) ensures Shows(v, a, p) {
      assert SlotOk(v, p);
      if p.Some? {
        var none: set<NodeId> := {};
        assert Fills(v, a, p.value, p.value in none);
      } else {
        assert a.kids[a.root][..|v.top|] == a.kids[a.root];
      }
    }
    forall x | 0 <= x < |v.tag| ensures Grounded(v, x) {
      RootedFromEarlier(v, x, x);
    }
  }

  /** The proof behind `Loaded`'s contract. */
  lemma LoadedFromEmptyOk(a: Arena, hidden: set<string>)
    requires Valid(a)
    ensures TreeShaped(a) ==>
      var v := LoadedFrom(a, hidden, 0, Empty);
      && Mirror(v, a) && Forest(v)
      && v.tag == TreeItems(a, a.root, 0, Enterable(a))
      && forall n | 0 <= n < |v.tag| :: v.checked[n] == IsChecked(a, hidden, v.tag[n])
  {
    if TreeShaped(a) {
      LoadedFromEmptyMirrors(a, hidden);
    }
  }

  lemma LoadedFromEmptyMirrors(a: Arena, hidden: set<string>)
    requires Valid(a) && TreeShaped(a)
    ensures var v := LoadedFrom(a, hidden, 0, Empty);
      && Mirror(v, a) && Forest(v)
      && v.tag == TreeItems(a, a.root, 0, Enterable(a))
      && forall n | 0 <= n < |v.tag| :: v.checked[n] == IsChecked(a, hidden, v.tag[n])
  {
    var s := TreeItems(a, a.root, 0, Enterable(a));
    PairwiseDistinct(s);
    assert Empty.tag + s == s;
    forall p | Has(Empty, p) ensures SlotOk(Empty, p) {
      assert Siblings(Empty, p) == [];
    }
    assert Partial(Empty, a, hidden, {}, {});
    LoadedFromOk(a, hidden, 0, Empty);
    FinishedMirrors(LoadedFrom(a, hidden, 0, Empty), a, hidden);
  }
}
