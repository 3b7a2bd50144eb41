/** The editor's presentation tree and the move both editor handlers funnel into.

    The tree view is a value: node `n` shows the live item `tag[n]` (its `Tag`), `nodes[n]`
    is its ordered child node list, `top` the view's own top-level list, `parent[n]` its
    `Parent` (`None` at top level) and `checked[n]` its check box. A node list is named by
    the node that owns it, `None` standing for the top level. */
module Arrangement {
  import opened Menus

  type NodeId = nat

  datatype View = View(
    tag: seq<Id>,
    nodes: seq<seq<NodeId>>,
    top: seq<NodeId>,
    parent: seq<Option<NodeId>>,
    checked: seq<bool>)

  /** The editor's state: its tree view and the host's live menu. */
  datatype Arrangement = Arrangement(view: View, menu: Arena)

  predicate Sized(v: View)
  {
    |v.nodes| == |v.tag| && |v.parent| == |v.tag| && |v.checked| == |v.tag|
  }

  /** `p` names a node list of `v`. */
  predicate Has(v: View, p: Option<NodeId>)
  {
    p.Some? ==> p.value < |v.nodes|
  }

  /** The node list `p`: `tvMenuItems.Nodes` for `None`, `p.Nodes` otherwise. */
  function Siblings(v: View, p: Option<NodeId>): seq<NodeId>
    requires Has(v, p)
  {
    if p.None? then v.top else v.nodes[p.value]
  }

  /** `v` with node list `p` replaced by `s`. */
  function WithSiblings(v: View, p: Option<NodeId>, s: seq<NodeId>): (w: View)
    requires Has(v, p)
    ensures w.tag == v.tag && w.parent == v.parent && w.checked == v.checked
    ensures |w.nodes| == |v.nodes|
    ensures forall q | Has(v, q) :: Siblings(w, q) == if q == p then s else Siblings(v, q)
  {
    if p.None? then v.(top := s) else v.(nodes := v.nodes[p.value := s])
  }

  /** Node list `p` holds each node once, and holds exactly the nodes whose parent is `p`. */
  predicate SlotOk(v: View, p: Option<NodeId>)
    requires Sized(v) && Has(v, p)
  {
    && Distinct(Siblings(v, p))
    && forall m | m in Siblings(v, p) :: m < |v.tag| && v.parent[m] == p
  }

  /** A well-formed view: every node sits in exactly one list, the one its `Parent` names. */
  ghost predicate ViewOk(v: View)
  {
    && Sized(v)
    && (forall p | Has(v, p) :: SlotOk(v, p))
    && (forall m | 0 <= m < |v.tag| :: Has(v, v.parent[m]) && m in Siblings(v, v.parent[m]))
  }

  /** Every node shows an item of the arena other than the main menu, and no two nodes
      show the same item. */
  predicate Tagged(v: View, a: Arena)
  {
    && Valid(a) && Sized(v)
    && (forall n | 0 <= n < |v.tag| :: v.tag[n] < |a.items| && v.tag[n] != a.root)
    && Distinct(v.tag)
  }

  /** The menu container behind node list `p`: the main menu for the top level, the item of
      node `p` when it owns a collection, none otherwise. */
  function Collection(v: View, a: Arena, p: Option<NodeId>): (c: Option<Id>)
    requires Tagged(v, a) && Has(v, p)
    ensures c.Some? ==> c.value < |a.items|
    ensures p.None? ==> c == Some(a.root)
    ensures p.Some? && c.Some? ==> c.value == v.tag[p.value] && c.value != a.root
  {
    if p.None? then Some(a.root)
    else if a.items[v.tag[p.value]].hasItems then Some(v.tag[p.value])
    else None
  }

  /** The items the nodes of `s` show. */
  function Tags(tag: seq<Id>, s: seq<NodeId>): (t: seq<Id>)
    requires forall k | 0 <= k < |s| :: s[k] < |tag|
    ensures |t| == |s|
    ensures forall k | 0 <= k < |s| :: t[k] == tag[s[k]]
  {
    seq(|s|, k requires 0 <= k < |s| => tag[s[k]])
  }

  /** Node list `p` shows its container's collection, item by item, in order; a node whose
      item owns no collection has no child nodes. */
  predicate Shows(v: View, a: Arena, p: Option<NodeId>)
    requires Tagged(v, a) && Has(v, p)
  {
    && (forall k | 0 <= k < |Siblings(v, p)| :: Siblings(v, p)[k] < |v.tag|)
    && match Collection(v, a, p)
       case None => Siblings(v, p) == []
       case Some(c) => Tags(v.tag, Siblings(v, p)) == a.kids[c]
  }

  /** The tree view mirrors the live menu. */
  ghost predicate Mirror(v: View, a: Arena)
  {
    Tagged(v, a) && ViewOk(v) && forall p | Has(v, p) :: Shows(v, a, p)
  }

  /** The mirror carries over to an equal arrangement, whatever term names it. */
  lemma MirrorOfEqual(x: Arrangement, y: Arrangement)
    requires x == y && Mirror(x.view, x.menu)
    ensures Mirror(y.view, y.menu)
  {
  }

  /** `TreeNode.Index`: the position of `n` in its own node list. */
  function Index(v: View, n: NodeId): (i: nat)
    requires ViewOk(v) && n < |v.tag|
    ensures i < |Siblings(v, v.parent[n])| && Siblings(v, v.parent[n])[i] == n
  {
    FirstIndex(Siblings(v, v.parent[n]), n).value
  }

  /** `GetItemIndex`: the index of the first `x` in `s`, -1 when there is none. */
  function IndexOf(s: seq<Id>, x: Id): (r: int)
    ensures r == -1 <==> x !in s
    ensures r != -1 ==> 0 <= r < |s| && s[r] == x && x !in s[..r]
  {
    match FirstIndex(s, x)
    case None => -1
    case Some(i) => i
  }

  /** `TreeNodeCollection.Remove(n)`. */
  function RemoveNode(s: seq<NodeId>, n: NodeId): seq<NodeId>
  {
    match FirstIndex(s, n)
    case None => s
    case Some(i) => RemoveAt(s, i)
  }

  /** Node `n` taken out of its node list. */
  function Detach(v: View, n: NodeId): View
    requires ViewOk(v) && n < |v.tag|
  {
    WithSiblings(v, v.parent[n], RemoveNode(Siblings(v, v.parent[n]), n))
  }

  /** Node `n` inserted into list `np` at `k` (appended when `k` is out of range). */
  function Attach(v: View, n: NodeId, np: Option<NodeId>, k: int): View
    requires Sized(v) && Has(v, np) && n < |v.tag|
  {
    var w := WithSiblings(v, np, InsertOrAdd(Siblings(v, np), k, n));
    w.(parent := w.parent[n := np])
  }

  /** `MoveNode(node, newParent, newIndex)`: nothing happens when the target node owns no
      collection; otherwise the node leaves its list and its item leaves the current
      collection (when found there), the index is lowered by one when both lie in the same
      collection and the item stood before it, and node and item go in at that index, or at
      the end when it is out of range. */
  function MoveNode(s: Arrangement, n: NodeId, newParent: Option<NodeId>, newIndex: int): (r: Arrangement)
    requires Tagged(s.view, s.menu) && ViewOk(s.view) && n < |s.view.tag| && Has(s.view, newParent)
    ensures r.view.tag == s.view.tag && r.view.checked == s.view.checked
    ensures |r.view.nodes| == |s.view.nodes| && |r.view.parent| == |s.view.parent|
    ensures r.menu.items == s.menu.items && r.menu.visible == s.menu.visible && r.menu.root == s.menu.root
    ensures |r.menu.kids| == |s.menu.kids|
  {
    var v, a := s.view, s.menu;
    match Collection(v, a, newParent)
    case None => s
    case Some(target) =>
      var current := Collection(v, a, v.parent[n]);
      var oldIndex := if current.Some? then IndexOf(a.kids[current.value], v.tag[n]) else -1;
      var a1 := if oldIndex >= 0 then a.(kids := a.kids[current.value := RemoveAt(a.kids[current.value], oldIndex)]) else a;
      var k := if current == Some(target) && oldIndex >= 0 && oldIndex < newIndex then newIndex - 1 else newIndex;
      Arrangement(
        Attach(Detach(v, n), n, newParent, k),
        a1.(kids := a1.kids[target := InsertOrAdd(a1.kids[target], k, v.tag[n])]))
  }

  // ----- sequence facts -----

  lemma RemoveAtDistinct(s: seq<Id>, i: nat)
    requires Distinct(s) && i < |s|
    ensures Distinct(RemoveAt(s, i))
    ensures forall x :: x in RemoveAt(s, i) <==> x in s && x != s[i]
  {
    var r := RemoveAt(s, i);
    DistinctPairwise(s);
    DistinctFromPairwise(r);
    forall x ensures x in r <==> x in s && x != s[i] {
      if x in r {
        var j :| 0 <= j < |r| && r[j] == x;
        if j < i { assert s[j] == x; } else { assert s[j + 1] == x; }
      }
      if x in s && x != s[i] {
        var j :| 0 <= j < |s| && s[j] == x;
        if j < i { assert r[j] == x; } else { assert r[j - 1] == x; }
      }
    }
  }

  lemma InsertOrAddDistinct(s: seq<Id>, k: int, x: Id)
    requires Distinct(s) && x !in s
    ensures Distinct(InsertOrAdd(s, k, x))
    ensures forall y :: y in InsertOrAdd(s, k, x) <==> y in s || y == x
  {
    var r := InsertOrAdd(s, k, x);
    DistinctPairwise(s);
    if 0 <= k <= |s| {
      InsertOrAddSlices(s, k, x);
      assert s == s[..k] + s[k..];
    }
    DistinctFromPairwise(r);
  }

  lemma TagsRemoveAt(tag: seq<Id>, s: seq<NodeId>, i: nat)
    requires forall k | 0 <= k < |s| :: s[k] < |tag|
    requires i < |s|
    ensures Tags(tag, RemoveAt(s, i)) == RemoveAt(Tags(tag, s), i)
  {
  }

  lemma TagsInsertOrAdd(tag: seq<Id>, s: seq<NodeId>, k: int, n: NodeId)
    requires forall j | 0 <= j < |s| :: s[j] < |tag|
    requires n < |tag|
    ensures Tags(tag, InsertOrAdd(s, k, n)) == InsertOrAdd(Tags(tag, s), k, tag[n])
  {
    var r, t := InsertOrAdd(s, k, n), InsertOrAdd(Tags(tag, s), k, tag[n]);
    if 0 <= k <= |s| {
      forall j | 0 <= j < |r| ensures Tags(tag, r)[j] == t[j] {
        if j < k {
          assert r[j] == r[..k][j] == s[..k][j];
          assert t[j] == t[..k][j] == Tags(tag, s)[..k][j];
        } else if j > k {
          assert r[j] == r[k + 1..][j - k - 1] == s[k..][j - k - 1];
          assert t[j] == t[k + 1..][j - k - 1] == Tags(tag, s)[k..][j - k - 1];
        }
      }
    }
  }

  // ----- the move keeps the view well formed -----

  /** A view whose node `n` sits in no list and every other node as in a well-formed view. */
  ghost predicate Loose(w: View, n: NodeId)
  {
    && Sized(w) && n < |w.tag|
    && (forall p | Has(w, p) :: LooseSlot(w, p, n))
    && (forall m | 0 <= m < |w.tag| :: Has(w, w.parent[m]) && (m != n ==> m in Siblings(w, w.parent[m])))
  }

  predicate LooseSlot(w: View, p: Option<NodeId>, n: NodeId)
    requires Sized(w) && Has(w, p)
  {
    && Distinct(Siblings(w, p))
    && forall m | m in Siblings(w, p) :: m < |w.tag| && m != n && w.parent[m] == p
  }

  lemma DetachLoose(v: View, n: NodeId)
    requires ViewOk(v) && n < |v.tag|
    ensures Loose(Detach(v, n), n) && Detach(v, n).parent == v.parent
  {
    var p := v.parent[n];
    var S := Siblings(v, p);
    var i := FirstIndex(S, n).value;
    assert SlotOk(v, p);
    RemoveAtDistinct(S, i);
    var w := Detach(v, n);
    forall q | Has(w, q) ensures LooseSlot(w, q, n) {
      assert SlotOk(v, q);
    }
    forall m | 0 <= m < |w.tag| && m != n ensures m in Siblings(w, w.parent[m]) {
      assert m in Siblings(v, v.parent[m]);
    }
  }

  lemma AttachOk(w: View, n: NodeId, np: Option<NodeId>, k: int)
    requires Loose(w, n) && Has(w, np)
    ensures ViewOk(Attach(w, n, np, k))
  {
    var S := Siblings(w, np);
    assert LooseSlot(w, np, n);
    InsertOrAddDistinct(S, k, n);
    var u := Attach(w, n, np, k);
    forall q | Has(u, q) ensures SlotOk(u, q) {
      assert LooseSlot(w, q, n);
    }
  }

  /** Replacing one node list, and the collection it shows, by matching contents keeps
      every node list showing its collection. */
  lemma ShowsReplace(v: View, a: Arena, p: Option<NodeId>, c: Id, s: seq<NodeId>, t: seq<Id>)
    requires Tagged(v, a) && Has(v, p) && Collection(v, a, p) == Some(c)
    requires forall q | Has(v, q) && q != p :: Shows(v, a, q)
    requires forall k | 0 <= k < |s| :: s[k] < |v.tag|
    requires Tags(v.tag, s) == t
    ensures Tagged(WithSiblings(v, p, s), a.(kids := a.kids[c := t]))
    ensures forall q | Has(v, q) :: Shows(WithSiblings(v, p, s), a.(kids := a.kids[c := t]), q)
  {
    var w, b := WithSiblings(v, p, s), a.(kids := a.kids[c := t]);
    assert Tagged(w, b);
    forall q | Has(v, q) ensures Shows(w, b, q) {
      if q != p {
        assert Shows(v, a, q);
        assert Collection(w, b, q) == Collection(v, a, q);
      }
    }
  }

  /** In a mirrored view a node's item stands in its container's collection at the node's
      own index. */
  lemma ItemAtIndex(v: View, a: Arena, n: NodeId)
    requires Mirror(v, a) && n < |v.tag|
    ensures Collection(v, a, v.parent[n]).Some?
    ensures IndexOf(a.kids[Collection(v, a, v.parent[n]).value], v.tag[n]) == Index(v, n)
  {
    assert Shows(v, a, v.parent[n]) && SlotOk(v, v.parent[n]);
  }

  /** Taking node `n` out of its list and its item out of its collection leaves a view that
      still shows every collection. */
  lemma DetachShows(v: View, a: Arena, n: NodeId, c: Id, i: nat)
    requires Mirror(v, a) && n < |v.tag|
    requires Collection(v, a, v.parent[n]) == Some(c) && i == Index(v, n)
    ensures i < |a.kids[c]|
    ensures var a1 := a.(kids := a.kids[c := RemoveAt(a.kids[c], i)]);
      Tagged(Detach(v, n), a1) && Loose(Detach(v, n), n) && forall q | Has(v, q) :: Shows(Detach(v, n), a1, q)
  {
    var S := Siblings(v, v.parent[n]);
    assert Shows(v, a, v.parent[n]) && SlotOk(v, v.parent[n]);
    TagsRemoveAt(v.tag, S, i);
    ShowsReplace(v, a, v.parent[n], c, RemoveAt(S, i), RemoveAt(a.kids[c], i));
    DetachLoose(v, n);
  }

  /** Putting the loose node `n` into list `np` and its item into that list's collection at
      the same index restores the mirror. */
  lemma AttachMirror(w: View, b: Arena, n: NodeId, np: Option<NodeId>, target: Id, k: int)
    requires Tagged(w, b) && Loose(w, n) && forall q | Has(w, q) :: Shows(w, b, q)
    requires Has(w, np) && Collection(w, b, np) == Some(target)
    ensures Mirror(Attach(w, n, np, k), b.(kids := b.kids[target := InsertOrAdd(b.kids[target], k, w.tag[n])]))
  {
    AttachShows(w, b, n, np, target, k);
    AttachOk(w, n, np, k);
  }

  lemma AttachShows(w: View, b: Arena, n: NodeId, np: Option<NodeId>, target: Id, k: int)
    requires Tagged(w, b) && Loose(w, n) && forall q | Has(w, q) :: Shows(w, b, q)
    requires Has(w, np) && Collection(w, b, np) == Some(target)
    ensures var u, b2 := Attach(w, n, np, k), b.(kids := b.kids[target := InsertOrAdd(b.kids[target], k, w.tag[n])]);
      Tagged(u, b2) && forall q | Has(u, q) :: Shows(u, b2, q)
  {
    var S := Siblings(w, np);
    assert Shows(w, b, np);
    TagsInsertOrAdd(w.tag, S, k, n);
    ShowsReplace(w, b, np, target, InsertOrAdd(S, k, n), InsertOrAdd(b.kids[target], k, w.tag[n]));
    var u := WithSiblings(w, np, InsertOrAdd(S, k, n));
    var b2 := b.(kids := b.kids[target := InsertOrAdd(b.kids[target], k, w.tag[n])]);
    forall q | Has(u, q) ensures Shows(u, b2, q) {
      assert Has(w, q);
    }
    ShowsIgnoresParent(u, b2, u.parent[n := np]);
  }

  /** Which list a node names as its parent plays no part in what the lists show. */
  lemma ShowsIgnoresParent(u: View, b: Arena, parent: seq<Option<NodeId>>)
    requires Tagged(u, b) && |parent| == |u.parent|
    requires forall q | Has(u, q) :: Shows(u, b, q)
    ensures Tagged(u.(parent := parent), b)
    ensures forall q | Has(u.(parent := parent), q) :: Shows(u.(parent := parent), b, q)
  {
    var x := u.(parent := parent);
    forall q | Has(x, q) ensures Shows(x, b, q) {
      assert Shows(u, b, q) && Siblings(x, q) == Siblings(u, q) && Collection(x, b, q) == Collection(u, b, q);
    }
  }

  /** `MoveNode` keeps the view a mirror of the menu. */
  lemma MoveNodeKeepsMirror(s: Arrangement, n: NodeId, newParent: Option<NodeId>, newIndex: int)
    requires Mirror(s.view, s.menu) && n < |s.view.tag| && Has(s.view, newParent)
    ensures var r := MoveNode(s, n, newParent, newIndex); Mirror(r.view, r.menu)
  {
    var v, a := s.view, s.menu;
    if Collection(v, a, newParent).Some? {
      var target := Collection(v, a, newParent).value;
      var k := Adjusted(v, n, newParent, newIndex);
      MoveNodeParts(s, n, newParent, newIndex, target);
      var c, i := Collection(v, a, v.parent[n]).value, Index(v, n);
      DetachShows(v, a, n, c, i);
      var a1 := a.(kids := a.kids[c := RemoveAt(a.kids[c], i)]);
      assert Collection(Detach(v, n), a1, newParent) == Some(target);
      AttachMirror(Detach(v, n), a1, n, newParent, target, k);
    }
  }

  // ----- what the move does to the lists -----

  /** Different node lists stand for different collections. */
  lemma CollectionsDiffer(v: View, a: Arena, p: Option<NodeId>, q: Option<NodeId>)
    requires Tagged(v, a) && Has(v, p) && Has(v, q) && p != q
    requires Collection(v, a, p).Some? && Collection(v, a, q).Some?
    ensures Collection(v, a, p).value != Collection(v, a, q).value
  {
  }

  /** The index the node goes in at: one lower when it moves forward within its own list. */
  function Adjusted(v: View, n: NodeId, np: Option<NodeId>, newIndex: int): int
    requires ViewOk(v) && n < |v.tag|
  {
    if v.parent[n] == np && Index(v, n) < newIndex then newIndex - 1 else newIndex
  }

  /** Two views with the same lists and attributes are equal. */
  lemma ViewExt(v: View, w: View)
    requires Sized(v) && w.tag == v.tag && w.parent == v.parent && w.checked == v.checked
    requires |w.nodes| == |v.nodes|
    requires forall q | Has(v, q) :: Siblings(w, q) == Siblings(v, q)
    ensures w == v
  {
    assert Siblings(w, None) == Siblings(v, None);
    forall q | 0 <= q < |v.nodes| ensures w.nodes[q] == v.nodes[q] {
      assert Siblings(w, Some(q)) == Siblings(v, Some(q));
    }
  }

  /** Under the mirror, `MoveNode` into a list with a collection is a detach and an attach at
      the adjusted index on the view, and a relocation of the node's item on the menu. */
  lemma MoveNodeParts(s: Arrangement, n: NodeId, np: Option<NodeId>, newIndex: int, target: Id)
    requires Mirror(s.view, s.menu) && n < |s.view.tag| && Has(s.view, np)
    requires Collection(s.view, s.menu, np) == Some(target)
    ensures Collection(s.view, s.menu, s.view.parent[n]).Some?
    ensures Index(s.view, n) < |s.menu.kids[Collection(s.view, s.menu, s.view.parent[n]).value]|
    ensures var v, a := s.view, s.menu;
      var k := Adjusted(v, n, np, newIndex);
      MoveNode(s, n, np, newIndex) ==
        Arrangement(Attach(Detach(v, n), n, np, k),
          Relocate(a, Location(Collection(v, a, v.parent[n]).value, Index(v, n)), target, k, v.tag[n]))
  {
    ItemAtIndex(s.view, s.menu, n);
    MoveNodeSplits(s, n, np, newIndex, target);
  }

  lemma MoveNodeSplits(s: Arrangement, n: NodeId, np: Option<NodeId>, newIndex: int, target: Id)
    requires Tagged(s.view, s.menu) && ViewOk(s.view) && n < |s.view.tag| && Has(s.view, np)
    requires Collection(s.view, s.menu, np) == Some(target)
    requires Collection(s.view, s.menu, s.view.parent[n]).Some?
    requires IndexOf(s.menu.kids[Collection(s.view, s.menu, s.view.parent[n]).value], s.view.tag[n]) == Index(s.view, n)
    ensures var v, a := s.view, s.menu;
      var k := Adjusted(v, n, np, newIndex);
      MoveNode(s, n, np, newIndex) ==
        Arrangement(Attach(Detach(v, n), n, np, k),
          Relocate(a, Location(Collection(v, a, v.parent[n]).value, Index(v, n)), target, k, v.tag[n]))
  {
    var v, a := s.view, s.menu;
    if v.parent[n] != np {
      CollectionsDiffer(v, a, v.parent[n], np);
    }
  }

  /** The view half of `MoveNodeSplits`. */
  lemma MoveNodeViewSplits(s: Arrangement, n: NodeId, np: Option<NodeId>, newIndex: int)
    requires Tagged(s.view, s.menu) && ViewOk(s.view) && n < |s.view.tag| && Has(s.view, np)
    requires Collection(s.view, s.menu, np).Some?
    requires Collection(s.view, s.menu, s.view.parent[n]).Some?
    requires IndexOf(s.menu.kids[Collection(s.view, s.menu, s.view.parent[n]).value], s.view.tag[n]) == Index(s.view, n)
    ensures MoveNode(s, n, np, newIndex).view == Attach(Detach(s.view, n), n, np, Adjusted(s.view, n, np, newIndex))
  {
    var v, a := s.view, s.menu;
    if v.parent[n] != np {
      CollectionsDiffer(v, a, v.parent[n], np);
    }
  }

  /** The lists after taking `n` out of its list and putting it into list `np` at `k`. */
  lemma DetachAttachLists(v: View, n: NodeId, np: Option<NodeId>, k: int)
    requires ViewOk(v) && n < |v.tag| && Has(v, np)
    ensures var r := Attach(Detach(v, n), n, np, k);
      && r.tag == v.tag && r.checked == v.checked && r.parent == v.parent[n := np]
      && |r.nodes| == |v.nodes|
      && (forall q | Has(v, q) :: Siblings(Detach(v, n), q) ==
            if q == v.parent[n] then RemoveAt(Siblings(v, q), Index(v, n)) else Siblings(v, q))
      && (forall q | Has(v, q) :: Siblings(r, q) ==
            if q == np then InsertOrAdd(Siblings(Detach(v, n), q), k, n) else Siblings(Detach(v, n), q))
  {
  }

  /** Both halves of the move under the mirror. */
  lemma MoveNodeShape(s: Arrangement, n: NodeId, np: Option<NodeId>, newIndex: int, target: Id)
    requires Mirror(s.view, s.menu) && n < |s.view.tag| && Has(s.view, np)
    requires Collection(s.view, s.menu, np) == Some(target)
    ensures Collection(s.view, s.menu, s.view.parent[n]).Some?
    ensures var r, v := MoveNode(s, n, np, newIndex), s.view;
      && r.view.tag == v.tag && r.view.checked == v.checked && r.view.parent == v.parent[n := np]
      && |r.view.nodes| == |v.nodes|
      && (forall q | Has(v, q) :: Siblings(Detach(v, n), q) ==
            if q == v.parent[n] then RemoveAt(Siblings(v, q), Index(v, n)) else Siblings(v, q))
      && (forall q | Has(v, q) :: Siblings(r.view, q) ==
            if q == np then InsertOrAdd(Siblings(Detach(v, n), q), Adjusted(v, n, np, newIndex), n)
            else Siblings(Detach(v, n), q))
    ensures var v, a := s.view, s.menu;
      MoveNode(s, n, np, newIndex).menu ==
        Relocate(a, Location(Collection(v, a, v.parent[n]).value, Index(v, n)), target, Adjusted(v, n, np, newIndex), v.tag[n])
  {
    MoveNodeParts(s, n, np, newIndex, target);
    DetachAttachLists(s.view, n, np, Adjusted(s.view, n, np, newIndex));
  }

  /** `MoveNode` neither loses nor duplicates a menu entry, keeps every other item of every
      collection in its order, and changes nothing but child collections. */
  lemma MoveNodeConserves(s: Arrangement, n: NodeId, np: Option<NodeId>, newIndex: int)
    requires Mirror(s.view, s.menu) && n < |s.view.tag| && Has(s.view, np)
    ensures var r := MoveNode(s, n, np, newIndex);
      && Entries(r.menu) == Entries(s.menu)
      && SameItems(r.menu, s.menu) && r.menu.visible == s.menu.visible
      && forall q | 0 <= q < |s.menu.kids| ::
           Without(r.menu.kids[q], {s.view.tag[n]}) == Without(s.menu.kids[q], {s.view.tag[n]})
  {
    var v, a := s.view, s.menu;
    if Collection(v, a, np).Some? {
      var target := Collection(v, a, np).value;
      MoveNodeShape(s, n, np, newIndex, target);
      var from := Location(Collection(v, a, v.parent[n]).value, Index(v, n));
      ItemAtIndex(v, a, n);
      RelocateConserves(a, from, target, Adjusted(v, n, np, newIndex), v.tag[n]);
      RelocateKeepsOthersInOrder(a, from, target, Adjusted(v, n, np, newIndex), v.tag[n], {v.tag[n]});
    }
  }

  lemma InsertOrAddLands(s: seq<NodeId>, k: int, x: NodeId)
    ensures var at := if 0 <= k <= |s| then k else |s|;
      at < |InsertOrAdd(s, k, x)| && InsertOrAdd(s, k, x)[at] == x
  {
  }

  /** `MoveNode` keeps every node's item and every item's attributes, so each node list stands
      for the same collection as before. */
  lemma MoveNodeKeepsCollections(s: Arrangement, n: NodeId, np: Option<NodeId>, newIndex: int)
    requires Tagged(s.view, s.menu) && ViewOk(s.view) && n < |s.view.tag| && Has(s.view, np)
    ensures var r := MoveNode(s, n, np, newIndex);
      && r.view.tag == s.view.tag && |r.view.nodes| == |s.view.nodes|
      && r.menu.items == s.menu.items && r.menu.root == s.menu.root
  {
  }

  /** Where `MoveNode` puts the node in list `np`: the adjusted index, or the end of the list
      (without the node itself) when that index is out of range. */
  function Landing(v: View, n: NodeId, np: Option<NodeId>, newIndex: int): (at: nat)
    requires ViewOk(v) && n < |v.tag| && Has(v, np)
    ensures at <= |Siblings(v, np)| - (if v.parent[n] == np then 1 else 0)
  {
    var len := |Siblings(v, np)| - (if v.parent[n] == np then 1 else 0);
    var k := Adjusted(v, n, np, newIndex);
    assert v.parent[n] == np ==> Index(v, n) < |Siblings(v, np)|;
    if 0 <= k <= len then k else len
  }

  /** Under the mirror a move into a list with a collection puts the node at its landing
      position in that list. */
  lemma MoveNodeLandsInView(s: Arrangement, n: NodeId, np: Option<NodeId>, newIndex: int, target: Id)
    requires Mirror(s.view, s.menu) && n < |s.view.tag| && Has(s.view, np)
    requires Collection(s.view, s.menu, np) == Some(target)
    ensures var r, at := MoveNode(s, n, np, newIndex).view, Landing(s.view, n, np, newIndex);
      r.parent[n] == np && at < |Siblings(r, np)| && Siblings(r, np)[at] == n
  {
    MoveNodeParts(s, n, np, newIndex, target);
    DetachAttachLands(s.view, n, np, newIndex);
  }

  lemma DetachAttachLands(v: View, n: NodeId, np: Option<NodeId>, newIndex: int)
    requires ViewOk(v) && n < |v.tag| && Has(v, np)
    ensures var r, at := Attach(Detach(v, n), n, np, Adjusted(v, n, np, newIndex)), Landing(v, n, np, newIndex);
      r.parent[n] == np && at < |Siblings(r, np)| && Siblings(r, np)[at] == n
  {
    var k := Adjusted(v, n, np, newIndex);
    DetachAttachLists(v, n, np, k);
    InsertOrAddLands(Siblings(Detach(v, n), np), k, n);
  }

  /** ... and its item at the same position of the target collection. */
  lemma MoveNodeLandsInMenu(s: Arrangement, n: NodeId, np: Option<NodeId>, newIndex: int, target: Id)
    requires Mirror(s.view, s.menu) && n < |s.view.tag| && Has(s.view, np)
    requires Collection(s.view, s.menu, np) == Some(target)
    ensures var r, at := MoveNode(s, n, np, newIndex).menu, Landing(s.view, n, np, newIndex);
      target < |r.kids| && at < |r.kids[target]| && r.kids[target][at] == s.view.tag[n]
  {
    var r := MoveNode(s, n, np, newIndex);
    MoveNodeLandsInView(s, n, np, newIndex, target);
    MoveNodeKeepsMirror(s, n, np, newIndex);
    MoveNodeKeepsCollections(s, n, np, newIndex);
    assert Collection(r.view, r.menu, np) == Some(target);
    MirrorAt(r.view, r.menu, np, Landing(s.view, n, np, newIndex));
  }

  /** Where the node lands: a target without a collection changes nothing; otherwise the node
      now belongs to `np`, at the adjusted index clamped to the list, and its item stands at
      the same index of the target collection. */
  lemma MoveNodeLands(s: Arrangement, n: NodeId, np: Option<NodeId>, newIndex: int)
    requires Mirror(s.view, s.menu) && n < |s.view.tag| && Has(s.view, np)
    ensures Collection(s.view, s.menu, np).None? ==> MoveNode(s, n, np, newIndex) == s
    ensures Collection(s.view, s.menu, np).Some? ==>
      var r, at, c := MoveNode(s, n, np, newIndex), Landing(s.view, n, np, newIndex), Collection(s.view, s.menu, np).value;
      && r.view.parent[n] == np
      && at < |Siblings(r.view, np)| && Siblings(r.view, np)[at] == n
      && c < |r.menu.kids| && at < |r.menu.kids[c]| && r.menu.kids[c][at] == s.view.tag[n]
  {
    if Collection(s.view, s.menu, np).Some? {
      var target := Collection(s.view, s.menu, np).value;
      MoveNodeLandsInView(s, n, np, newIndex, target);
      MoveNodeLandsInMenu(s, n, np, newIndex, target);
    }
  }

  /** A mirrored list is as long as its collection. */
  lemma MirrorLength(v: View, a: Arena, p: Option<NodeId>)
    requires Mirror(v, a) && Has(v, p) && Collection(v, a, p).Some?
    ensures |a.kids[Collection(v, a, p).value]| == |Siblings(v, p)|
  {
    assert Shows(v, a, p);
  }

  /** Position `at` of a mirrored list holds a node showing the item at `at` of its
      collection. */
  lemma MirrorAt(v: View, a: Arena, p: Option<NodeId>, at: nat)
    requires Mirror(v, a) && Has(v, p) && Collection(v, a, p).Some? && at < |Siblings(v, p)|
    ensures at < |a.kids[Collection(v, a, p).value]|
    ensures Siblings(v, p)[at] < |v.tag|
    ensures a.kids[Collection(v, a, p).value][at] == v.tag[Siblings(v, p)[at]]
  {
    assert Shows(v, a, p);
  }

  /** The node at position `j` of list `p` belongs to `p` and has index `j`. */
  lemma IndexAt(v: View, p: Option<NodeId>, j: nat)
    requires ViewOk(v) && Has(v, p) && j < |Siblings(v, p)|
    ensures Siblings(v, p)[j] < |v.tag| && v.parent[Siblings(v, p)[j]] == p
    ensures Index(v, Siblings(v, p)[j]) == j
  {
    assert SlotOk(v, p);
    var x := Siblings(v, p)[j];
    assert x in Siblings(v, p);
    assert Siblings(v, p)[Index(v, x)] == x;
  }

  // ----- parent chains -----

  /** The parent chain from `x` reaches the top level within `fuel` steps. */
  predicate Rooted(v: View, x: NodeId, fuel: nat)
    requires Sized(v)
    decreases fuel
  {
    && x < |v.tag|
    && (v.parent[x].None? || (fuel > 0 && Rooted(v, v.parent[x].value, fuel - 1)))
  }

  /** The parent chain from `x` ends. */
  ghost predicate Grounded(v: View, x: NodeId)
    requires Sized(v)
  {
    exists fuel: nat :: Rooted(v, x, fuel)
  }

  /** Every parent chain ends: the view is a forest. */
  ghost predicate Forest(v: View)
  {
    Sized(v) && forall x | 0 <= x < |v.tag| :: Grounded(v, x)
  }

  /** No node of a forest is its own parent. */
  lemma {:induction false} NotOwnParent(v: View, x: NodeId, fuel: nat)
    requires Sized(v) && Rooted(v, x, fuel)
    ensures v.parent[x] != Some(x)
    decreases fuel
  {
    if v.parent[x] == Some(x) {
      NotOwnParent(v, x, fuel - 1);
    }
  }

  /** In a forest no node is its own parent. */
  lemma ParentDiffers(v: View, x: NodeId)
    requires Forest(v) && x < |v.tag|
    ensures v.parent[x] != Some(x)
  {
    assert Grounded(v, x);
    var fuel: nat :| Rooted(v, x, fuel);
    NotOwnParent(v, x, fuel);
  }

  /** `IsDescendant(node, anc)`: the parent chain from `node`, `node` itself included,
      meets `anc`. */
  predicate InSubtree(v: View, node: NodeId, anc: NodeId, fuel: nat)
    requires Sized(v) && Rooted(v, node, fuel)
    decreases fuel
  {
    node == anc || (v.parent[node].Some? && InSubtree(v, v.parent[node].value, anc, fuel - 1))
  }

  /** Any fuel that lets the chain end gives the same answer. */
  lemma {:induction false} InSubtreeFuel(v: View, node: NodeId, anc: NodeId, f1: nat, f2: nat)
    requires Sized(v) && Rooted(v, node, f1) && Rooted(v, node, f2)
    ensures InSubtree(v, node, anc, f1) == InSubtree(v, node, anc, f2)
    decreases f1
  {
    if node != anc && v.parent[node].Some? {
      InSubtreeFuel(v, v.parent[node].value, anc, f1 - 1, f2 - 1);
    }
  }

  /** `node` lies in the subtree of `anc`. */
  ghost predicate Descendant(v: View, node: NodeId, anc: NodeId)
    requires Sized(v) && Grounded(v, node)
  {
    var fuel: nat :| Rooted(v, node, fuel);
    InSubtree(v, node, anc, fuel)
  }

  // ----- a move that avoids the moved node's subtree keeps the view a forest -----

  lemma {:induction false} RootedMono(v: View, x: NodeId, f: nat, g: nat)
    requires Sized(v) && Rooted(v, x, f) && f <= g
    ensures Rooted(v, x, g)
    decreases f
  {
    if v.parent[x].Some? {
      RootedMono(v, v.parent[x].value, f - 1, g - 1);
    }
  }

  /** The number of steps from `x` up to the top level. */
  function Depth(v: View, x: NodeId, fuel: nat): nat
    requires Sized(v) && Rooted(v, x, fuel)
    decreases fuel
  {
    if v.parent[x].None? then 0 else 1 + Depth(v, v.parent[x].value, fuel - 1)
  }

  lemma {:induction false} DepthFuel(v: View, x: NodeId, f: nat, g: nat)
    requires Sized(v) && Rooted(v, x, f) && Rooted(v, x, g)
    ensures Depth(v, x, f) == Depth(v, x, g)
    decreases f
  {
    if v.parent[x].Some? {
      DepthFuel(v, v.parent[x].value, f - 1, g - 1);
    }
  }

  /** An ancestor lies no deeper than its descendant. */
  lemma {:induction false} AncestorDepth(v: View, y: NodeId, x: NodeId, g: nat)
    requires Sized(v) && Rooted(v, y, g) && InSubtree(v, y, x, g)
    ensures Rooted(v, x, g) && Depth(v, x, g) <= Depth(v, y, g)
    decreases g
  {
    if y != x {
      var q := v.parent[y].value;
      AncestorDepth(v, q, x, g - 1);
      RootedMono(v, x, g - 1, g);
      DepthFuel(v, x, g - 1, g);
    }
  }

  /** A chain that never meets `n` is the same in a view that differs only in the parent
      of `n`. */
  lemma {:induction false} ChainAvoiding(v: View, w: View, n: NodeId, y: NodeId, g: nat)
    requires Sized(v) && Sized(w) && |w.tag| == |v.tag| && n < |v.tag|
    requires forall x | 0 <= x < |v.tag| && x != n :: w.parent[x] == v.parent[x]
    requires Rooted(v, y, g) && !InSubtree(v, y, n, g)
    ensures Rooted(w, y, g)
    decreases g
  {
    if v.parent[y].Some? {
      ChainAvoiding(v, w, n, v.parent[y].value, g - 1);
    }
  }

  /** Re-parenting `n` under a node outside its subtree keeps every chain finite. */
  lemma {:induction false} RootedAfter(v: View, w: View, n: NodeId, np: Option<NodeId>, g: nat, x: NodeId, f: nat)
    requires Sized(v) && Sized(w) && |w.tag| == |v.tag| && n < |v.tag|
    requires w.parent == v.parent[n := np]
    requires np.Some? ==> Rooted(v, np.value, g) && !InSubtree(v, np.value, n, g)
    requires Rooted(v, x, f)
    ensures Rooted(w, x, f + g + 1)
    decreases f
  {
    if x == n {
      if np.Some? {
        ChainAvoiding(v, w, n, np.value, g);
        RootedMono(w, np.value, g, f + g);
      }
    } else if v.parent[x].Some? {
      RootedAfter(v, w, n, np, g, v.parent[x].value, f - 1);
    }
  }

  lemma ForestAfterReparent(v: View, w: View, n: NodeId, np: Option<NodeId>)
    requires Forest(v) && Sized(w) && |w.tag| == |v.tag| && n < |v.tag|
    requires w.parent == v.parent[n := np]
    requires np.Some? ==> np.value < |v.tag| && !Descendant(v, np.value, n)
    ensures Forest(w)
  {
    var g: nat := 0;
    if np.Some? {
      assert Grounded(v, np.value);
      g :| Rooted(v, np.value, g);
      var h: nat :| Rooted(v, np.value, h) && !InSubtree(v, np.value, n, h);
      InSubtreeFuel(v, np.value, n, g, h);
    }
    forall x | 0 <= x < |w.tag| ensures Grounded(w, x) {
      assert Grounded(v, x);
      var f: nat :| Rooted(v, x, f);
      RootedAfter(v, w, n, np, g, x, f);
    }
  }

  /** `MoveNode` to a list outside the node's own subtree keeps the view a forest. */
  lemma MoveNodeKeepsForest(s: Arrangement, n: NodeId, np: Option<NodeId>, newIndex: int)
    requires Mirror(s.view, s.menu) && Forest(s.view) && n < |s.view.tag| && Has(s.view, np)
    requires np.Some? ==> !Descendant(s.view, np.value, n)
    ensures Forest(MoveNode(s, n, np, newIndex).view)
  {
    var v, a := s.view, s.menu;
    if Collection(v, a, np).Some? {
      MoveNodeShape(s, n, np, newIndex, Collection(v, a, np).value);
      ForestAfterReparent(v, MoveNode(s, n, np, newIndex).view, n, np);
    }
  }

  /** A node is not in the subtree of its own child. */
  lemma ParentOutsideSubtree(v: View, n: NodeId, q: NodeId)
    requires Forest(v) && n < |v.tag| && v.parent[n] == Some(q) && q < |v.tag|
    ensures !Descendant(v, q, n)
  {
    assert Grounded(v, n);
    var f: nat :| Rooted(v, n, f);
    assert Grounded(v, q);
    var g: nat :| Rooted(v, q, g) && InSubtree(v, q, n, g) == Descendant(v, q, n);
    if Descendant(v, q, n) {
      AncestorDepth(v, q, n, g);
      DepthFuel(v, n, f, g);
      DepthFuel(v, q, f - 1, g);
    }
  }

  /** `IsDescendant` one step up: `x` lies under `anc` when it is `anc` or its parent lies
      under `anc`. */
  lemma DescendantStep(v: View, x: NodeId, anc: NodeId)
    requires Forest(v) && x < |v.tag|
    ensures v.parent[x].None? ==> (Descendant(v, x, anc) <==> x == anc)
    ensures v.parent[x].Some? && v.parent[x].value < |v.tag| ==>
      (Descendant(v, x, anc) <==> x == anc || Descendant(v, v.parent[x].value, anc))
  {
    assert Grounded(v, x);
    var f: nat :| Rooted(v, x, f) && InSubtree(v, x, anc, f) == Descendant(v, x, anc);
    if v.parent[x].Some? && v.parent[x].value < |v.tag| {
      var q := v.parent[x].value;
      assert Rooted(v, q, f - 1);
      assert InSubtree(v, x, anc, f) == (x == anc || InSubtree(v, q, anc, f - 1));
      assert Grounded(v, q);
      var g: nat :| Rooted(v, q, g) && InSubtree(v, q, anc, g) == Descendant(v, q, anc);
      InSubtreeFuel(v, q, anc, f - 1, g);
    }
  }

  /** The mirror relation does not look at visibility flags. */
  lemma MirrorIgnoresVisible(v: View, a: Arena, visible: seq<bool>)
    requires Mirror(v, a) && |visible| == |a.visible|
    ensures Mirror(v, a.(visible := visible))
  {
    var b := a.(visible := visible);
    forall p | Has(v, p) ensures Shows(v, b, p) {
      assert Shows(v, a, p);
      assert Collection(v, b, p) == Collection(v, a, p);
    }
  }
}
