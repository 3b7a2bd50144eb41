/** The editor's commands (move up, move down, indent, outdent, drop) as functions of the
    arrangement, each reduced to `MoveNode` the way its handler computes the target list and
    index, and the button-enable predicates. */
module Editing {
  import opened Menus
  import opened Arrangement

  /** `s` with positions `j` and `j + 1` exchanged. */
  function Swap(s: seq<Id>, j: nat): (r: seq<Id>)
    requires j + 1 < |s|
    ensures |r| == |s| && r[j] == s[j + 1] && r[j + 1] == s[j]
    ensures forall k | 0 <= k < |s| && k != j && k != j + 1 :: r[k] == s[k]
  {
    s[j := s[j + 1]][j + 1 := s[j]]
  }

  // ----- re-inserting an element of a list near where it was -----

  lemma ReinsertBefore(s: seq<Id>, i: nat, x: Id)
    requires 0 < i < |s| && s[i] == x
    ensures InsertOrAdd(RemoveAt(s, i), i - 1, x) == Swap(s, i - 1)
  {
    var r := InsertOrAdd(RemoveAt(s, i), i - 1, x);
    forall k | 0 <= k < |s| ensures r[k] == Swap(s, i - 1)[k] {
      if k > i - 1 {
        assert r[k] == r[i..][k - i];
      } else if k < i - 1 {
        assert r[k] == r[..i - 1][k];
      }
    }
  }

  lemma ReinsertSame(s: seq<Id>, i: nat, x: Id)
    requires i < |s| && s[i] == x
    ensures InsertOrAdd(RemoveAt(s, i), i, x) == s
  {
    var r := InsertOrAdd(RemoveAt(s, i), i, x);
    forall k | 0 <= k < |s| ensures r[k] == s[k] {
      if k > i {
        assert r[k] == r[i + 1..][k - i - 1];
      } else if k < i {
        assert r[k] == r[..i][k];
      }
    }
  }

  lemma ReinsertAfter(s: seq<Id>, i: nat, x: Id)
    requires i + 1 < |s| && s[i] == x
    ensures InsertOrAdd(RemoveAt(s, i), i + 1, x) == Swap(s, i)
  {
    var r := InsertOrAdd(RemoveAt(s, i), i + 1, x);
    forall k | 0 <= k < |s| ensures r[k] == Swap(s, i)[k] {
      if k > i + 1 {
        assert r[k] == r[i + 2..][k - i - 2];
      } else if k <= i {
        assert r[k] == r[..i + 1][k];
      }
    }
  }

  lemma InsertAtEnd(s: seq<Id>, x: Id)
    ensures InsertOrAdd(s, |s|, x) == s + [x]
  {
    var r := InsertOrAdd(s, |s|, x);
    assert r[..|s|] == s;
    assert r == r[..|s|] + [r[|s|]];
  }

  /** The neighbours of an element inserted at `k`. */
  lemma InsertNeighbours(s: seq<Id>, k: int, x: Id)
    requires 0 <= k <= |s|
    ensures InsertOrAdd(s, k, x)[k] == x
    ensures k > 0 ==> InsertOrAdd(s, k, x)[k - 1] == s[k - 1]
    ensures k < |s| ==> InsertOrAdd(s, k, x)[k + 1] == s[k]
  {
    var r := InsertOrAdd(s, k, x);
    if k > 0 {
      assert r[k - 1] == r[..k][k - 1];
    }
    if k < |s| {
      assert r[k + 1] == r[k + 1..][0];
    }
  }

  lemma UpdateBack<T>(s: seq<T>, k: nat, x: T)
    requires k < |s|
    ensures s[k := x][k := s[k]] == s
  {
  }

  lemma RemoveLast(s: seq<Id>, x: Id)
    ensures RemoveAt(s + [x], |s|) == s
  {
  }

  // ----- move up and move down -----

  /** `btnMoveUp_Click` with `n` selected: nothing at index 0, else `MoveNode` to `Index-1`
      in the same list. */
  function MoveUp(s: Arrangement, n: NodeId): (r: Arrangement)
    requires Mirror(s.view, s.menu) && n < |s.view.tag|
    ensures r.view.tag == s.view.tag && r.menu.items == s.menu.items && r.menu.visible == s.menu.visible
    ensures r.view.parent == s.view.parent
  {
    var i := Index(s.view, n);
    if i == 0 then s else MoveNode(s, n, s.view.parent[n], i - 1)
  }

  /** `tsbnMoveDown_Click` with `n` selected: nothing on the last node of a list, else
      `MoveNode` to `Index+1` in the same list. */
  function MoveDown(s: Arrangement, n: NodeId): (r: Arrangement)
    requires Mirror(s.view, s.menu) && n < |s.view.tag|
    ensures r.view.tag == s.view.tag && r.menu.items == s.menu.items && r.menu.visible == s.menu.visible
    ensures r.view.parent == s.view.parent
  {
    var i := Index(s.view, n);
    if i >= |Siblings(s.view, s.view.parent[n])| - 1 then s else MoveNode(s, n, s.view.parent[n], i + 1)
  }

  /** The move down the button promises: `MoveNode` to `Index+2`, the slot before the
      element after the successor, which the pre-removal correction turns into `Index+1`. */
  function MoveDownPastSuccessor(s: Arrangement, n: NodeId): (r: Arrangement)
    requires Mirror(s.view, s.menu) && n < |s.view.tag|
    ensures r.view.tag == s.view.tag && r.menu.items == s.menu.items && r.menu.visible == s.menu.visible
    ensures r.view.parent == s.view.parent
  {
    var i := Index(s.view, n);
    if i >= |Siblings(s.view, s.view.parent[n])| - 1 then s else MoveNode(s, n, s.view.parent[n], i + 2)
  }

  /** The node's list and the collection behind it with positions `j`, `j + 1` exchanged. */
  function Swapped(s: Arrangement, n: NodeId, j: nat): Arrangement
    requires Mirror(s.view, s.menu) && n < |s.view.tag|
    requires j + 1 < |Siblings(s.view, s.view.parent[n])|
  {
    var v, a := s.view, s.menu;
    ItemAtIndex(v, a, n);
    MirrorAt(v, a, v.parent[n], j + 1);
    var c := Collection(v, a, v.parent[n]).value;
    Arrangement(WithSiblings(v, v.parent[n], Swap(Siblings(v, v.parent[n]), j)), a.(kids := a.kids[c := Swap(a.kids[c], j)]))
  }

  /** A move within the node's own list, from its index `i` to the adjusted index `k`. */
  lemma MoveWithinList(s: Arrangement, n: NodeId, newIndex: int, c: Id, i: nat, k: int)
    requires Mirror(s.view, s.menu) && n < |s.view.tag|
    requires Collection(s.view, s.menu, s.view.parent[n]) == Some(c)
    requires i == Index(s.view, n) && k == Adjusted(s.view, n, s.view.parent[n], newIndex)
    ensures i < |s.menu.kids[c]| && s.menu.kids[c][i] == s.view.tag[n]
    ensures MoveNode(s, n, s.view.parent[n], newIndex).view ==
      WithSiblings(s.view, s.view.parent[n], InsertOrAdd(RemoveAt(Siblings(s.view, s.view.parent[n]), i), k, n))
    ensures MoveNode(s, n, s.view.parent[n], newIndex).menu ==
      s.menu.(kids := s.menu.kids[c := InsertOrAdd(RemoveAt(s.menu.kids[c], i), k, s.view.tag[n])])
  {
    var v, a, p := s.view, s.menu, s.view.parent[n];
    MoveNodeParts(s, n, p, newIndex, c);
    AttachInOwnList(v, n, k);
    RelocateWithin(a, c, i, k, v.tag[n]);
  }

  /** Detaching a node and attaching it to its own list again edits only that list. */
  lemma AttachInOwnList(v: View, n: NodeId, k: int)
    requires ViewOk(v) && n < |v.tag|
    ensures Attach(Detach(v, n), n, v.parent[n], k) ==
      WithSiblings(v, v.parent[n], InsertOrAdd(RemoveAt(Siblings(v, v.parent[n]), Index(v, n)), k, n))
  {
    var p := v.parent[n];
    DetachAttachLists(v, n, p, k);
    var w := WithSiblings(v, p, InsertOrAdd(RemoveAt(Siblings(v, p), Index(v, n)), k, n));
    assert v.parent[n := p] == v.parent;
    ViewExt(w, Attach(Detach(v, n), n, p, k));
  }

  /** Relocating an item within its own collection edits only that collection. */
  lemma RelocateWithin(a: Arena, c: Id, i: nat, k: int, x: Id)
    requires Valid(a) && c < |a.items| && x < |a.items| && i < |a.kids[c]|
    ensures Relocate(a, Location(c, i), c, k, x) == a.(kids := a.kids[c := InsertOrAdd(RemoveAt(a.kids[c], i), k, x)])
  {
  }

  /** Move up exchanges the node with its predecessor, in the view and in the menu alike. */
  lemma MoveUpSwaps(s: Arrangement, n: NodeId)
    requires Mirror(s.view, s.menu) && n < |s.view.tag| && Index(s.view, n) > 0
    ensures MoveUp(s, n) == Swapped(s, n, Index(s.view, n) - 1)
  {
    var v, a, p := s.view, s.menu, s.view.parent[n];
    var i := Index(v, n);
    ItemAtIndex(v, a, n);
    var c := Collection(v, a, p).value;
    assert MoveUp(s, n) == MoveNode(s, n, p, i - 1);
    MoveWithinList(s, n, i - 1, c, i, i - 1);
    ReinsertBefore(Siblings(v, p), i, n);
    ReinsertBefore(a.kids[c], i, v.tag[n]);
    SwappedIs(s, n, i - 1, c);
  }

  /** As written, move down puts the node back where it was: the `+1` and the pre-removal
      correction cancel, so neither tree changes. */
  lemma MoveDownKeepsOrder(s: Arrangement, n: NodeId)
    requires Mirror(s.view, s.menu) && n < |s.view.tag|
    ensures MoveDown(s, n) == s
  {
    var i := Index(s.view, n);
    if i < |Siblings(s.view, s.view.parent[n])| - 1 {
      ReinsertAtOwnIndex(s, n, i + 1);
    }
  }

  /** `MoveNode` to `Index+1` within the node's own list changes nothing. */
  lemma ReinsertAtOwnIndex(s: Arrangement, n: NodeId, newIndex: int)
    requires Mirror(s.view, s.menu) && n < |s.view.tag| && newIndex == Index(s.view, n) + 1
    ensures MoveNode(s, n, s.view.parent[n], newIndex) == s
  {
    var v, a, p := s.view, s.menu, s.view.parent[n];
    var i := Index(v, n);
    ItemAtIndex(v, a, n);
    var c := Collection(v, a, p).value;
    MoveWithinList(s, n, newIndex, c, i, i);
    ReinsertSame(Siblings(v, p), i, n);
    WithSiblingsSame(v, p);
    ReinsertSame(a.kids[c], i, v.tag[n]);
    assert a.kids[c := a.kids[c]] == a.kids;
  }

  lemma WithSiblingsSame(v: View, p: Option<NodeId>)
    requires Has(v, p)
    ensures WithSiblings(v, p, Siblings(v, p)) == v
  {
    if p.Some? {
      assert v.nodes[p.value := v.nodes[p.value]] == v.nodes;
    }
  }

  /** Moving to `Index+2` exchanges the node with its successor. */
  lemma MoveDownPastSuccessorSwaps(s: Arrangement, n: NodeId)
    requires Mirror(s.view, s.menu) && n < |s.view.tag|
    requires Index(s.view, n) + 1 < |Siblings(s.view, s.view.parent[n])|
    ensures MoveDownPastSuccessor(s, n) == Swapped(s, n, Index(s.view, n))
  {
    var v, a, p := s.view, s.menu, s.view.parent[n];
    var i := Index(v, n);
    assert MoveDownPastSuccessor(s, n) == MoveNode(s, n, p, i + 2);
    ItemAtIndex(v, a, n);
    var c := Collection(v, a, p).value;
    MoveDownSwapsLists(s, n, i, c);
    SwappedIs(s, n, i, c);
  }

  /** Moving to `Index+2` exchanges the node with its successor, list by list. */
  lemma MoveDownSwapsLists(s: Arrangement, n: NodeId, i: nat, c: Id)
    requires Mirror(s.view, s.menu) && n < |s.view.tag| && i == Index(s.view, n)
    requires i + 1 < |Siblings(s.view, s.view.parent[n])|
    requires Collection(s.view, s.menu, s.view.parent[n]) == Some(c)
    ensures i + 1 < |s.menu.kids[c]|
    ensures MoveNode(s, n, s.view.parent[n], i + 2) == Arrangement(
      WithSiblings(s.view, s.view.parent[n], Swap(Siblings(s.view, s.view.parent[n]), i)),
      s.menu.(kids := s.menu.kids[c := Swap(s.menu.kids[c], i)]))
  {
    var v, a, p := s.view, s.menu, s.view.parent[n];
    MirrorAt(v, a, p, i + 1);
    assert Adjusted(v, n, p, i + 2) == i + 1;
    MoveWithinList(s, n, i + 2, c, i, i + 1);
    ReinsertAfter(Siblings(v, p), i, n);
    ReinsertAfter(a.kids[c], i, v.tag[n]);
  }

  /** `Swapped` written out for a node whose list shows collection `c`. */
  lemma SwappedIs(s: Arrangement, n: NodeId, j: nat, c: Id)
    requires Mirror(s.view, s.menu) && n < |s.view.tag|
    requires j + 1 < |Siblings(s.view, s.view.parent[n])|
    requires Collection(s.view, s.menu, s.view.parent[n]) == Some(c)
    ensures j + 1 < |s.menu.kids[c]|
    ensures Swapped(s, n, j) == Arrangement(
      WithSiblings(s.view, s.view.parent[n], Swap(Siblings(s.view, s.view.parent[n]), j)),
      s.menu.(kids := s.menu.kids[c := Swap(s.menu.kids[c], j)]))
  {
    MirrorAt(s.view, s.menu, s.view.parent[n], j + 1);
  }

  // ----- indent and outdent -----

  /** `tsbnIndent_Click` with `n` selected: nothing at index 0, else `MoveNode` to the end of
      the child list of the previous sibling. */
  function Indent(s: Arrangement, n: NodeId): (r: Arrangement)
    requires Mirror(s.view, s.menu) && n < |s.view.tag|
    ensures r.view.tag == s.view.tag && r.menu.items == s.menu.items && r.menu.visible == s.menu.visible
  {
    var v, i := s.view, Index(s.view, n);
    if i == 0 then s
    else
      IndexAt(v, v.parent[n], i - 1);
      var prev := Siblings(v, v.parent[n])[i - 1];
      MoveNode(s, n, Some(prev), |v.nodes[prev]|)
  }

  /** `tsbnOutdent_Click` with `n` selected: nothing at top level, else `MoveNode` to just
      after the parent in the grandparent's list (the top level when there is none). */
  function Outdent(s: Arrangement, n: NodeId): (r: Arrangement)
    requires Mirror(s.view, s.menu) && n < |s.view.tag|
    ensures r.view.tag == s.view.tag && r.menu.items == s.menu.items && r.menu.visible == s.menu.visible
  {
    var v := s.view;
    match v.parent[n]
    case None => s
    case Some(q) => MoveNode(s, n, v.parent[q], Index(v, q) + 1)
  }

  /** Move up is nothing on the first node of a list, else a single `MoveNode`. */
  lemma MoveUpMoves(s: Arrangement, n: NodeId)
    requires Mirror(s.view, s.menu) && n < |s.view.tag|
    ensures Index(s.view, n) == 0 ==> MoveUp(s, n) == s
    ensures Index(s.view, n) > 0 ==> MoveUp(s, n) == MoveNode(s, n, s.view.parent[n], Index(s.view, n) - 1)
  {
  }

  /** Outdent is nothing at top level, else a single `MoveNode`. */
  lemma OutdentMoves(s: Arrangement, n: NodeId)
    requires Mirror(s.view, s.menu) && n < |s.view.tag|
    ensures s.view.parent[n].None? ==> Outdent(s, n) == s
    ensures s.view.parent[n].Some? ==>
      Outdent(s, n) == MoveNode(s, n, s.view.parent[s.view.parent[n].value], Index(s.view, s.view.parent[n].value) + 1)
  {
  }

  /** The previous sibling indent moves under: a different node of the same list, and not
      the node's own parent. */
  lemma PreviousSibling(s: Arrangement, n: NodeId, prev: NodeId)
    requires Mirror(s.view, s.menu) && Forest(s.view) && n < |s.view.tag| && Index(s.view, n) > 0
    requires prev == Siblings(s.view, s.view.parent[n])[Index(s.view, n) - 1]
    ensures prev < |s.view.tag| && prev != n && s.view.parent[prev] == s.view.parent[n]
    ensures s.view.parent[n] != Some(prev) && Index(s.view, prev) == Index(s.view, n) - 1
    ensures Indent(s, n) == MoveNode(s, n, Some(prev), |Siblings(s.view, Some(prev))|)
  {
    var v, p, i := s.view, s.view.parent[n], Index(s.view, n);
    IndexAt(v, p, i - 1);
    ParentDiffers(v, prev);
  }

  /** `r` is `s` with node `n` taken from index `i` of its list to the end of the child list
      of `prev`, and its item likewise from collection `c` to the end of the collection of
      `prev`'s item. */
  ghost predicate MovedUnder(s: Arrangement, r: Arrangement, n: NodeId, prev: NodeId, c: Id, i: nat)
    requires Mirror(s.view, s.menu) && n < |s.view.tag| && prev < |s.view.tag| && i == Index(s.view, n)
    requires Collection(s.view, s.menu, s.view.parent[n]) == Some(c)
  {
    var v, a := s.view, s.menu;
    MirrorLength(v, a, v.parent[n]);
    && r.view.tag == v.tag && r.view.checked == v.checked && r.view.parent == v.parent[n := Some(prev)]
    && |r.view.nodes| == |v.nodes|
    && (forall q | Has(v, q) :: Siblings(r.view, q) ==
          if q == Some(prev) then Siblings(v, q) + [n]
          else if q == v.parent[n] then RemoveAt(Siblings(v, q), i)
          else Siblings(v, q))
    && r.menu == a.(kids := a.kids[c := RemoveAt(a.kids[c], i)][v.tag[prev] := a.kids[v.tag[prev]] + [v.tag[n]]])
  }

  /** Indent makes the node the last child of its previous sibling, taking it out of its own
      list, and does the same to its item in the menu; it changes nothing when that sibling's
      item owns no collection. */
  lemma IndentAppends(s: Arrangement, n: NodeId, prev: NodeId, c: Id)
    requires Mirror(s.view, s.menu) && Forest(s.view) && n < |s.view.tag| && Index(s.view, n) > 0
    requires prev == Siblings(s.view, s.view.parent[n])[Index(s.view, n) - 1]
    requires Collection(s.view, s.menu, s.view.parent[n]) == Some(c)
    ensures prev < |s.view.tag| && prev != n && s.view.parent[n] != Some(prev)
    ensures Collection(s.view, s.menu, Some(prev)).None? ==> Indent(s, n) == s
    ensures Collection(s.view, s.menu, Some(prev)).Some? ==>
      Mirror(Indent(s, n).view, Indent(s, n).menu) && MovedUnder(s, Indent(s, n), n, prev, c, Index(s.view, n))
  {
    var v, a, p, i := s.view, s.menu, s.view.parent[n], Index(s.view, n);
    PreviousSibling(s, n, prev);
    if Collection(v, a, Some(prev)).Some? {
      var tp := v.tag[prev];
      var L := Siblings(v, Some(prev));
      var r := MoveNode(s, n, Some(prev), |L|);
      assert Indent(s, n) == r;
      IndentMenu(s, n, prev, c);
      assert Adjusted(v, n, Some(prev), |L|) == |L|;
      MoveNodeKeepsMirror(s, n, Some(prev), |L|);
      MoveNodeShape(s, n, Some(prev), |L|, tp);
      InsertAtEnd(L, n);
    }
  }

  /** The menu half of an indent: the item leaves collection `c` at the node's index and is
      appended to the collection of the previous sibling's item. */
  lemma IndentMenu(s: Arrangement, n: NodeId, prev: NodeId, c: Id)
    requires Mirror(s.view, s.menu) && n < |s.view.tag| && prev < |s.view.tag| && prev != n
    requires s.view.parent[n] != Some(prev)
    requires Collection(s.view, s.menu, s.view.parent[n]) == Some(c)
    requires Collection(s.view, s.menu, Some(prev)).Some?
    ensures var v, a := s.view, s.menu;
      MoveNode(s, n, Some(prev), |Siblings(v, Some(prev))|).menu ==
        a.(kids := a.kids[c := RemoveAt(a.kids[c], Index(v, n))][v.tag[prev] := a.kids[v.tag[prev]] + [v.tag[n]]])
  {
    var v, a, i := s.view, s.menu, Index(s.view, n);
    var tp, L := v.tag[prev], Siblings(v, Some(prev));
    MoveNodeShape(s, n, Some(prev), |L|, tp);
    assert Adjusted(v, n, Some(prev), |L|) == |L|;
    ItemAtIndex(v, a, n);
    MirrorLength(v, a, Some(prev));
    CollectionsDiffer(v, a, v.parent[n], Some(prev));
    InsertAtEnd(a.kids[tp], v.tag[n]);
  }

  /** Moving the node from the end of its previous sibling's list back to its index `i`
      restores the arrangement it was indented from. */
  lemma MoveBack(s: Arrangement, r1: Arrangement, n: NodeId, prev: NodeId, c: Id, i: nat)
    requires Mirror(s.view, s.menu) && Mirror(r1.view, r1.menu) && n < |s.view.tag|
    requires i == Index(s.view, n) && i > 0 && prev == Siblings(s.view, s.view.parent[n])[i - 1]
    requires prev < |s.view.tag| && prev != n && s.view.parent[n] != Some(prev)
    requires Collection(s.view, s.menu, s.view.parent[n]) == Some(c)
    requires Collection(s.view, s.menu, Some(prev)).Some?
    requires MovedUnder(s, r1, n, prev, c, i)
    ensures Has(r1.view, s.view.parent[n])
    ensures MoveNode(r1, n, s.view.parent[n], i) == s
  {
    MoveBackView(s, r1, n, prev, c, i);
    MoveBackMenu(s, r1, n, prev, c, i);
  }

  lemma MoveBackView(s: Arrangement, r1: Arrangement, n: NodeId, prev: NodeId, c: Id, i: nat)
    requires Mirror(s.view, s.menu) && Mirror(r1.view, r1.menu) && n < |s.view.tag|
    requires i == Index(s.view, n) && i > 0 && prev == Siblings(s.view, s.view.parent[n])[i - 1]
    requires prev < |s.view.tag| && prev != n && s.view.parent[n] != Some(prev)
    requires Collection(s.view, s.menu, s.view.parent[n]) == Some(c)
    requires Collection(s.view, s.menu, Some(prev)).Some?
    requires MovedUnder(s, r1, n, prev, c, i)
    ensures Has(r1.view, s.view.parent[n])
    ensures MoveNode(r1, n, s.view.parent[n], i).view == s.view
  {
    var v, a, p, w := s.view, s.menu, s.view.parent[n], r1.view;
    var tp, L, S := v.tag[prev], Siblings(v, Some(prev)), Siblings(v, p);
    assert Siblings(w, Some(prev)) == L + [n];
    IndexAt(w, Some(prev), |L|);
    assert Collection(w, r1.menu, p) == Some(c);
    assert Adjusted(w, n, p, i) == i;
    MoveNodeShape(r1, n, p, i, c);
    var r2 := MoveNode(r1, n, p, i);
    RemoveLast(L, n);
    ReinsertSame(S, i, n);
    forall q | Has(v, q) ensures Siblings(r2.view, q) == Siblings(v, q) {
      assert Has(w, q);
      if q == Some(prev) {
        assert Siblings(Detach(w, n), q) == RemoveAt(L + [n], |L|);
      } else if q == p {
        assert Siblings(Detach(w, n), q) == RemoveAt(S, i);
      } else {
        assert Siblings(Detach(w, n), q) == Siblings(w, q);
      }
    }
    UpdateBack(v.parent, n, Some(prev));
    ViewExt(v, r2.view);
  }

  lemma MoveBackMenu(s: Arrangement, r1: Arrangement, n: NodeId, prev: NodeId, c: Id, i: nat)
    requires Mirror(s.view, s.menu) && Mirror(r1.view, r1.menu) && n < |s.view.tag|
    requires i == Index(s.view, n) && i > 0 && prev == Siblings(s.view, s.view.parent[n])[i - 1]
    requires prev < |s.view.tag| && prev != n && s.view.parent[n] != Some(prev)
    requires Collection(s.view, s.menu, s.view.parent[n]) == Some(c)
    requires Collection(s.view, s.menu, Some(prev)).Some?
    requires MovedUnder(s, r1, n, prev, c, i)
    ensures Has(r1.view, s.view.parent[n])
    ensures MoveNode(r1, n, s.view.parent[n], i).menu == s.menu
  {
    var v, a, p, w := s.view, s.menu, s.view.parent[n], r1.view;
    var tp, L := v.tag[prev], Siblings(v, Some(prev));
    assert Siblings(w, Some(prev)) == L + [n];
    IndexAt(w, Some(prev), |L|);
    assert Collection(w, r1.menu, p) == Some(c);
    assert Collection(w, r1.menu, Some(prev)) == Some(tp);
    assert Adjusted(w, n, p, i) == i;
    ItemAtIndex(v, a, n);
    MoveNodeShape(r1, n, p, i, c);
    MirrorLength(v, a, Some(prev));
    CollectionsDiffer(v, a, p, Some(prev));
    RelocateBack(a.kids, c, tp, i, v.tag[n]);
  }

  /** Removing `x` from index `i` of collection `c` and appending it to collection `tp`, then
      moving it from the end of `tp` back to index `i` of `c`, restores every collection. */
  lemma RelocateBack(kids: seq<seq<Id>>, c: Id, tp: Id, i: nat, x: Id)
    requires c < |kids| && tp < |kids| && c != tp && i < |kids[c]| && kids[c][i] == x
    ensures var kids1 := kids[c := RemoveAt(kids[c], i)][tp := kids[tp] + [x]];
      var detached := kids1[tp := RemoveAt(kids1[tp], |kids[tp]|)];
      detached[c := InsertOrAdd(detached[c], i, x)] == kids
  {
    RemoveLast(kids[tp], x);
    ReinsertSame(kids[c], i, x);
    var kids1 := kids[c := RemoveAt(kids[c], i)][tp := kids[tp] + [x]];
    var detached := kids1[tp := RemoveAt(kids1[tp], |kids[tp]|)];
    assert detached == kids[c := RemoveAt(kids[c], i)];
  }

  /** Outdent right after an indent that moved the node puts node and item back at their
      original parent and index: both trees are exactly as before. */
  lemma OutdentUndoesIndent(s: Arrangement, n: NodeId)
    requires Mirror(s.view, s.menu) && Forest(s.view) && n < |s.view.tag|
    ensures Mirror(Indent(s, n).view, Indent(s, n).menu) && n < |Indent(s, n).view.tag|
    ensures Indent(s, n) != s ==> Outdent(Indent(s, n), n) == s
  {
    var v, a, p, i := s.view, s.menu, s.view.parent[n], Index(s.view, n);
    if i > 0 {
      ItemAtIndex(v, a, n);
      var c := Collection(v, a, p).value;
      IndexAt(v, p, i - 1);
      var prev := Siblings(v, p)[i - 1];
      IndentAppends(s, n, prev, c);
      if Collection(v, a, Some(prev)).Some? {
        IndentThenOutdent(s, n, prev, c);
      }
    }
  }

  /** The round trip when indent does move the node under its previous sibling. */
  lemma IndentThenOutdent(s: Arrangement, n: NodeId, prev: NodeId, c: Id)
    requires Mirror(s.view, s.menu) && Forest(s.view) && n < |s.view.tag| && Index(s.view, n) > 0
    requires prev == Siblings(s.view, s.view.parent[n])[Index(s.view, n) - 1]
    requires Collection(s.view, s.menu, s.view.parent[n]) == Some(c)
    requires Collection(s.view, s.menu, Some(prev)).Some?
    ensures Mirror(Indent(s, n).view, Indent(s, n).menu) && n < |Indent(s, n).view.tag|
    ensures Outdent(Indent(s, n), n) == s
  {
    var v, p, i := s.view, s.view.parent[n], Index(s.view, n);
    PreviousSibling(s, n, prev);
    IndentAppends(s, n, prev, c);
    var r1 := Indent(s, n);
    assert Has(v, p);
    assert Siblings(r1.view, p) == RemoveAt(Siblings(v, p), i);
    OutdentAfterIndent(r1, n, prev, p, i);
    MoveBack(s, r1, n, prev, c, i);
  }

  /** Outdent of a node whose parent `prev` stands at `i - 1` of list `p` moves it to `i` of `p`. */
  lemma OutdentAfterIndent(r1: Arrangement, n: NodeId, prev: NodeId, p: Option<NodeId>, i: nat)
    requires Mirror(r1.view, r1.menu) && n < |r1.view.tag| && prev < |r1.view.tag|
    requires r1.view.parent[n] == Some(prev) && r1.view.parent[prev] == p && Has(r1.view, p)
    requires 0 < i <= |Siblings(r1.view, p)| && Siblings(r1.view, p)[i - 1] == prev
    ensures Outdent(r1, n) == MoveNode(r1, n, p, i)
  {
    IndexAt(r1.view, p, i - 1);
    OutdentMoves(r1, n);
  }

  // ----- drop -----

  /** Where a drop goes relative to the node under the pointer. */
  datatype Zone = Before | After | Inside

  /** C#'s `/` on `Int32`: the quotient truncated toward zero. */
  function Quotient(x: int, d: int): (q: int)
    requires d > 0
    ensures x >= 0 ==> q == x / d
  {
    if x >= 0 then x / d else -((-x) / d)
  }

  /** The drop zone for a pointer `relativeY` pixels below the top of a node `nodeHeight`
      high: above a third of the height before the node, beyond two thirds after it, and
      into it in between. For a node of non-negative height these are the thirds in exact
      arithmetic. */
  function DropZone(relativeY: int, nodeHeight: int): (z: Zone)
    ensures nodeHeight >= 0 ==> (z == Before <==> 3 * relativeY + 3 <= nodeHeight)
    ensures nodeHeight >= 0 ==> (z == After <==> 3 * relativeY > 2 * nodeHeight)
  {
    if relativeY < Quotient(nodeHeight, 3) then Before
    else if relativeY > Quotient(2 * nodeHeight, 3) then After
    else Inside
  }

  /** `tvMenuItems_DragDrop` of `drag` onto `target`: rejected when there is no target or it
      lies in the subtree of `drag` (itself included); otherwise `MoveNode` before the target,
      after it, or to the end of its own list, by the zone. */
  ghost function Drop(s: Arrangement, drag: NodeId, target: Option<NodeId>, relativeY: int, nodeHeight: int): (r: Arrangement)
    requires Mirror(s.view, s.menu) && Forest(s.view) && drag < |s.view.tag|
    requires target.Some? ==> target.value < |s.view.tag|
    ensures r.view.tag == s.view.tag && r.menu.items == s.menu.items && r.menu.visible == s.menu.visible
  {
    var v := s.view;
    if target.None? || target.value == drag || Descendant(v, target.value, drag) then s
    else
      var t, zone := target.value, DropZone(relativeY, nodeHeight);
      ItemAtIndex(v, s.menu, t);
      MoveNode(s, drag, DropList(v, t, zone), DropIndex(v, t, zone))
  }

  /** The list a drop in `zone` of `t` moves into: the target's own list before or after
      it, the target's children inside it. */
  function DropList(v: View, t: NodeId, zone: Zone): Option<NodeId>
    requires Sized(v) && t < |v.tag|
  {
    if zone == Inside then Some(t) else v.parent[t]
  }

  /** The index a drop in `zone` of `t` asks for: the target's index before it, the next one
      after it, the end of the target's children inside it. */
  function DropIndex(v: View, t: NodeId, zone: Zone): int
    requires ViewOk(v) && t < |v.tag|
  {
    if zone == Inside then |v.nodes[t]| else Index(v, t) + (if zone == After then 1 else 0)
  }

  /** Where the target stands once `drag` has left the lists: one place earlier when `drag`
      stood before it in the same list. */
  lemma TargetAfterDetach(v: View, drag: NodeId, t: NodeId, pos: int)
    requires ViewOk(v) && drag < |v.tag| && t < |v.tag| && t != drag
    requires pos == Adjusted(v, drag, v.parent[t], Index(v, t))
    ensures pos >= 0 && Adjusted(v, drag, v.parent[t], Index(v, t) + 1) == pos + 1
    ensures pos < |Siblings(Detach(v, drag), v.parent[t])| && Siblings(Detach(v, drag), v.parent[t])[pos] == t
  {
    var pt, j := v.parent[t], Index(v, t);
    var T := Siblings(v, pt);
    if v.parent[drag] == pt {
      var i := Index(v, drag);
      assert T[i] == drag && T[j] == t;
      assert Siblings(Detach(v, drag), pt) == RemoveAt(T, i);
    } else {
      assert Siblings(Detach(v, drag), pt) == T;
    }
  }

  /** `MoveNode` to the target's list at the target's index puts the node right before the
      target; at the index after it, right after the target. */
  lemma MoveNextToTarget(s: Arrangement, drag: NodeId, t: NodeId, after: bool)
    requires Mirror(s.view, s.menu) && drag < |s.view.tag| && t < |s.view.tag| && t != drag
    ensures var r := MoveNode(s, drag, s.view.parent[t], Index(s.view, t) + (if after then 1 else 0));
      && Mirror(r.view, r.menu)
      && r.view.parent[drag] == s.view.parent[t] && r.view.parent[t] == s.view.parent[t]
      && (if after then Index(r.view, t) + 1 == Index(r.view, drag) else Index(r.view, drag) + 1 == Index(r.view, t))
  {
    ItemAtIndex(s.view, s.menu, drag);
    ItemAtIndex(s.view, s.menu, t);
    MoveNodeKeepsMirror(s, drag, s.view.parent[t], Index(s.view, t) + (if after then 1 else 0));
    NextToTargetIndices(s, drag, t, after);
  }

  lemma NextToTargetIndices(s: Arrangement, drag: NodeId, t: NodeId, after: bool)
    requires Tagged(s.view, s.menu) && ViewOk(s.view) && drag < |s.view.tag| && t < |s.view.tag| && t != drag
    requires Collection(s.view, s.menu, s.view.parent[t]).Some?
    requires Collection(s.view, s.menu, s.view.parent[drag]).Some?
    requires IndexOf(s.menu.kids[Collection(s.view, s.menu, s.view.parent[drag]).value], s.view.tag[drag]) == Index(s.view, drag)
    ensures var w := MoveNode(s, drag, s.view.parent[t], Index(s.view, t) + (if after then 1 else 0)).view;
      && ViewOk(w) && w.parent[drag] == s.view.parent[t] && w.parent[t] == s.view.parent[t]
      && (after ==> Index(w, t) + 1 == Index(w, drag))
      && (!after ==> Index(w, drag) + 1 == Index(w, t))
  {
    var v := s.view;
    var ni := Index(v, t) + (if after then 1 else 0);
    MoveNodeViewSplits(s, drag, v.parent[t], ni);
    assert MoveNode(s, drag, v.parent[t], ni).view == Attach(Detach(v, drag), drag, v.parent[t], Adjusted(v, drag, v.parent[t], ni));
    NextToTargetOrder(v, drag, t, after);
  }

  lemma NextToTargetOrder(v: View, drag: NodeId, t: NodeId, after: bool)
    requires ViewOk(v) && drag < |v.tag| && t < |v.tag| && t != drag
    ensures var w := Attach(Detach(v, drag), drag, v.parent[t], Adjusted(v, drag, v.parent[t], Index(v, t) + (if after then 1 else 0)));
      && ViewOk(w) && w.parent[drag] == v.parent[t] && w.parent[t] == v.parent[t]
      && (after ==> Index(w, t) + 1 == Index(w, drag))
      && (!after ==> Index(w, drag) + 1 == Index(w, t))
  {
    var pt := v.parent[t];
    var k := Adjusted(v, drag, pt, Index(v, t) + (if after then 1 else 0));
    var w := Attach(Detach(v, drag), drag, pt, k);
    DetachLoose(v, drag);
    AttachOk(Detach(v, drag), drag, pt, k);
    NextToTargetLists(v, drag, t, after);
    var pos := Adjusted(v, drag, pt, Index(v, t));
    IndexAt(w, pt, pos);
    IndexAt(w, pt, pos + 1);
  }

  /** The target's list after the move: target and node side by side. */
  lemma NextToTargetLists(v: View, drag: NodeId, t: NodeId, after: bool)
    requires ViewOk(v) && drag < |v.tag| && t < |v.tag| && t != drag
    ensures var pt := v.parent[t];
      var w := Attach(Detach(v, drag), drag, pt, Adjusted(v, drag, pt, Index(v, t) + (if after then 1 else 0)));
      var pos := Adjusted(v, drag, pt, Index(v, t));
      && pos >= 0 && w.parent[drag] == pt && w.parent[t] == pt && Has(w, pt) && pos + 1 < |Siblings(w, pt)|
      && (after ==> Siblings(w, pt)[pos] == t && Siblings(w, pt)[pos + 1] == drag)
      && (!after ==> Siblings(w, pt)[pos] == drag && Siblings(w, pt)[pos + 1] == t)
  {
    var pt := v.parent[t];
    var pos := Adjusted(v, drag, pt, Index(v, t));
    TargetAfterDetach(v, drag, t, pos);
    var k := if after then pos + 1 else pos;
    assert k == Adjusted(v, drag, pt, Index(v, t) + (if after then 1 else 0));
    var S1 := Siblings(Detach(v, drag), pt);
    DetachAttachLists(v, drag, pt, k);
    InsertNeighbours(S1, k, drag);
  }

  /** A drop that is not rejected is the move to the drop list at the drop index: before
      the target, after it, or to the end of its children. */
  lemma DropMoves(s: Arrangement, drag: NodeId, t: NodeId, relativeY: int, nodeHeight: int)
    requires Mirror(s.view, s.menu) && Forest(s.view) && drag < |s.view.tag| && t < |s.view.tag|
    requires t != drag && !Descendant(s.view, t, drag)
    ensures Has(s.view, s.view.parent[t])
    ensures DropZone(relativeY, nodeHeight) == Before ==>
      Drop(s, drag, Some(t), relativeY, nodeHeight) == MoveNode(s, drag, s.view.parent[t], Index(s.view, t))
    ensures DropZone(relativeY, nodeHeight) == After ==>
      Drop(s, drag, Some(t), relativeY, nodeHeight) == MoveNode(s, drag, s.view.parent[t], Index(s.view, t) + 1)
    ensures DropZone(relativeY, nodeHeight) == Inside ==>
      Drop(s, drag, Some(t), relativeY, nodeHeight) == MoveNode(s, drag, Some(t), |Siblings(s.view, Some(t))|)
  {
    var v, zone := s.view, DropZone(relativeY, nodeHeight);
    ItemAtIndex(v, s.menu, t);
    assert Drop(s, drag, Some(t), relativeY, nodeHeight) == MoveNode(s, drag, DropList(v, t, zone), DropIndex(v, t, zone));
    match zone
    case Before =>
      assert DropList(v, t, zone) == v.parent[t] && DropIndex(v, t, zone) == Index(v, t);
    case After =>
      assert DropList(v, t, zone) == v.parent[t] && DropIndex(v, t, zone) == Index(v, t) + 1;
    case Inside =>
      assert DropList(v, t, zone) == Some(t) && DropIndex(v, t, zone) == |Siblings(v, Some(t))|;
  }

  /** A drop in the upper third puts `drag` right before the target, in the target's list. */
  lemma DropBefore(s: Arrangement, drag: NodeId, t: NodeId, relativeY: int, nodeHeight: int)
    requires Mirror(s.view, s.menu) && Forest(s.view) && drag < |s.view.tag| && t < |s.view.tag|
    requires t != drag && !Descendant(s.view, t, drag) && DropZone(relativeY, nodeHeight) == Before
    ensures var r := Drop(s, drag, Some(t), relativeY, nodeHeight);
      && Mirror(r.view, r.menu)
      && r.view.parent[drag] == s.view.parent[t] && r.view.parent[t] == s.view.parent[t]
      && Index(r.view, drag) + 1 == Index(r.view, t)
  {
    DropMoves(s, drag, t, relativeY, nodeHeight);
    MoveNextToTarget(s, drag, t, false);
    MirrorOfEqual(MoveNode(s, drag, s.view.parent[t], Index(s.view, t)), Drop(s, drag, Some(t), relativeY, nodeHeight));
  }

  /** A drop in the lower third puts `drag` right after the target, in the target's list. */
  lemma DropAfter(s: Arrangement, drag: NodeId, t: NodeId, relativeY: int, nodeHeight: int)
    requires Mirror(s.view, s.menu) && Forest(s.view) && drag < |s.view.tag| && t < |s.view.tag|
    requires t != drag && !Descendant(s.view, t, drag) && DropZone(relativeY, nodeHeight) == After
    ensures var r := Drop(s, drag, Some(t), relativeY, nodeHeight);
      && Mirror(r.view, r.menu)
      && r.view.parent[drag] == s.view.parent[t] && r.view.parent[t] == s.view.parent[t]
      && Index(r.view, t) + 1 == Index(r.view, drag)
  {
    DropMoves(s, drag, t, relativeY, nodeHeight);
    MoveNextToTarget(s, drag, t, true);
    MirrorOfEqual(MoveNode(s, drag, s.view.parent[t], Index(s.view, t) + 1), Drop(s, drag, Some(t), relativeY, nodeHeight));
  }

  /** A drop in the middle third makes `drag` the last child of the target, or changes
      nothing when the target's item owns no collection. */
  lemma DropInside(s: Arrangement, drag: NodeId, t: NodeId, relativeY: int, nodeHeight: int)
    requires Mirror(s.view, s.menu) && Forest(s.view) && drag < |s.view.tag| && t < |s.view.tag|
    requires t != drag && !Descendant(s.view, t, drag) && DropZone(relativeY, nodeHeight) == Inside
    ensures Collection(s.view, s.menu, Some(t)).None? ==> Drop(s, drag, Some(t), relativeY, nodeHeight) == s
    ensures Collection(s.view, s.menu, Some(t)).Some? ==>
      var r := Drop(s, drag, Some(t), relativeY, nodeHeight);
      && Mirror(r.view, r.menu)
      && r.view.parent[drag] == Some(t)
      && Index(r.view, drag) + 1 == |Siblings(r.view, Some(t))|
  {
    var L := Siblings(s.view, Some(t));
    DropMoves(s, drag, t, relativeY, nodeHeight);
    MoveToLastChild(s, drag, t);
    if Collection(s.view, s.menu, Some(t)).Some? {
      MirrorOfEqual(MoveNode(s, drag, Some(t), |L|), Drop(s, drag, Some(t), relativeY, nodeHeight));
    }
  }

  /** Moving `drag` to the end of the children of `t` makes it their last, or changes
      nothing when the item of `t` owns no collection. */
  lemma MoveToLastChild(s: Arrangement, drag: NodeId, t: NodeId)
    requires Mirror(s.view, s.menu) && drag < |s.view.tag| && t < |s.view.tag|
    ensures var r := MoveNode(s, drag, Some(t), |Siblings(s.view, Some(t))|);
      && (Collection(s.view, s.menu, Some(t)).None? ==> r == s)
      && (Collection(s.view, s.menu, Some(t)).Some? ==>
            && Mirror(r.view, r.menu)
            && r.view.parent[drag] == Some(t)
            && Index(r.view, drag) + 1 == |Siblings(r.view, Some(t))|)
  {
    var v, a := s.view, s.menu;
    var L := Siblings(v, Some(t));
    var r := MoveNode(s, drag, Some(t), |L|);
    MoveNodeLands(s, drag, Some(t), |L|);
    if Collection(v, a, Some(t)).Some? {
      MoveNodeKeepsMirror(s, drag, Some(t), |L|);
      MoveNodeShape(s, drag, Some(t), |L|, Collection(v, a, Some(t)).value);
      var len := |L| - (if v.parent[drag] == Some(t) then 1 else 0);
      assert |Siblings(r.view, Some(t))| == len + 1;
      IndexAt(r.view, Some(t), len);
    }
  }

  // ----- every command keeps the view a forest -----

  /** A move within the node's own list keeps every parent chain finite: that list does
      not lie in the node's subtree. */
  lemma SameListKeepsForest(s: Arrangement, n: NodeId, newIndex: int)
    requires Mirror(s.view, s.menu) && Forest(s.view) && n < |s.view.tag|
    ensures Forest(MoveNode(s, n, s.view.parent[n], newIndex).view)
  {
    var v, p := s.view, s.view.parent[n];
    assert Has(v, p);
    if p.Some? {
      ParentOutsideSubtree(v, n, p.value);
    }
    MoveNodeKeepsForest(s, n, p, newIndex);
  }

  /** Move up keeps the view a forest. */
  lemma MoveUpKeepsForest(s: Arrangement, n: NodeId)
    requires Mirror(s.view, s.menu) && Forest(s.view) && n < |s.view.tag|
    ensures Forest(MoveUp(s, n).view)
  {
    var i := Index(s.view, n);
    MoveUpMoves(s, n);
    if i > 0 {
      SameListKeepsForest(s, n, i - 1);
    }
  }

  /** Move down, as written and corrected, keeps the view a forest. */
  lemma MoveDownKeepsForest(s: Arrangement, n: NodeId)
    requires Mirror(s.view, s.menu) && Forest(s.view) && n < |s.view.tag|
    ensures Forest(MoveDown(s, n).view) && Forest(MoveDownPastSuccessor(s, n).view)
  {
    var i := Index(s.view, n);
    SameListKeepsForest(s, n, i + 1);
    SameListKeepsForest(s, n, i + 2);
  }

  /** Indent keeps every parent chain finite: the previous sibling is not in the node's
      subtree. */
  lemma IndentKeepsForest(s: Arrangement, n: NodeId)
    requires Mirror(s.view, s.menu) && Forest(s.view) && n < |s.view.tag|
    ensures Forest(Indent(s, n).view)
  {
    var v, p, i := s.view, s.view.parent[n], Index(s.view, n);
    if i > 0 {
      var prev := Siblings(v, p)[i - 1];
      PreviousSibling(s, n, prev);
      if p.Some? {
        ParentOutsideSubtree(v, n, p.value);
      }
      DescendantStep(v, prev, n);
      MoveNodeKeepsForest(s, n, Some(prev), |Siblings(v, Some(prev))|);
    }
  }

  /** Outdent keeps every parent chain finite: the grandparent is not in the node's
      subtree. */
  lemma OutdentKeepsForest(s: Arrangement, n: NodeId)
    requires Mirror(s.view, s.menu) && Forest(s.view) && n < |s.view.tag|
    ensures Forest(Outdent(s, n).view)
  {
    var v := s.view;
    if v.parent[n].Some? {
      var q := v.parent[n].value;
      OutdentMoves(s, n);
      assert Outdent(s, n) == MoveNode(s, n, v.parent[q], Index(v, q) + 1);
      ItemAtIndex(v, s.menu, n);
      ParentOutsideSubtree(v, n, q);
      DescendantStep(v, q, n);
      MoveNodeKeepsForest(s, n, v.parent[q], Index(v, q) + 1);
    }
  }

  /** A drop keeps the view a forest: the rejection of targets inside the dragged subtree
      is exactly what keeps the new parent outside it. */
  lemma DropKeepsForest(s: Arrangement, drag: NodeId, target: Option<NodeId>, relativeY: int, nodeHeight: int)
    requires Mirror(s.view, s.menu) && Forest(s.view) && drag < |s.view.tag|
    requires target.Some? ==> target.value < |s.view.tag|
    ensures Forest(Drop(s, drag, target, relativeY, nodeHeight).view)
  {
    var v := s.view;
    if target.Some? && target.value != drag && !Descendant(v, target.value, drag) {
      var t, zone := target.value, DropZone(relativeY, nodeHeight);
      assert Drop(s, drag, target, relativeY, nodeHeight) == MoveNode(s, drag, DropList(v, t, zone), DropIndex(v, t, zone));
      ItemAtIndex(v, s.menu, t);
      DescendantStep(v, t, drag);
      MoveNodeKeepsForest(s, drag, DropList(v, t, zone), DropIndex(v, t, zone));
    }
  }

  /** Outdent puts the node right after its former parent, in the grandparent's list. */
  lemma OutdentPlacesAfterParent(s: Arrangement, n: NodeId, q: NodeId)
    requires Mirror(s.view, s.menu) && Forest(s.view) && n < |s.view.tag| && s.view.parent[n] == Some(q)
    ensures q < |s.view.tag|
    ensures var r := Outdent(s, n);
      && Mirror(r.view, r.menu)
      && r.view.parent[n] == s.view.parent[q] && r.view.parent[q] == s.view.parent[q]
      && Index(r.view, q) + 1 == Index(r.view, n)
  {
    var v := s.view;
    OutdentMoves(s, n);
    assert Outdent(s, n) == MoveNode(s, n, v.parent[q], Index(v, q) + 1);
    ParentDiffers(v, n);
    MoveNextToTarget(s, n, q, true);
  }
}
