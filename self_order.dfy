/** Restoring the order a menu would itself persist leaves that menu untouched, provided the
    codec identifiers of its items are unique and free of the `:` and `;` delimiters. */
module SelfOrder {
  import opened Menus
  import opened OrderCodec
  import opened OrderRestorer
  import opened RestoreFacts

  /** No two items met by the pre-order walk share a codec identifier. */
  predicate UniqueIdentifiers(a: Arena)
    requires Valid(a)
  {
    var p := PreOrder(a);
    forall j, k | 0 <= j < k < |p| :: Identifier(a.items[p[j].item]) != Identifier(a.items[p[k].item])
  }

  /** The conditions under which the persisted text reads back token for token: identifiers
      unique and without delimiters, and every depth representable as an `Int32`. */
  predicate Persistable(a: Arena)
    requires Valid(a)
  {
    && CleanIdentifiers(a)
    && UniqueIdentifiers(a)
    && forall v | v in PreOrder(a) :: v.level <= Int32Max
  }

  /** With unique identifiers, the map built from a menu sends each visited item's identifier
      to that very item. */
  lemma MapFindsVisited(a: Arena, v: Visit)
    requires Valid(a) && UniqueIdentifiers(a) && v in PreOrder(a)
    ensures Identifier(a.items[v.item]) in MenuItemMap(a)
    ensures MenuItemMap(a)[Identifier(a.items[v.item])] == v.item
  {
    var p := PreOrder(a);
    var j :| 0 <= j < |p| && p[j] == v;
    AddFirstKeepsFirst(a, map[], p, j);
  }

  /** With unique identifiers, each item is met once, so `FindItemLocation` from the root
      answers with the slot where the walk met it. */
  lemma LocateUnique(a: Arena, v: Visit)
    requires Valid(a) && UniqueIdentifiers(a) && v in PreOrder(a)
    ensures Locate(a, a.root, v.item, Enterable(a)) == Some(Location(v.parent, v.index))
  {
    var p := PreOrder(a);
    LocateIffVisited(a, v.item);
    var loc := Locate(a, a.root, v.item, Enterable(a)).value;
    LocateFindsVisitedSlot(a, a.root, v.item, 0, Enterable(a));
    var w: Visit;
    if Visit(v.item, 0, loc.parent, loc.index) in p {
      w := Visit(v.item, 0, loc.parent, loc.index);
    } else {
      w :| w in p && w.item == v.item && w.parent == loc.parent && w.index == loc.index;
    }
    var j :| 0 <= j < |p| && p[j] == v;
    var k :| 0 <= k < |p| && p[k] == w;
    assert j == k;
  }

  lemma TakeOneMore<T>(s: seq<T>, i: nat)
    requires i < |s|
    ensures s[..i + 1] == s[..i] + [s[i]]
  {
  }

  /** The entries a sequence of visits reads back as: one token per visit, carrying its depth
      and its codec identifier. */
  function Tokens(a: Arena, vs: seq<Visit>): (es: seq<Entry>)
    requires forall v | v in vs :: v.item < |a.items|
    ensures |es| == |vs|
  {
    seq(|vs|, k requires 0 <= k < |vs| => Token(vs[k].level, Identifier(a.items[vs[k].item])))
  }

  lemma TokensAppend(a: Arena, xs: seq<Visit>, ys: seq<Visit>)
    requires forall v | v in xs + ys :: v.item < |a.items|
    ensures Tokens(a, xs + ys) == Tokens(a, xs) + Tokens(a, ys)
  {
    assert forall v | v in xs :: v in xs + ys;
    assert forall v | v in ys :: v in xs + ys;
  }

  /** The persisted text of a persistable menu reads back as the tokens of its pre-order walk. */
  lemma ReadsOwnTokens(a: Arena)
    requires Valid(a) && Persistable(a)
    ensures Classified(Fragments(SerializeMenuOrder(a))) == Tokens(a, PreOrder(a))
  {
    var p := PreOrder(a);
    var ts := TokenTexts(a, p);
    SerializeWritesWalk(a, a.root, 0, 0, Enterable(a));
    TokenTextsReadBack(a, p);
    FragmentsOfJoined(ts);
    forall k | 0 <= k < |p|
      ensures Classified(ts)[k] == Tokens(a, p)[k]
    {
      ClassifiedAt(ts, k);
    }
  }

  /** A child slice that runs over `n` tokens deeper than `level` and stops at the end or at a
      token no deeper than `level`. */
  lemma {:induction false} ChildSliceOfDeeper(es: seq<Entry>, j: nat, level: int, n: nat)
    requires j + n <= |es|
    requires forall k | j <= k < j + n :: es[k].Token? && es[k].level > level
    requires j + n < |es| ==> es[j + n].Token? && es[j + n].level <= level
    ensures ChildSlice(es, j, level) == Sliced(es[j..j + n], j + n)
    decreases n
  {
    if n > 0 {
      ChildSliceOfDeeper(es, j + 1, level, n - 1);
      assert es[j..j + n] == [es[j]] + es[j + 1..j + n];
    }
  }

  /** The visits the walk makes below child `i` of `c`. */
  function Below(a: Arena, c: Id, i: nat, level: nat, free: set<Id>): seq<Visit>
    requires Valid(a) && c < |a.items| && i < |a.kids[c]|
  {
    var x := a.kids[c][i];
    if Descends(a, x) && x in free then Walk(a, x, 0, level + 1, free - {x}) else []
  }

  /** The walk from child `i`: its own visit, the visits below it, then those of the children
      after it, every one of them part of the menu's walk. */
  lemma WalkStep(a: Arena, c: Id, level: nat, free: set<Id>, i: nat)
    requires Valid(a) && c < |a.items| && i < |a.kids[c]|
    requires forall v | v in Walk(a, c, i, level, free) :: v in PreOrder(a)
    ensures Walk(a, c, i, level, free)
         == [Visit(a.kids[c][i], level, c, i)] + Below(a, c, i, level, free) + Walk(a, c, i + 1, level, free)
    ensures forall v | v in Walk(a, c, i + 1, level, free) :: v in PreOrder(a)
    ensures forall v | v in Below(a, c, i, level, free) :: v in PreOrder(a)
  {
  }

  /** The visits below a child are one level deeper or more. */
  lemma BelowDeeper(a: Arena, c: Id, i: nat, level: nat, free: set<Id>)
    requires Valid(a) && c < |a.items| && i < |a.kids[c]|
    ensures forall v | v in Below(a, c, i, level, free) :: v.level > level
  {
    var x := a.kids[c][i];
    if Descends(a, x) && x in free {
      WalkSlots(a, x, 0, level + 1, free - {x});
    }
  }

  /** The walk after child `i` starts back at depth `level`. */
  lemma WalkStartsAtLevel(a: Arena, c: Id, i: nat, level: nat, free: set<Id>)
    requires Valid(a) && c < |a.items|
    ensures |Walk(a, c, i, level, free)| > 0 ==> Walk(a, c, i, level, free)[0].level == level
  {
  }

  /** The tokens of child `i`'s walk: its own, those below it, then those of the children
      after it. */
  lemma OwnTokensSplit(a: Arena, c: Id, level: nat, free: set<Id>, es: seq<Entry>, index: nat, i: nat, next: nat)
    requires Valid(a) && c < |a.items| && i < |a.kids[c]|
    requires forall v | v in Walk(a, c, i, level, free) :: v in PreOrder(a)
    requires index <= |es| && es[index..] == Tokens(a, Walk(a, c, i, level, free))
    requires next == index + 1 + |Below(a, c, i, level, free)|
    ensures next <= |es|
    ensures es[index] == Token(level, Identifier(a.items[a.kids[c][i]]))
    ensures es[index + 1..next] == Tokens(a, Below(a, c, i, level, free))
    ensures es[next..] == Tokens(a, Walk(a, c, i + 1, level, free))
  {
    var x := a.kids[c][i];
    var head := [Visit(x, level, c, i)];
    var sub := Below(a, c, i, level, free);
    var rest := Walk(a, c, i + 1, level, free);
    WalkStep(a, c, level, free, i);
    TokensAppend(a, head + sub, rest);
    TokensAppend(a, head, sub);
    assert Tokens(a, head) == [Token(level, Identifier(a.items[x]))];
    SuffixParts(es, index, Tokens(a, head), Tokens(a, sub), Tokens(a, rest));
  }

  /** A suffix made of three parts, the first of one entry, yields each part by position. */
  lemma SuffixParts(es: seq<Entry>, index: nat, head: seq<Entry>, sub: seq<Entry>, rest: seq<Entry>)
    requires index <= |es| && es[index..] == head + sub + rest && |head| == 1
    ensures index + 1 + |sub| <= |es|
    ensures es[index] == head[0]
    ensures es[index + 1..index + 1 + |sub|] == sub
    ensures es[index + 1 + |sub|..] == rest
  {
    var ts := es[index..];
    assert es[index] == ts[0];
    assert es[index + 1..index + 1 + |sub|] == ts[1..1 + |sub|];
    assert es[index + 1 + |sub|..] == ts[1 + |sub|..];
  }

  /** The tokens below child `i` are deeper than `level`, and the next one is not. */
  lemma OwnTokensNest(a: Arena, c: Id, level: nat, free: set<Id>, es: seq<Entry>, index: nat, i: nat, next: nat)
    requires Valid(a) && c < |a.items| && i < |a.kids[c]|
    requires next == index + 1 + |Below(a, c, i, level, free)| && next <= |es|
    requires es[index + 1..next] == Tokens(a, Below(a, c, i, level, free))
    requires es[next..] == Tokens(a, Walk(a, c, i + 1, level, free))
    ensures forall k | index + 1 <= k < next :: es[k].Token? && es[k].level > level
    ensures next < |es| ==> es[next].Token? && es[next].level <= level
  {
    var sub := Below(a, c, i, level, free);
    BelowDeeper(a, c, i, level, free);
    forall k | index + 1 <= k < next
      ensures es[k].Token? && es[k].level > level
    {
      var t := k - (index + 1);
      assert es[index + 1..next][t] == es[k];
      assert sub[t] in sub;
    }
    if next < |es| {
      WalkStartsAtLevel(a, c, i + 1, level, free);
      assert es[next..][0] == es[next];
    }
  }

  /** Every child of a container whose walk is part of the menu's walk is found where it is. */
  lemma OwnChildrenInPlace(a: Arena, c: Id, level: nat, free: set<Id>)
    requires Valid(a) && UniqueIdentifiers(a) && c < |a.items|
    requires forall v | v in Walk(a, c, 0, level, free) :: v in PreOrder(a)
    ensures Place(a, c, a.kids[c], 0) == Run(a, false)
  {
    forall j | 0 <= j < |a.kids[c]|
      ensures Locate(a, a.root, a.kids[c][j], Enterable(a)) == Some(Location(c, j))
    {
      WalkCovers(a, c, 0, level, free, j);
      LocateUnique(a, Visit(a.kids[c][j], level, c, j));
    }
    PlaceInPlace(a, c, a.kids[c], 0);
  }

  /** Scanning the tokens a container's own walk produced, from the token of child `i`, with
      its children before `i` already collected, places every child where it already is. */
  lemma {:induction false} ScanOwnTokens(a: Arena, c: Id, level: nat, free: set<Id>,
                                         es: seq<Entry>, index: nat, i: nat)
    requires Valid(a) && UniqueIdentifiers(a) && c < |a.items| && i <= |a.kids[c]|
    requires forall v | v in Walk(a, c, 0, level, free) :: v in PreOrder(a)
    requires forall v | v in Walk(a, c, i, level, free) :: v in PreOrder(a)
    requires index <= |es| && es[index..] == Tokens(a, Walk(a, c, i, level, free))
    ensures Scan(a, MenuItemMap(a), c, es, level, index, a.kids[c][..i]) == Run(a, false)
    decreases free, |a.kids[c]| - i, 2
  {
    if i == |a.kids[c]| {
      assert a.kids[c][..i] == a.kids[c];
      ScanOwnEnd(a, c, level, free, es, index);
    } else {
      var next := index + 1 + |Below(a, c, i, level, free)|;
      ScanOwnStep(a, c, level, free, es, index, i, next);
      ScanOwnTokens(a, c, level, free, es, next, i + 1);
    }
  }

  /** Past the last child's tokens the scan places the children where they already are. */
  lemma ScanOwnEnd(a: Arena, c: Id, level: nat, free: set<Id>, es: seq<Entry>, index: nat)
    requires Valid(a) && UniqueIdentifiers(a) && c < |a.items|
    requires forall v | v in Walk(a, c, 0, level, free) :: v in PreOrder(a)
    requires index <= |es| && es[index..] == Tokens(a, Walk(a, c, |a.kids[c]|, level, free))
    ensures Scan(a, MenuItemMap(a), c, es, level, index, a.kids[c]) == Run(a, false)
  {
    assert index == |es|;
    OwnChildrenInPlace(a, c, level, free);
  }

  /** The scan accepts child `i` by its own token, reconciles the tokens below it without
      change, and resumes at the token of child `i + 1`. */
  lemma {:induction false} ScanOwnStep(a: Arena, c: Id, level: nat, free: set<Id>,
                                       es: seq<Entry>, index: nat, i: nat, next: nat)
    requires Valid(a) && UniqueIdentifiers(a) && c < |a.items| && i < |a.kids[c]|
    requires forall v | v in Walk(a, c, i, level, free) :: v in PreOrder(a)
    requires index <= |es| && es[index..] == Tokens(a, Walk(a, c, i, level, free))
    requires next == index + 1 + |Below(a, c, i, level, free)|
    ensures next <= |es| && es[next..] == Tokens(a, Walk(a, c, i + 1, level, free))
    ensures forall v | v in Walk(a, c, i + 1, level, free) :: v in PreOrder(a)
    ensures Scan(a, MenuItemMap(a), c, es, level, index, a.kids[c][..i])
         == Scan(a, MenuItemMap(a), c, es, level, next, a.kids[c][..i + 1])
    decreases free, |a.kids[c]| - i, 1
  {
    var m := MenuItemMap(a);
    var x := a.kids[c][i];
    WalkStep(a, c, level, free, i);
    OwnTokensSplit(a, c, level, free, es, index, i, next);
    WalkCovers(a, c, i, level, free, i);
    MapFindsVisited(a, Visit(x, level, c, i));
    assert forall d | d in a.kids[c][..i] :: d < |a.items|;
    TakeOneMore(a.kids[c], i);
    assert Scan(a, m, c, es, level, index, a.kids[c][..i]) == Admit(a, m, c, es, level, index, a.kids[c][..i], x);
    if Descends(a, x) {
      AdmitOwnDropDown(a, c, level, free, es, index, i, next);
    } else {
      AdmitLeaf(a, m, c, es, level, index, a.kids[c][..i], x);
    }
  }

  /** Accepting a drop-down child by its own token: its slice is exactly the tokens of its
      own walk, which reconcile without change. */
  lemma {:induction false} AdmitOwnDropDown(a: Arena, c: Id, level: nat, free: set<Id>,
                                            es: seq<Entry>, index: nat, i: nat, next: nat)
    requires Valid(a) && UniqueIdentifiers(a) && c < |a.items| && i < |a.kids[c]|
    requires Descends(a, a.kids[c][i])
    requires forall v | v in Walk(a, c, i, level, free) :: v in PreOrder(a)
    requires index <= |es| && es[index..] == Tokens(a, Walk(a, c, i, level, free))
    requires next == index + 1 + |Below(a, c, i, level, free)|
    ensures index < |es| && next <= |es| && forall d | d in a.kids[c][..i] :: d < |a.items|
    ensures Admit(a, MenuItemMap(a), c, es, level, index, a.kids[c][..i], a.kids[c][i])
         == Scan(a, MenuItemMap(a), c, es, level, next, a.kids[c][..i + 1])
    decreases free, |a.kids[c]| - i, 0
  {
    var m := MenuItemMap(a);
    var x := a.kids[c][i];
    var sub := Below(a, c, i, level, free);
    WalkStep(a, c, level, free, i);
    OwnChildSlice(a, c, level, free, es, index, i, next);
    var children := Tokens(a, sub);
    assert forall d | d in a.kids[c][..i] :: d < |a.items|;
    TakeOneMore(a.kids[c], i);
    if |sub| > 0 {
      OwnChildrenReconciled(a, x, level + 1, free - {x});
    }
    AdmitDescends(a, m, c, es, level, index, a.kids[c][..i], x, children, next, a);
  }

  /** The child slice that follows child `i`'s token is the tokens of the walk below it. */
  lemma OwnChildSlice(a: Arena, c: Id, level: nat, free: set<Id>, es: seq<Entry>, index: nat, i: nat, next: nat)
    requires Valid(a) && c < |a.items| && i < |a.kids[c]|
    requires forall v | v in Walk(a, c, i, level, free) :: v in PreOrder(a)
    requires index <= |es| && es[index..] == Tokens(a, Walk(a, c, i, level, free))
    requires next == index + 1 + |Below(a, c, i, level, free)|
    ensures index < next <= |es|
    ensures ChildSlice(es, index + 1, level) == Sliced(Tokens(a, Below(a, c, i, level, free)), next)
  {
    OwnTokensSplit(a, c, level, free, es, index, i, next);
    OwnTokensNest(a, c, level, free, es, index, i, next);
    DeeperRunSlice(es, index, next, level, Tokens(a, Below(a, c, i, level, free)));
  }

  /** The child slice after `index` is the run up to `next` when that run is deeper than
      `level` and the token at `next`, if any, is not. */
  lemma DeeperRunSlice(es: seq<Entry>, index: nat, next: nat, level: int, run: seq<Entry>)
    requires index < next <= |es| && es[index + 1..next] == run
    requires forall k | index + 1 <= k < next :: es[k].Token? && es[k].level > level
    requires next < |es| ==> es[next].Token? && es[next].level <= level
    ensures ChildSlice(es, index + 1, level) == Sliced(run, next)
  {
    ChildSliceOfDeeper(es, index + 1, level, next - (index + 1));
  }

  /** A drop-down's own tokens reconcile under it without change. */
  lemma {:induction false} OwnChildrenReconciled(a: Arena, x: Id, level: nat, free: set<Id>)
    requires Valid(a) && UniqueIdentifiers(a) && x < |a.items|
    requires forall v | v in Walk(a, x, 0, level, free) :: v in PreOrder(a)
    ensures Reconcile(a, MenuItemMap(a), x, Tokens(a, Walk(a, x, 0, level, free)), level) == Run(a, false)
    decreases free, |a.kids[x]| + 1, 0
  {
    var es := Tokens(a, Walk(a, x, 0, level, free));
    assert es[0..] == es;
    ScanOwnTokens(a, x, level, free, es, 0, 0);
    assert a.kids[x][..0] == [];
  }

  /** Restoring a menu's own persisted order moves nothing: every item is already found at
      the index its container's tokens ask for. */
  lemma RestoreOwnOrderChangesNothing(a: Arena)
    requires Valid(a) && Persistable(a)
    ensures Restore(a, SerializeMenuOrder(a)) == Run(a, false)
  {
    if SerializeMenuOrder(a) != "" {
      var es := Tokens(a, PreOrder(a));
      ReadsOwnTokens(a);
      assert es[0..] == es;
      ScanOwnTokens(a, a.root, 0, Enterable(a), es, 0, 0);
      assert a.kids[a.root][..0] == [];
    }
  }

  /** The depth bound of `Persistable` holds of every menu with at most `Int32.MaxValue` items. */
  lemma DepthsFit(a: Arena)
    requires Valid(a) && |a.items| <= Int32Max
    ensures forall v | v in PreOrder(a) :: v.level <= Int32Max
  {
    WalkDepthBound(a, a.root, 0, 0, Enterable(a));
    assert |Enterable(a)| < |a.items| by {
      assert Enterable(a) < Ids(|a.items|);
      IdsSize(|a.items|);
    }
  }
}
