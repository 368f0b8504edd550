/** Moving the top page of a tree to another page id: the root split copies the root page away, the
    root collapse copies the only child back. */
module BTreeRoot {
  import opened PageIds
  import opened BTreeShape
  import opened BTreeNodes
  import opened BTreePages
  import opened BTreeSpots
  import opened BTreeInsertSplit

  const ROOT_SPOT := Spot(INVALID_PAGE_ID, true, [], [])

  /** The fewest keys a root page may hold. */
  ghost function RootMinimum(t: Tree): nat {
    if t.Leaf? then 0 else 1
  }

  /** t with its top page at another id. */
  ghost function WithId(t: Tree, id: PageId): Tree {
    match t
    case Leaf(_, es) => Leaf(id, es)
    case Node(_, seps, kids) => Node(id, seps, kids)
  }

  lemma WithIdFacts(c: Caps, t: Tree, id: PageId, h: nat, lo: nat)
    requires Fits(c, t, h, lo)
    requires Distinct(t) && (t.Node? ==> id !in AllIds(t.kids))
    ensures Entries(WithId(t, id)) == Entries(t)
    ensures Fits(c, WithId(t, id), h, lo) && Distinct(WithId(t, id))
    ensures Ids(WithId(t, id)) <= Ids(t) + {id}
    ensures t.Node? ==> Leaves(WithId(t, id)) == Leaves(t)
  {
  }

  /** The children of a page, as its header and entries list them; a leaf has none. */
  function ChildIds(page: Page): seq<PageId> {
    if page.InternalPage? then page.kids else []
  }

  /** Copying the top page of t to page id and having its children adopted there. */
  lemma RepMoved(p: Pages, q: Pages, t: Tree, parent: PageId, root: bool, id: PageId, parent': PageId, root': bool)
    requires Rep(p, t, parent, root) && Distinct(t) && (t.Node? ==> id !in AllIds(t.kids))
    requires t.id in p && q == Adopted(p[id := WithHeader(p[t.id], parent', root')], ChildIds(p[t.id]), id)
    ensures Rep(q, WithId(t, id), parent', root')
    ensures t.Node? ==> Kept(p, q, {id} + AllIds(t.kids), [])
    ensures t.Leaf? ==> Kept(p, q, {id}, [])
  {
    if t.Node? {
      var mid := p[id := WithHeader(p[t.id], parent', root')];
      RepAllKept(p, mid, t.kids, t.id, {id}, []);
      RepAdopted(mid, q, t.kids, t.id, id);
      forall x | x in KidIds(t.kids) ensures x in AllIds(t.kids) {
        KidIdsIn(t.kids, x);
      }
    }
  }

  /** The new root over both halves of the old one. */
  ghost function NewRoot(root: PageId, sep: Key, left: PageId, t1: Tree, t2: Tree): Tree {
    Node(root, [sep], [WithId(t1, left), t2])
  }

  lemma NewRootShape(c: Caps, root: PageId, sep: Key, left: PageId, t1: Tree, t2: Tree, h: nat)
    requires c.Valid() && Good(c, t1, h) && Good(c, t2, h) && Bounds(sep, t2)
    requires Distinct(t1) && Distinct(t2) && Ids(t1) !! Ids(t2) && t1.id == root
    requires left !in Ids(t1) + Ids(t2)
    ensures Fits(c, NewRoot(root, sep, left, t1, t2), h + 1, 1)
    ensures Distinct(NewRoot(root, sep, left, t1, t2))
    ensures Entries(NewRoot(root, sep, left, t1, t2)) == Entries(t1) + Entries(t2)
    ensures Leaves(NewRoot(root, sep, left, t1, t2)) == Leaves(WithId(t1, left)) + Leaves(t2)
    ensures Ids(NewRoot(root, sep, left, t1, t2)) <= Ids(t1) + Ids(t2) + {left}
  {
    var u := WithId(t1, left);
    IdWithin(t1);
    WithIdFacts(c, t1, left, h, Minimum(c, h));
    Pair(u, t2);
    assert Exact([sep], [u, t2]);
  }

  /** The page store after the root split. */
  ghost function RootSplitPages(p: Pages, root: PageId, sep: Key, left: PageId, right: PageId): (q: Pages)
    requires root in p && right in p
  {
    var q := Adopted(p[left := WithHeader(p[root], root, false)], ChildIds(p[root]), left);
    var r := q[root := InternalPage(true, INVALID_PAGE_ID, [sep], [left, right])];
    var page := WithHeader(r[right], root, false);
    r[right := if page.LeafPage? then page.(prev := left) else page]
  }

  lemma RootSplitRep(c: Caps, p: Pages, q: Pages, root: PageId, sep: Key, left: PageId, t1: Tree, t2: Tree, h: nat)
    requires Rep(p, t1, INVALID_PAGE_ID, true) && Rep(p, t2, INVALID_PAGE_ID, false)
    requires Distinct(t1) && Distinct(t2) && Ids(t1) !! Ids(t2) && t1.id == root && left !in p
    requires Fits(c, t1, h, 0) && Fits(c, t2, h, 0)
    requires root in p && t2.id in p && q == RootSplitPages(p, root, sep, left, t2.id)
    ensures Rep(q, NewRoot(root, sep, left, t1, t2), INVALID_PAGE_ID, true)
    ensures Kept(p, q, Ids(t1) + Ids(t2), [])
  {
    IdsStored(p, t1, INVALID_PAGE_ID, true);
    IdsStored(p, t2, INVALID_PAGE_ID, false);
    IdWithin(t1);
    IdWithin(t2);
    var u := WithId(t1, left);
    var mid := Adopted(p[left := WithHeader(p[root], root, false)], ChildIds(p[root]), left);
    RepMoved(p, mid, t1, INVALID_PAGE_ID, true, left, root, false);
    WithIdFacts(c, t1, left, h, 0);
    RepKept(mid, q, u, root, false, {root, t2.id}, []);
    RootSplitRight(p, mid, q, root, left, t1, t2);
    assert RepAll(q, [u, t2], root);
    Pair(u, t2);
  }

  lemma RootSplitRight(p: Pages, mid: Pages, q: Pages, root: PageId, left: PageId, t1: Tree, t2: Tree)
    requires Rep(p, t2, INVALID_PAGE_ID, false) && Distinct(t2) && Ids(t1) !! Ids(t2) && t1.id == root
    requires left !in Ids(t2)
    requires Kept(p, mid, {left} + (if t1.Node? then AllIds(t1.kids) else {}), [])
    requires Kept(mid, q, {root, t2.id}, [])
    requires t2.id in mid && t2.id in q && q[t2.id].parent == root && !q[t2.id].isRoot
    requires mid[t2.id].LeafPage? ==> q[t2.id].LeafPage? && q[t2.id].entries == mid[t2.id].entries
    requires mid[t2.id].InternalPage? ==>
      q[t2.id].InternalPage? && q[t2.id].seps == mid[t2.id].seps && q[t2.id].kids == mid[t2.id].kids
    ensures Rep(q, t2, root, false)
  {
    IdWithin(t1);
    RepKept(p, mid, t2, INVALID_PAGE_ID, false, {left} + (if t1.Node? then AllIds(t1.kids) else {}), []);
    RepReparent(mid, q, t2, INVALID_PAGE_ID, false, {root, t2.id}, root, false);
  }

  lemma RootSplitChain(p: Pages, q: Pages, root: PageId, sep: Key, left: PageId, t1: Tree, t2: Tree)
    requires Rep(p, t1, INVALID_PAGE_ID, true) && Rep(p, t2, INVALID_PAGE_ID, false) && t1.Leaf? == t2.Leaf?
    requires t1.id == root && left !in p && Ids(t1) !! Ids(t2) && INVALID_PAGE_ID !in p
    requires root in p && t2.id in p && q == RootSplitPages(p, root, sep, left, t2.id)
    requires Chain(p, [] + (Leaves(t1) + Leaves(t2)) + [])
    ensures Chain(q, Leaves(WithId(t1, left)) + Leaves(t2))
  {
    IdWithin(t1);
    IdWithin(t2);
    var ls := [] + (Leaves(t1) + Leaves(t2)) + [];
    if t1.Leaf? {
      assert ls == [root, t2.id];
      assert Linked(p, ls, 0) && Linked(p, ls, 1);
      var ms := [left, t2.id];
      assert Leaves(WithId(t1, left)) + Leaves(t2) == ms;
      assert Linked(q, ms, 0) && Linked(q, ms, 1);
    } else {
      assert ls == Leaves(WithId(t1, left)) + Leaves(t2);
      forall i | 0 <= i < |ls| ensures SameLinks(p, q, ls[i]) {
        assert Linked(p, ls, i);
      }
      ChainSame(p, q, ls);
    }
  }

  /** After a root split the whole tree is well formed, one level higher, with the root page in place. */
  lemma RootSplit(c: Caps, p: Pages, q: Pages, root: PageId, sep: Key, left: PageId, t1: Tree, t2: Tree, h: nat)
    requires c.Valid() && INVALID_PAGE_ID !in p && left !in p && left != INVALID_PAGE_ID
    requires Rep(p, t1, INVALID_PAGE_ID, true) && Rep(p, t2, INVALID_PAGE_ID, false)
    requires Distinct(t1) && Distinct(t2) && Ids(t1) !! Ids(t2) && t1.id == root
    requires Good(c, t1, h) && Good(c, t2, h) && Bounds(sep, t2) && Sorted(Entries(t1) + Entries(t2))
    requires Chain(p, [] + (Leaves(t1) + Leaves(t2)) + [])
    requires root in p && t2.id in p && q == RootSplitPages(p, root, sep, left, t2.id)
    ensures Sub(c, q, NewRoot(root, sep, left, t1, t2), h + 1, 1, ROOT_SPOT)
    ensures Entries(NewRoot(root, sep, left, t1, t2)) == Entries(t1) + Entries(t2)
    ensures Kept(p, q, Ids(t1) + Ids(t2), [])
    ensures Ids(NewRoot(root, sep, left, t1, t2)) <= Ids(t1) + Ids(t2) + {left}
  {
    hide Rep, RepAll, Chain;
    IdsStored(p, t1, INVALID_PAGE_ID, true);
    IdsStored(p, t2, INVALID_PAGE_ID, false);
    NewRootShape(c, root, sep, left, t1, t2, h);
    RootSplitRep(c, p, q, root, sep, left, t1, t2, h);
    RootSplitChain(p, q, root, sep, left, t1, t2);
    var ls := Leaves(WithId(t1, left)) + Leaves(t2);
    assert ROOT_SPOT.pre + ls + ROOT_SPOT.post == ls;
  }

  // ---- Collapse ----------------------------------------------------------------------------

  /** The page store after the root's only child was copied into the root page. */
  ghost function CollapsePages(p: Pages, root: PageId, child: PageId): (q: Pages)
    requires child in p
  {
    Adopted(p[root := WithHeader(p[child], INVALID_PAGE_ID, true)], ChildIds(p[child]), root)
  }

  /** Collapsing a root without separators keeps the entries and the root page id, one level lower. */
  lemma Collapse(c: Caps, p: Pages, q: Pages, t: Tree, h: nat)
    requires Sub(c, p, t, h, 0, ROOT_SPOT) && t.Node? && t.seps == []
    requires t.kids[0].id in p && q == CollapsePages(p, t.id, t.kids[0].id)
    ensures var u := WithId(t.kids[0], t.id);
      && Sub(c, q, u, h - 1, RootMinimum(u), ROOT_SPOT)
      && Entries(u) == Entries(t) && u.id == t.id && Ids(u) <= Ids(t)
      && Kept(p, q, Ids(t), [])
  {
    var k := t.kids[0];
    assert t.kids == [k];
    assert k in t.kids && RepAll(p, t.kids, t.id) && AllGood(c, t.kids, h - 1);
    assert Good(c, k, h - 1);
    Single(k);
    MinimumPositive(c, h - 1);
    RepMoved(p, q, k, t.id, false, t.id, INVALID_PAGE_ID, true);
    WithIdFacts(c, k, t.id, h - 1, Minimum(c, h - 1));
    WithIdFacts(c, k, t.id, h - 1, RootMinimum(k));
    CollapseChain(p, q, t);
  }

  lemma CollapseChain(p: Pages, q: Pages, t: Tree)
    requires t.Node? && |t.kids| == 1 && Rep(p, t, INVALID_PAGE_ID, true) && Distinct(t)
    requires t.kids[0].id in p && q == CollapsePages(p, t.id, t.kids[0].id)
    requires Chain(p, ROOT_SPOT.pre + Leaves(t) + ROOT_SPOT.post)
    ensures Chain(q, ROOT_SPOT.pre + Leaves(WithId(t.kids[0], t.id)) + ROOT_SPOT.post)
  {
    var k := t.kids[0];
    assert t.kids == [k];
    assert k in t.kids && RepAll(p, t.kids, t.id);
    Single(k);
    var ls := ROOT_SPOT.pre + Leaves(t) + ROOT_SPOT.post;
    if k.Leaf? {
      assert ls == [k.id];
      assert Linked(p, ls, 0);
      var ms := [t.id];
      assert ROOT_SPOT.pre + Leaves(WithId(k, t.id)) + ROOT_SPOT.post == ms;
      assert Linked(q, ms, 0);
    } else {
      forall i | 0 <= i < |ls| ensures SameLinks(p, q, ls[i]) {
        assert Linked(p, ls, i);
      }
      ChainSame(p, q, ls);
    }
  }
}
