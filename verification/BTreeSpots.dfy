/** A subtree in its place inside a whole tree, and how replacing some children of an internal page
    carries over to the page itself. */
module BTreeSpots {
  import opened PageIds
  import opened BTreeShape
  import opened BTreeEntries
  import opened BTreeNodes
  import opened BTreePages

  /** Where a subtree hangs: its parent page, whether it is the root, and the leaves before and after it. */
  datatype Spot = Spot(parent: PageId, root: bool, pre: seq<PageId>, post: seq<PageId>)

  /** The pages p hold the well-formed subtree t at its spot. */
  ghost predicate Sub(c: Caps, p: Pages, t: Tree, h: nat, lo: nat, at: Spot) {
    && c.Valid() && INVALID_PAGE_ID !in p
    && Rep(p, t, at.parent, at.root)
    && Distinct(t) && Fits(c, t, h, lo) && Sorted(Entries(t))
    && Chain(p, at.pre + Leaves(t) + at.post)
  }

  /** The spot of child i of t. */
  ghost function Below(t: Tree, at: Spot, i: nat): Spot
    requires t.Node? && i < |t.kids|
  {
    Spot(t.id, false, at.pre + AllLeaves(t.kids[..i]), AllLeaves(t.kids[i + 1..]) + at.post)
  }

  lemma Descend(c: Caps, p: Pages, t: Tree, h: nat, lo: nat, at: Spot, i: nat)
    requires Sub(c, p, t, h, lo, at) && t.Node? && i < |t.kids|
    ensures Sub(c, p, t.kids[i], h - 1, Minimum(c, h - 1), Below(t, at, i))
  {
    var kids := t.kids;
    Around(kids, i);
    AroundIds(kids, i);
    var kid := kids[i];
    assert kid in kids && RepAll(p, kids, t.id) && AllGood(c, kids, h - 1);
    assert Rep(p, kid, t.id, false) && Good(c, kid, h - 1);
    SortedInside(AllEntries(kids[..i]), Entries(kids[i]), AllEntries(kids[i + 1..]));
    var b := Below(t, at, i);
    Regroup(at.pre, AllLeaves(kids[..i]), Leaves(kid), AllLeaves(kids[i + 1..]), at.post);
    assert b.pre + Leaves(kid) + b.post == at.pre + Leaves(t) + at.post;
  }

  /** ids is drawn from old pages and pages allocated from n on. */
  ghost predicate Drawn(ids: set<PageId>, before: set<PageId>, n: int) {
    forall x :: x in ids ==> x in before || n <= x
  }

  /** Putting the trees mid in place of children i..j-1 keeps every page used once. */
  lemma SpliceApart(kids: seq<Tree>, i: nat, j: nat, mid: seq<Tree>, n: int)
    requires i <= j <= |kids| && Apart(kids) && Apart(mid)
    requires forall x :: x in AllIds(kids) ==> x < n
    requires Drawn(AllIds(mid), AllIds(kids[i..j]), n)
    ensures Apart(kids[..i] + mid + kids[j..])
    ensures AllIds(kids[..i] + mid + kids[j..]) == AllIds(kids[..i]) + AllIds(mid) + AllIds(kids[j..])
    ensures Drawn(AllIds(kids[..i] + mid + kids[j..]), AllIds(kids), n)
  {
    var a, m, b := kids[..i], kids[i..j], kids[j..];
    assert kids == a + m + b;
    Concat3(a, m, b);
    Concat3(a, mid, b);
    forall x | x in AllIds(mid) ensures x !in AllIds(a) && x !in AllIds(b) {
      if x !in AllIds(m) {
        assert x !in AllIds(kids);
      }
    }
  }

  /** If q changes, of t's pages, only the page itself and children i..j-1, and shows the children mid
      there instead, then q represents t with those children replaced. */
  lemma SpliceRep(p: Pages, q: Pages, t: Tree, at: Spot, i: nat, j: nat, mid: seq<Tree>, seps: seq<Key>,
                  post: seq<PageId>, s: set<PageId>, root: bool, parent: PageId)
    requires t.Node? && Rep(p, t, at.parent, at.root) && Distinct(t) && i <= j <= |t.kids|
    requires Kept(p, q, s, post) && s !! AllIds(t.kids[..i]) && s !! AllIds(t.kids[j..])
    requires t.id in q && q[t.id].InternalPage? && q[t.id].parent == parent && q[t.id].isRoot == root
    requires q[t.id].seps == seps && q[t.id].kids == KidIds(t.kids[..i] + mid + t.kids[j..])
    requires RepAll(q, mid, t.id)
    ensures Rep(q, Node(t.id, seps, t.kids[..i] + mid + t.kids[j..]), parent, root)
  {
    var a, b := t.kids[..i], t.kids[j..];
    assert RepAll(p, a, t.id) && RepAll(p, b, t.id);
    RepAllKept(p, q, a, t.id, s, post);
    RepAllKept(p, q, b, t.id, s, post);
    assert RepAll(q, a + mid + b, t.id);
  }

  /** Changing only internal pages (and parent ids) keeps the chain. */
  lemma ChainParents(p: Pages, q: Pages, ls: seq<PageId>)
    requires Chain(p, ls)
    requires forall x :: x in p && p[x].LeafPage? ==>
      x in q && q[x].LeafPage? && q[x].next == p[x].next && q[x].prev == p[x].prev
    ensures Chain(q, ls)
  {
    forall i | 0 <= i < |ls| ensures SameLinks(p, q, ls[i]) {
      assert Linked(p, ls, i);
    }
    ChainSame(p, q, ls);
  }

  // ---- Inserting below one child -----------------------------------------------------------

  /** The rows of the routing argument that both insert and erase need: what lies in child i and around it. */
  lemma ChildEntries(c: Caps, t: Tree, h: nat, lo: nat, k: Key, i: nat)
    requires c.Valid() && t.Node? && Fits(c, t, h, lo) && Sorted(Entries(t)) && Routed(t.seps, k, i)
    ensures Entries(t) == AllEntries(t.kids[..i]) + Entries(t.kids[i]) + AllEntries(t.kids[i + 1..])
    ensures forall e :: e in AllEntries(t.kids[..i]) ==> e.key < k
    ensures forall e :: e in AllEntries(t.kids[i + 1..]) ==> k < e.key
    ensures i > 0 ==> Bounds(t.seps[i - 1], t.kids[i]) && t.seps[i - 1] <= k
  {
    Around(t.kids, i);
    Routing(t.seps, t.kids, k, i);
    if i > 0 {
      assert Bounds(t.seps[i - 1], t.kids[i]);
    }
  }

  /** A child into which k (not below its smallest key) was inserted keeps its smallest key. */
  lemma FirstKept(es: seq<Entry>, pos: nat, e: Entry)
    requires es != [] && Gap(es, pos, e.key) && es[0].key <= e.key
    ensures Inserted(es, pos, e)[0] == es[0]
  {
  }
}
