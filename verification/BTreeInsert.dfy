/** What inserting a key does to a subtree: the facts that carry one level's result to the level above. */
module BTreeInsert {
  import opened PageIds
  import opened BTreeShape
  import opened BTreeEntries
  import opened BTreeNodes
  import opened BTreePages
  import opened BTreeSpots

  datatype InsertOutcome =
    | Stored
    | Duplicate
    | Split(sep: Key, right: PageId)

  /** The subtree t became t1, which holds one more entry. */
  ghost predicate AfterStored(c: Caps, p: Pages, n: int, q: Pages, t: Tree, h: nat, lo: nat, at: Spot, e: Entry,
                              t1: Tree, pos: nat) {
    && Gap(Entries(t), pos, e.key)
    && Sub(c, q, t1, h, lo, at) && t1.id == t.id
    && Entries(t1) == Inserted(Entries(t), pos, e)
    && Drawn(Ids(t1), Ids(t), n)
    && Kept(p, q, Ids(t), at.post)
  }

  /** The subtree t became the adjacent subtrees t1 and t2, which together hold one more entry. */
  ghost predicate AfterSplit(c: Caps, p: Pages, n: int, q: Pages, t: Tree, h: nat, at: Spot, e: Entry, sep: Key,
                             t1: Tree, t2: Tree, pos: nat) {
    && Gap(Entries(t), pos, e.key)
    && INVALID_PAGE_ID !in q && t1.id == t.id
    && Rep(q, t1, at.parent, at.root) && Rep(q, t2, at.parent, false)
    && Distinct(t1) && Distinct(t2) && Ids(t1) !! Ids(t2)
    && Good(c, t1, h) && Good(c, t2, h)
    && Entries(t1) != [] && Entries(t1) + Entries(t2) == Inserted(Entries(t), pos, e)
    && Bounds(sep, t2)
    && Chain(q, at.pre + (Leaves(t1) + Leaves(t2)) + at.post)
    && Drawn(Ids(t1) + Ids(t2), Ids(t), n)
    && Kept(p, q, Ids(t), at.post)
  }

  // ---- At a leaf ---------------------------------------------------------------------------

  lemma LeafStored(c: Caps, p: Pages, n: int, q: Pages, t: Tree, h: nat, lo: nat, at: Spot, e: Entry, pos: nat)
    requires Sub(c, p, t, h, lo, at) && t.Leaf?
    requires Gap(t.entries, pos, e.key) && |t.entries| < c.leaf
    requires q == p[t.id := p[t.id].(entries := Inserted(t.entries, pos, e))]
    ensures AfterStored(c, p, n, q, t, h, lo, at, e, Leaf(t.id, Inserted(t.entries, pos, e)), pos)
  {
    SortedInserted(t.entries, pos, e);
    ChainParents(p, q, at.pre + Leaves(t) + at.post);
  }

  /** The page store after a leaf split: both halves, linked in place of the old leaf. */
  ghost function LeafSplitPages(p: Pages, id: PageId, right: PageId, left: seq<Entry>, moved: seq<Entry>): (q: Pages)
    requires id in p && p[id].LeafPage?
  {
    var page := p[id];
    var q :=
      p[id := page.(entries := left, next := right)][right := LeafPage(false, page.parent, page.next, id, moved)];
    if page.next in q && q[page.next].LeafPage? then q[page.next := q[page.next].(prev := right)] else q
  }

  lemma LeafSplitChain(c: Caps, p: Pages, n: int, q: Pages, t: Tree, h: nat, lo: nat, at: Spot, right: PageId,
                       left: seq<Entry>, moved: seq<Entry>)
    requires Sub(c, p, t, h, lo, at) && t.Leaf?
    requires right !in p && right != INVALID_PAGE_ID && right >= n
    requires q == LeafSplitPages(p, t.id, right, left, moved)
    ensures Chain(q, at.pre + [t.id, right] + at.post)
    ensures Kept(p, q, {t.id}, at.post)
    ensures q[t.id] == p[t.id].(entries := left, next := right)
    ensures right in q && q[right].LeafPage? && q[right].parent == p[t.id].parent && !q[right].isRoot &&
      q[right].entries == moved
    ensures INVALID_PAGE_ID !in q
  {
    var ls := at.pre + [t.id] + at.post;
    ChainAt(p, at.pre, t.id, at.post);
    if at.post != [] {
      assert ls[|at.pre|] == t.id && ls[|at.pre| + 1] == at.post[0];
      ChainNoDup(p, ls, |at.pre|, |at.pre| + 1);
    }
    SplitChain(p, q, at.pre, t.id, right, at.post);
  }

  lemma LeafSplit(c: Caps, p: Pages, n: int, q: Pages, t: Tree, h: nat, lo: nat, at: Spot, e: Entry, pos: nat,
                  right: PageId, m: nat)
    requires Sub(c, p, t, h, lo, at) && t.Leaf?
    requires Gap(t.entries, pos, e.key) && |t.entries| == c.leaf && m == (c.leaf + 1) / 2
    requires right !in p && right != INVALID_PAGE_ID && right >= n
    requires q == LeafSplitPages(p, t.id, right, Inserted(t.entries, pos, e)[..m], Inserted(t.entries, pos, e)[m..])
    ensures AfterSplit(c, p, n, q, t, h, at, e, Inserted(t.entries, pos, e)[m].key,
                       Leaf(t.id, Inserted(t.entries, pos, e)[..m]), Leaf(right, Inserted(t.entries, pos, e)[m..]), pos)
  {
    var es := Inserted(t.entries, pos, e);
    LeafSplitChain(c, p, n, q, t, h, lo, at, right, es[..m], es[m..]);
    assert es == es[..m] + es[m..];
    assert [t.id] + [right] == [t.id, right];
  }

  // ---- At an internal page -----------------------------------------------------------------

  /** The child's own place in its parent: its entries, seen from the parent. */
  lemma EntriesUp(c: Caps, t: Tree, h: nat, lo: nat, e: Entry, i: nat, pos: nat, mid: seq<Tree>)
    requires c.Valid() && t.Node? && Fits(c, t, h, lo) && Sorted(Entries(t)) && Routed(t.seps, e.key, i)
    requires Gap(Entries(t.kids[i]), pos, e.key)
    requires AllEntries(mid) == Inserted(Entries(t.kids[i]), pos, e)
    ensures Gap(Entries(t), |AllEntries(t.kids[..i])| + pos, e.key)
    ensures AllEntries(t.kids[..i] + mid + t.kids[i + 1..]) == Inserted(Entries(t), |AllEntries(t.kids[..i])| + pos, e)
  {
    var a, m, b := AllEntries(t.kids[..i]), Entries(t.kids[i]), AllEntries(t.kids[i + 1..]);
    ChildEntries(c, t, h, lo, e.key, i);
    GapInside(a, m, b, pos, e.key);
    InsertedInside(a, m, b, pos, e);
    EntriesConcat(t.kids[..i] + mid, t.kids[i + 1..]);
    EntriesConcat(t.kids[..i], mid);
  }

  /** Leaves of a page whose child i was replaced by mid. */
  lemma LeavesUp(t: Tree, at: Spot, i: nat, mid: seq<Tree>, b: Spot)
    requires t.Node? && i < |t.kids| && b == Below(t, at, i)
    ensures b.pre + AllLeaves(mid) + b.post == at.pre + AllLeaves(t.kids[..i] + mid + t.kids[i + 1..]) + at.post
  {
    LeavesConcat(t.kids[..i] + mid, t.kids[i + 1..]);
    LeavesConcat(t.kids[..i], mid);
  }

  /** Frame of a child's change, seen from its parent. */
  lemma KeptUp(c: Caps, p: Pages, q: Pages, t: Tree, h: nat, lo: nat, at: Spot, i: nat)
    requires Sub(c, p, t, h, lo, at) && t.Node? && i < |t.kids|
    requires Kept(p, q, Ids(t.kids[i]), Below(t, at, i).post)
    ensures Kept(p, q, AllIds(t.kids), at.post)
    ensures t.id in q && q[t.id] == p[t.id]
  {
    AroundIds(t.kids, i);
    var b := Below(t, at, i).post;
    if t.kids[i + 1..] != [] {
      LeavesWithin(t.kids[i + 1..]);
      FirstLeaf(c, t, h, lo, i + 1);
    }
    Descend(c, p, t, h, lo, at, i);
    BelowPostIsLeaf(c, p, t, h, lo, at, i);
  }

  lemma {:induction false} LeafWithin(t: Tree)
    ensures forall x :: x in Leaves(t) ==> x in Ids(t)
    decreases t, 1
  {
    if t.Node? {
      LeavesWithin(t.kids);
    }
  }

  lemma {:induction false} LeavesWithin(ts: seq<Tree>)
    ensures forall x :: x in AllLeaves(ts) ==> x in AllIds(ts)
    decreases ts, 0
  {
    if ts != [] {
      LeafWithin(ts[0]);
      LeavesWithin(ts[1..]);
    }
  }

  lemma FirstLeaf(c: Caps, t: Tree, h: nat, lo: nat, i: nat)
    requires c.Valid() && t.Node? && Fits(c, t, h, lo) && i < |t.kids|
    ensures AllLeaves(t.kids[i..]) != []
  {
    var kid := t.kids[i];
    assert kid in t.kids;
    MinimumPositive(c, h - 1);
    FirstEntry(c, kid, h - 1, Minimum(c, h - 1));
    assert t.kids[i..][0] == kid;
  }

  /** The leaf after a child is a leaf page, so it is not the (internal) page of the parent. */
  lemma BelowPostIsLeaf(c: Caps, p: Pages, t: Tree, h: nat, lo: nat, at: Spot, i: nat)
    requires Sub(c, p, t, h, lo, at) && t.Node? && i < |t.kids|
    ensures var b := Below(t, at, i).post; b != [] ==> b[0] in p && p[b[0]].LeafPage?
  {
    Descend(c, p, t, h, lo, at, i);
    var b := Below(t, at, i);
    if b.post != [] {
      var ls := b.pre + Leaves(t.kids[i]) + b.post;
      assert Linked(p, ls, |b.pre + Leaves(t.kids[i])|);
    }
  }

  lemma StoredUp(c: Caps, p: Pages, n: int, q: Pages, t: Tree, h: nat, lo: nat, at: Spot, e: Entry, i: nat, t1: Tree,
                 pos: nat)
    requires Sub(c, p, t, h, lo, at) && t.Node? && Routed(t.seps, e.key, i)
    requires forall x :: x in p ==> x < n
    requires AfterStored(c, p, n, q, t.kids[i], h - 1, Minimum(c, h - 1), Below(t, at, i), e, t1, pos)
    ensures AfterStored(c, p, n, q, t, h, lo, at, e,
                        Node(t.id, t.seps, t.kids[..i] + [t1] + t.kids[i + 1..]), |AllEntries(t.kids[..i])| + pos)
  {
    hide Sorted;
    var kids := t.kids;
    var ks := kids[..i] + [t1] + kids[i + 1..];
    Single(t1);
    EntriesUp(c, t, h, lo, e, i, pos, [t1]);
    LeavesUp(t, at, i, [t1], Below(t, at, i));
    KeptUp(c, p, q, t, h, lo, at, i);
    StoredUpShape(c, t, h, lo, e, i, t1, pos);
    StoredUpRep(c, p, n, q, t, h, lo, at, i, t1);
    SortedInserted(Entries(t), |AllEntries(kids[..i])| + pos, e);
  }

  lemma StoredUpShape(c: Caps, t: Tree, h: nat, lo: nat, e: Entry, i: nat, t1: Tree, pos: nat)
    requires c.Valid() && t.Node? && Fits(c, t, h, lo) && Sorted(Entries(t)) && Routed(t.seps, e.key, i)
    requires Gap(Entries(t.kids[i]), pos, e.key)
    requires Entries(t1) == Inserted(Entries(t.kids[i]), pos, e) && Good(c, t1, h - 1)
    ensures Fits(c, Node(t.id, t.seps, t.kids[..i] + [t1] + t.kids[i + 1..]), h, lo)
  {
    ChildEntries(c, t, h, lo, e.key, i);
    ReplaceKid(c, t.seps, t.kids, h - 1, i, t1);
  }

  lemma StoredUpRep(c: Caps, p: Pages, n: int, q: Pages, t: Tree, h: nat, lo: nat, at: Spot, i: nat, t1: Tree)
    requires Sub(c, p, t, h, lo, at) && t.Node? && i < |t.kids|
    requires forall x :: x in p ==> x < n
    requires Kept(p, q, Ids(t.kids[i]), Below(t, at, i).post)
    requires Rep(q, t1, t.id, false) && t1.id == t.kids[i].id && Distinct(t1) && Drawn(Ids(t1), Ids(t.kids[i]), n)
    ensures Rep(q, Node(t.id, t.seps, t.kids[..i] + [t1] + t.kids[i + 1..]), at.parent, at.root)
    ensures Distinct(Node(t.id, t.seps, t.kids[..i] + [t1] + t.kids[i + 1..]))
    ensures Drawn(Ids(Node(t.id, t.seps, t.kids[..i] + [t1] + t.kids[i + 1..])), Ids(t), n)
  {
    StoredUpApart(p, n, t, at, i, t1);
    KeptUp(c, p, q, t, h, lo, at, i);
    SwapKidRep(p, q, t, at, i, t1, Below(t, at, i).post);
  }

  lemma KidIdsSwapped(ks: seq<Tree>, i: nat, t1: Tree)
    requires i < |ks| && t1.id == ks[i].id
    ensures KidIds(ks[..i] + [t1] + ks[i + 1..]) == KidIds(ks)
  {
  }

  /** Replacing child i by a tree on the same page leaves the page of t itself as it was. */
  lemma SwapKidRep(p: Pages, q: Pages, t: Tree, at: Spot, i: nat, t1: Tree, post: seq<PageId>)
    requires t.Node? && Rep(p, t, at.parent, at.root) && Distinct(t) && i < |t.kids|
    requires Kept(p, q, Ids(t.kids[i]), post) && t.id in q && q[t.id] == p[t.id]
    requires Rep(q, t1, t.id, false) && t1.id == t.kids[i].id
    ensures Rep(q, Node(t.id, t.seps, t.kids[..i] + [t1] + t.kids[i + 1..]), at.parent, at.root)
  {
    AroundIds(t.kids, i);
    KidIdsSwapped(t.kids, i, t1);
    SpliceRep(p, q, t, at, i, i + 1, [t1], t.seps, post, Ids(t.kids[i]), at.root, at.parent);
  }

  lemma StoredUpApart(p: Pages, n: int, t: Tree, at: Spot, i: nat, t1: Tree)
    requires t.Node? && Rep(p, t, at.parent, at.root) && Distinct(t) && i < |t.kids|
    requires forall x :: x in p ==> x < n
    requires Distinct(t1) && Drawn(Ids(t1), Ids(t.kids[i]), n)
    ensures Distinct(Node(t.id, t.seps, t.kids[..i] + [t1] + t.kids[i + 1..]))
    ensures Drawn(Ids(Node(t.id, t.seps, t.kids[..i] + [t1] + t.kids[i + 1..])), Ids(t), n)
  {
    IdsStored(p, t, at.parent, at.root);
    Single(t1);
    Single(t.kids[i]);
    assert t.kids[i..i + 1] == [t.kids[i]];
    SpliceApart(t.kids, i, i + 1, [t1], n);
  }
}
