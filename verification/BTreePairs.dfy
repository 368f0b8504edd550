/** Moving a key or a child between two adjacent children, and merging them. */
module BTreePairs {
  import opened PageIds
  import opened BTreeShape
  import opened BTreeNodes
  import opened BTreePages
  import opened BTreeSpots
  import opened BTreeInsert
  import opened BTreeErase

  /** Between p and q something moved between children j and j + 1 of t, which became l and r:
      no other page changed, and neither the entries, the leaves nor the pages of the pair did. */
  ghost predicate Shift(p: Pages, q: Pages, t: Tree, j: nat, l: Tree, r: Tree)
    requires t.Node? && j + 1 < |t.kids|
  {
    && l.id == t.kids[j].id && r.id == t.kids[j + 1].id
    && Rep(q, l, t.id, false) && Rep(q, r, t.id, false)
    && Distinct(l) && Distinct(r) && Ids(l) !! Ids(r)
    && Ids(l) + Ids(r) <= Ids(t.kids[j]) + Ids(t.kids[j + 1])
    && Entries(l) + Entries(r) == Entries(t.kids[j]) + Entries(t.kids[j + 1])
    && Leaves(l) + Leaves(r) == Leaves(t.kids[j]) + Leaves(t.kids[j + 1])
    && Kept(p, q, Ids(t.kids[j]) + Ids(t.kids[j + 1]), [])
    && (forall x :: x in p ==> SameLinks(p, q, x))
    && q.Keys == p.Keys
  }

  lemma PairRep(p: Pages, q: Pages, t: Tree, at: Spot, j: nat, mid: seq<Tree>, seps: seq<Key>, post: seq<PageId>,
                s: set<PageId>)
    requires t.Node? && Rep(p, t, at.parent, at.root) && Distinct(t) && j + 1 < |t.kids|
    requires Kept(p, q, s, post) && s <= {t.id} + Ids(t.kids[j]) + Ids(t.kids[j + 1])
    requires t.id in q && q[t.id] == p[t.id].(seps := seps, kids := KidIds(t.kids[..j] + mid + t.kids[j + 2..]))
    requires RepAll(q, mid, t.id)
    ensures Rep(q, WithPair(t, j, mid, seps), at.parent, at.root)
  {
    PairApart(t, j);
    var a, m, b := t.kids[..j], [t.kids[j], t.kids[j + 1]], t.kids[j + 2..];
    assert t.kids == a + m + b;
    Concat3(a, m, b);
    SpliceRep(p, q, t, at, j, j + 2, mid, seps, post, s, at.root, at.parent);
  }

  lemma ShiftRep(p: Pages, q: Pages, t: Tree, at: Spot, j: nat, l: Tree, r: Tree)
    requires t.Node? && Rep(p, t, at.parent, at.root) && Distinct(t) && j + 1 < |t.kids|
    requires Shift(p, q, t, j, l, r)
    ensures Rep(q, WithPair(t, j, [l, r], t.seps), at.parent, at.root)
    ensures Distinct(WithPair(t, j, [l, r], t.seps)) && Ids(WithPair(t, j, [l, r], t.seps)) <= Ids(t)
    ensures t.id in q && q[t.id] == p[t.id]
  {
    PairApart(t, j);
    Pair(l, r);
    KidIdsSame(t.kids, j, l, r);
    PairRep(p, q, t, at, j, [l, r], t.seps, [], Ids(t.kids[j]) + Ids(t.kids[j + 1]));
    PairDistinct(t, j, [l, r], t.seps);
  }

  lemma KidIdsSame(ks: seq<Tree>, j: nat, l: Tree, r: Tree)
    requires j + 1 < |ks| && l.id == ks[j].id && r.id == ks[j + 1].id
    ensures KidIds(ks[..j] + [l, r] + ks[j + 2..]) == KidIds(ks)
  {
  }

  lemma ShiftContents(p: Pages, q: Pages, t: Tree, at: Spot, j: nat, l: Tree, r: Tree, ss: seq<Key>)
    requires t.Node? && j + 1 < |t.kids| && Shift(p, q, t, j, l, r)
    requires Chain(p, at.pre + Leaves(t) + at.post)
    ensures Entries(WithPair(t, j, [l, r], ss)) == Entries(t)
    ensures Leaves(WithPair(t, j, [l, r], ss)) == Leaves(t)
    ensures Chain(q, at.pre + Leaves(t) + at.post)
  {
    Pair(l, r);
    PairEntries(t, j, [l, r]);
    PairLeaves(t, j, [l, r]);
    forall i | 0 <= i < |at.pre + Leaves(t) + at.post| ensures SameLinks(p, q, (at.pre + Leaves(t) + at.post)[i]) {
      assert Linked(p, at.pre + Leaves(t) + at.post, i);
    }
    ChainSame(p, q, at.pre + Leaves(t) + at.post);
  }

  /** After the move, writing the refreshed separators ss heals the page. */
  lemma ShiftHeals(c: Caps, p: Pages, q: Pages, r: Pages, t: Tree, h: nat, at: Spot, ci: nat, j: nat, lt: Tree,
                   rt: Tree, ss: seq<Key>)
    requires Hurt(c, p, t, h, at, ci) && j + 1 < |t.kids| && (ci == j || ci == j + 1)
    requires Shift(p, q, t, j, lt, rt)
    requires Good(c, lt, h - 1) && Good(c, rt, h - 1)
    requires |ss| == |t.seps| && Bounds(ss[j], rt) && (j > 0 ==> Bounds(ss[j - 1], lt))
    requires forall i :: 0 <= i < |t.seps| && i != j && i + 1 != j ==> ss[i] == t.seps[i]
    requires t.id in q && q[t.id].InternalPage? && r == q[t.id := q[t.id].(seps := ss)]
    ensures Healed(c, p, r, t, h, |t.seps|, at, WithPair(t, j, [lt, rt], ss))
  {
    ShiftRep(p, q, t, at, j, lt, rt);
    ShiftContents(p, q, t, at, j, lt, rt, ss);
    BorrowBody(c, t.seps, t.kids, h - 1, ci, j, lt, rt, ss);
    var u := WithPair(t, j, [lt, rt], t.seps);
    RepAllKept(q, r, u.kids, t.id, {t.id}, []);
    ChainParents(q, r, at.pre + Leaves(t) + at.post);
    ShiftKept(p, q, r, t, j, lt, rt, ss, at.post);
    hide Shift, Kept, Linked;
  }

  lemma ShiftKept(p: Pages, q: Pages, r: Pages, t: Tree, j: nat, lt: Tree, rt: Tree, ss: seq<Key>, post: seq<PageId>)
    requires t.Node? && Distinct(t) && j + 1 < |t.kids| && Shift(p, q, t, j, lt, rt)
    requires t.id in q && q[t.id].InternalPage? && r == q[t.id := q[t.id].(seps := ss)]
    ensures Kept(p, r, Ids(t), post) && r.Keys == p.Keys
  {
    PairApart(t, j);
  }

  // ---- Leaves ------------------------------------------------------------------------------

  lemma LeafShift(p: Pages, q: Pages, t: Tree, at: Spot, j: nat, ls: seq<Entry>, rs: seq<Entry>)
    requires t.Node? && Rep(p, t, at.parent, at.root) && Distinct(t) && j + 1 < |t.kids|
    requires t.kids[j].Leaf? && t.kids[j + 1].Leaf?
    requires ls + rs == t.kids[j].entries + t.kids[j + 1].entries
    requires var a, b := t.kids[j].id, t.kids[j + 1].id;
      a in p && b in p && p[a].LeafPage? && p[b].LeafPage? &&
      q == p[a := p[a].(entries := ls)][b := p[b].(entries := rs)]
    ensures Shift(p, q, t, j, Leaf(t.kids[j].id, ls), Leaf(t.kids[j + 1].id, rs))
  {
    PairApart(t, j);
    ChildRep(p, t, at, j);
    ChildRep(p, t, at, j + 1);
  }

  lemma ChildRep(p: Pages, t: Tree, at: Spot, i: nat)
    requires t.Node? && Rep(p, t, at.parent, at.root) && i < |t.kids|
    ensures Rep(p, t.kids[i], t.id, false)
    ensures t.id in p && p[t.id].InternalPage? && p[t.id].seps == t.seps && p[t.id].kids == KidIds(t.kids)
  {
    var kid := t.kids[i];
    assert kid in t.kids && RepAll(p, t.kids, t.id);
  }

  /** The page store after the entries of leaf b were appended to leaf a and b was unlinked. */
  ghost function LeafMerged(p: Pages, a: PageId, b: PageId): (q: Pages)
    requires a in p && b in p && p[a].LeafPage? && p[b].LeafPage?
  {
    var q := p[a := p[a].(entries := p[a].entries + p[b].entries, next := p[b].next)];
    if p[b].next in q && q[p[b].next].LeafPage? then q[p[b].next := q[p[b].next].(prev := a)] else q
  }

  lemma LeafMergeChain(p: Pages, q: Pages, pre: seq<PageId>, a: PageId, b: PageId, post: seq<PageId>)
    requires Chain(p, pre + [a, b] + post) && INVALID_PAGE_ID !in p
    requires a in p && b in p && p[a].LeafPage? && p[b].LeafPage?
    requires q == LeafMerged(p, a, b)
    ensures Chain(q, pre + [a] + post)
    ensures Kept(p, q, {a}, post)
    ensures a in q && q[a] == p[a].(entries := p[a].entries + p[b].entries, next := p[b].next)
    ensures q.Keys == p.Keys
  {
    var ls := pre + [a, b] + post;
    assert Linked(p, ls, |pre| + 1) && Linked(p, ls, |pre|);
    if post != [] {
      assert Linked(p, ls, |pre| + 2) && ls[|pre| + 2] == post[0];
      ChainNoDup(p, ls, |pre|, |pre| + 2);
      ChainNoDup(p, ls, |pre| + 1, |pre| + 2);
    }
    ChainNoDup(p, ls, |pre|, |pre| + 1);
    MergeChain(p, q, pre, a, b, post);
  }

  /** Where the merged leaves sit in the chain. */
  ghost function PairPre(t: Tree, at: Spot, j: nat): seq<PageId>
    requires t.Node? && j + 1 < |t.kids|
  {
    at.pre + AllLeaves(t.kids[..j])
  }

  ghost function PairPost(t: Tree, at: Spot, j: nat): seq<PageId>
    requires t.Node? && j + 1 < |t.kids|
  {
    AllLeaves(t.kids[j + 2..]) + at.post
  }

  lemma PairChain(p: Pages, t: Tree, at: Spot, j: nat)
    requires t.Node? && j + 1 < |t.kids|
    ensures at.pre + Leaves(t) + at.post ==
      PairPre(t, at, j) + (Leaves(t.kids[j]) + Leaves(t.kids[j + 1])) + PairPost(t, at, j)
  {
    PairLeaves(t, j, []);
  }

  lemma MergedChain(t: Tree, at: Spot, j: nat, m: Tree)
    requires t.Node? && j + 1 < |t.kids|
    ensures at.pre + AllLeaves(t.kids[..j] + [m] + t.kids[j + 2..]) + at.post ==
      PairPre(t, at, j) + Leaves(m) + PairPost(t, at, j)
  {
    PairLeaves(t, j, [m]);
    Single(m);
  }

  /** A frame written for the pair, seen from the page. */
  lemma PairKept(p: Pages, q: Pages, t: Tree, at: Spot, j: nat, s: set<PageId>)
    requires t.Node? && Distinct(t) && j + 1 < |t.kids|
    requires Kept(p, q, s + {t.id}, PairPost(t, at, j)) && s <= Ids(t.kids[j]) + Ids(t.kids[j + 1])
    ensures Kept(p, q, Ids(t), at.post)
  {
    PairApart(t, j);
    LeavesWithin(t.kids[j + 2..]);
    var a, m, b := t.kids[..j], [t.kids[j], t.kids[j + 1]], t.kids[j + 2..];
    assert t.kids == a + m + b;
    Concat3(a, m, b);
  }

  lemma LeafMergedAt(p: Pages, mid: Pages, t: Tree, at: Spot, j: nat)
    requires t.Node? && Rep(p, t, at.parent, at.root) && Distinct(t) && j + 1 < |t.kids|
    requires t.kids[j].Leaf? && t.kids[j + 1].Leaf?
    requires Chain(p, at.pre + Leaves(t) + at.post) && INVALID_PAGE_ID !in p
    requires var a, b := t.kids[j].id, t.kids[j + 1].id;
      a in p && b in p && p[a].LeafPage? && p[b].LeafPage? && mid == LeafMerged(p, a, b)
    ensures var m := Leaf(t.kids[j].id, t.kids[j].entries + t.kids[j + 1].entries);
      && Rep(mid, m, t.id, false)
      && Chain(mid, PairPre(t, at, j) + Leaves(m) + PairPost(t, at, j))
      && Kept(p, mid, {m.id}, PairPost(t, at, j))
      && mid.Keys == p.Keys
  {
    var a, b := t.kids[j].id, t.kids[j + 1].id;
    ChildRep(p, t, at, j);
    ChildRep(p, t, at, j + 1);
    PairChain(p, t, at, j);
    assert [a] + [b] == [a, b];
    LeafMergeChain(p, mid, PairPre(t, at, j), a, b, PairPost(t, at, j));
  }

  lemma KidIdsDrop(ks: seq<Tree>, j: nat, m: Tree)
    requires j + 1 < |ks| && m.id == ks[j].id
    ensures KidIds(ks[..j] + [m] + ks[j + 2..]) == KidIds(ks)[..j + 1] + KidIds(ks)[j + 2..]
  {
    var a, b := ks[..j], ks[j + 2..];
    KidIdsConcat(a + [m], b);
    KidIdsConcat(a, [m]);
    KidIdsCut(ks, j);
    KidIdsCut(ks, j + 2);
    assert KidIds(ks)[..j + 1] == KidIds(ks)[..j] + [ks[j].id];
  }

  /** Entry j leaves the parent once its child has been merged into the one before. */
  lemma ParentDrops(p: Pages, mid: Pages, q: Pages, t: Tree, at: Spot, j: nat, m: Tree, s: set<PageId>,
                    post: seq<PageId>)
    requires t.Node? && Rep(p, t, at.parent, at.root) && Distinct(t) && j + 1 < |t.kids| && |t.kids| == |t.seps| + 1
    requires Kept(p, mid, s, post) && s <= Ids(t.kids[j]) + Ids(t.kids[j + 1])
    requires post != [] ==> post[0] != t.id
    requires Rep(mid, m, t.id, false) && m.id == t.kids[j].id && Ids(m) <= Ids(t.kids[j]) + Ids(t.kids[j + 1])
    requires t.id in mid && mid[t.id].InternalPage?
    requires var page := mid[t.id].(seps := t.seps[..j] + t.seps[j + 1..],
                                    kids := KidIds(t.kids)[..j + 1] + KidIds(t.kids)[j + 2..]);
      q == mid[t.id := page]
    ensures Rep(q, WithPair(t, j, [m], t.seps[..j] + t.seps[j + 1..]), at.parent, at.root)
    ensures Kept(p, q, s + {t.id}, post)
  {
    PairApart(t, j);
    KidIdsDrop(t.kids, j, m);
    assert Kept(p, q, s + {t.id}, post) && p[t.id] == mid[t.id];
    RepKept(mid, q, m, t.id, false, {t.id}, []);
    PairRep(p, q, t, at, j, [m], t.seps[..j] + t.seps[j + 1..], post, s + {t.id});
  }

  /** The page after the pair is a leaf, not the parent. */
  lemma PairPostIsLeaf(p: Pages, t: Tree, at: Spot, j: nat)
    requires t.Node? && j + 1 < |t.kids| && Chain(p, at.pre + Leaves(t) + at.post)
    ensures var pp := PairPost(t, at, j); pp != [] ==> pp[0] in p && p[pp[0]].LeafPage?
  {
    PairChain(p, t, at, j);
    var pp := PairPost(t, at, j);
    if pp != [] {
      assert Linked(p, at.pre + Leaves(t) + at.post, |PairPre(t, at, j) + (Leaves(t.kids[j]) + Leaves(t.kids[j + 1]))|);
    }
  }

  /** Merging heals the page: the separator that may have been stale is the one that goes. */
  lemma MergeHeals(c: Caps, p: Pages, q: Pages, t: Tree, h: nat, at: Spot, ci: nat, j: nat, m: Tree, s: set<PageId>)
    requires Hurt(c, p, t, h, at, ci) && j + 1 < |t.kids| && (ci == j + 1 || (ci == j && j == 0))
    requires Good(c, m, h - 1) && Distinct(m) && Ids(m) <= Ids(t.kids[j]) + Ids(t.kids[j + 1])
    requires Entries(m) == Entries(t.kids[j]) + Entries(t.kids[j + 1])
    requires Rep(q, WithPair(t, j, [m], t.seps[..j] + t.seps[j + 1..]), at.parent, at.root)
    requires Chain(q, PairPre(t, at, j) + Leaves(m) + PairPost(t, at, j))
    requires Kept(p, q, s + {t.id}, PairPost(t, at, j)) && s <= Ids(t.kids[j]) + Ids(t.kids[j + 1]) && q.Keys == p.Keys
    ensures Healed(c, p, q, t, h, Less(|t.seps|), at, WithPair(t, j, [m], t.seps[..j] + t.seps[j + 1..]))
  {
    Single(m);
    PairEntries(t, j, [m]);
    PairDistinct(t, j, [m], t.seps[..j] + t.seps[j + 1..]);
    MergedChain(t, at, j, m);
    PairKept(p, q, t, at, j, s);
    MergeHealsBody(c, p, t, h, at, ci, j, m);
  }

  lemma MergeHealsBody(c: Caps, p: Pages, t: Tree, h: nat, at: Spot, ci: nat, j: nat, m: Tree)
    requires Hurt(c, p, t, h, at, ci) && j + 1 < |t.kids| && (ci == j + 1 || (ci == j && j == 0))
    requires Good(c, m, h - 1) && Entries(m) == Entries(t.kids[j]) + Entries(t.kids[j + 1])
    ensures Body(c, t.seps[..j] + t.seps[j + 1..], t.kids[..j] + [m] + t.kids[j + 2..], h - 1)
  {
    if j > 0 {
      assert Bounds(t.seps[j - 1], t.kids[j]);
    }
    MergeBody(c, t.seps, t.kids, h - 1, ci, j, m);
  }
}
