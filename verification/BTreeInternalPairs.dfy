/** Two adjacent internal pages seen as one long page, cut somewhere else: borrowing a child moves
    the cut by one, merging removes it. */
module BTreeInternalPairs {
  import opened PageIds
  import opened BTreeShape
  import opened BTreeNodes
  import opened BTreePages
  import opened BTreeSpots
  import opened BTreeInsertSplit
  import opened BTreePairs

  /** The separators and children of l and r in one row; sep stands between them. */
  ghost function RowSeps(l: Tree, sep: Key, r: Tree): seq<Key>
    requires l.Node? && r.Node?
  {
    l.seps + [sep] + r.seps
  }

  ghost function RowKids(l: Tree, r: Tree): seq<Tree>
    requires l.Node? && r.Node?
  {
    l.kids + r.kids
  }

  /** Two sibling internal pages of height h, one of which may be short. */
  ghost predicate Siblings(c: Caps, l: Tree, sep: Key, r: Tree, h: nat) {
    && c.Valid() && h > 0
    && l.Node? && r.Node? && Fits(c, l, h, 0) && Fits(c, r, h, 0)
    && Distinct(l) && Distinct(r) && Ids(l) !! Ids(r)
    && Bounds(sep, r)
  }

  lemma RowBody(c: Caps, l: Tree, sep: Key, r: Tree, h: nat)
    requires Siblings(c, l, sep, r, h)
    ensures Body(c, RowSeps(l, sep, r), RowKids(l, r), h - 1)
  {
    var ss, ks := RowSeps(l, sep, r), RowKids(l, r);
    FirstEntry(c, r, h, 0);
    forall i | 0 <= i < |ss| ensures Bounds(ss[i], ks[i + 1]) {
      if i < |l.seps| {
        assert Bounds(l.seps[i], l.kids[i + 1]);
      } else if i > |l.seps| {
        assert Bounds(r.seps[i - |l.seps| - 1], r.kids[i - |l.seps|]);
      }
    }
    assert AllGood(c, l.kids, h - 1) && AllGood(c, r.kids, h - 1);
    forall t | t in ks ensures Fits(c, t, h - 1, Minimum(c, h - 1)) {
      assert t in l.kids || t in r.kids;
    }
  }

  lemma RowContents(l: Tree, r: Tree)
    requires l.Node? && r.Node? && Distinct(l) && Distinct(r) && Ids(l) !! Ids(r)
    ensures AllEntries(RowKids(l, r)) == Entries(l) + Entries(r)
    ensures AllLeaves(RowKids(l, r)) == Leaves(l) + Leaves(r)
    ensures Apart(RowKids(l, r))
    ensures AllIds(RowKids(l, r)) + {l.id, r.id} == Ids(l) + Ids(r)
    ensures l.id !in AllIds(RowKids(l, r)) && r.id !in AllIds(RowKids(l, r)) && l.id != r.id
  {
    Concat(l.kids, r.kids);
    ApartConcat(l.kids, r.kids);
  }

  /** The left and right page of the row cut at separator m. */
  ghost function CutLeft(l: Tree, sep: Key, r: Tree, m: nat): Tree
    requires l.Node? && r.Node? && |l.kids| == |l.seps| + 1 && |r.kids| == |r.seps| + 1 && m < |RowSeps(l, sep, r)|
  {
    Node(l.id, RowSeps(l, sep, r)[..m], RowKids(l, r)[..m + 1])
  }

  ghost function CutRight(l: Tree, sep: Key, r: Tree, m: nat): Tree
    requires l.Node? && r.Node? && |l.kids| == |l.seps| + 1 && |r.kids| == |r.seps| + 1 && m < |RowSeps(l, sep, r)|
  {
    Node(r.id, RowSeps(l, sep, r)[m + 1..], RowKids(l, r)[m + 1..])
  }

  lemma CutSiblings(c: Caps, l: Tree, sep: Key, r: Tree, h: nat, m: nat)
    requires Siblings(c, l, sep, r, h)
    requires Minimum(c, h) <= m <= c.internal
    requires m + 1 + Minimum(c, h) <= |RowSeps(l, sep, r)| <= m + 1 + c.internal
    ensures var l', r' := CutLeft(l, sep, r, m), CutRight(l, sep, r, m);
      && Good(c, l', h) && Good(c, r', h)
      && Entries(l') + Entries(r') == Entries(l) + Entries(r)
      && Leaves(l') + Leaves(r') == Leaves(l) + Leaves(r)
      && Bounds(RowSeps(l, sep, r)[m], r')
  {
    RowBody(c, l, sep, r, h);
    RowContents(l, r);
    CutBody(c, RowSeps(l, sep, r), RowKids(l, r), h - 1, m);
  }

  lemma CutSiblingsIds(c: Caps, l: Tree, sep: Key, r: Tree, h: nat, m: nat)
    requires Siblings(c, l, sep, r, h) && m < |RowSeps(l, sep, r)|
    ensures var l', r' := CutLeft(l, sep, r, m), CutRight(l, sep, r, m);
      && Distinct(l') && Distinct(r') && Ids(l') !! Ids(r') && Ids(l') + Ids(r') <= Ids(l) + Ids(r)
  {
    var ks := RowKids(l, r);
    RowContents(l, r);
    assert ks == ks[..m + 1] + ks[m + 1..];
    IdsConcat(ks[..m + 1], ks[m + 1..]);
    ApartConcat(ks[..m + 1], ks[m + 1..]);
  }

  lemma JoinSiblings(c: Caps, l: Tree, sep: Key, r: Tree, h: nat)
    requires Siblings(c, l, sep, r, h)
    requires Minimum(c, h) <= |RowSeps(l, sep, r)| <= c.internal
    ensures var m := Node(l.id, RowSeps(l, sep, r), RowKids(l, r));
      && Good(c, m, h) && Distinct(m) && Ids(m) <= Ids(l) + Ids(r)
      && Entries(m) == Entries(l) + Entries(r) && Leaves(m) == Leaves(l) + Leaves(r)
  {
    RowBody(c, l, sep, r, h);
    RowContents(l, r);
  }

  // ---- Pages -------------------------------------------------------------------------------

  /** Child g moves from page f to page o; x stays under f, y stays under o. */
  lemma LendRep(p: Pages, q: Pages, x: seq<Tree>, g: Tree, y: seq<Tree>, f: PageId, o: PageId)
    requires RepAll(p, x, f) && RepAll(p, y, o) && Rep(p, g, f, false) && Distinct(g)
    requires Ids(g) !! AllIds(x) && Ids(g) !! AllIds(y)
    requires f !in AllIds(x) + Ids(g) + AllIds(y) && o !in AllIds(x) + Ids(g) + AllIds(y)
    requires Kept(p, q, {f, o, g.id}, []) && g.id in q && q[g.id] == p[g.id].(parent := o)
    ensures RepAll(q, x, f) && RepAll(q, y, o) && Rep(q, g, o, false)
  {
    IdWithin(g);
    RepAllKept(p, q, x, f, {f, o, g.id}, []);
    RepAllKept(p, q, y, o, {f, o, g.id}, []);
    RepReparent(p, q, g, f, false, {f, o, g.id}, o, false);
  }

  /** The page store after the children of a and b became the given ones and page g changed parent. */
  ghost function LendPages(p: Pages, a: PageId, ls: seq<Key>, lk: seq<PageId>, b: PageId, rs: seq<Key>, rk: seq<PageId>,
                           g: PageId, o: PageId): (q: Pages)
    requires a in p && b in p && g in p && p[a].InternalPage? && p[b].InternalPage?
  {
    p[a := p[a].(seps := ls, kids := lk)][b := p[b].(seps := rs, kids := rk)][g := p[g].(parent := o)]
  }

  /** The left page's last child goes to the right page. */
  lemma LendRightRep(p: Pages, q: Pages, l: Tree, sep: Key, r: Tree, parent: PageId)
    requires l.Node? && r.Node? && Rep(p, l, parent, false) && Rep(p, r, parent, false)
    requires |l.kids| == |l.seps| + 1 && |l.seps| > 0 && |r.kids| == |r.seps| + 1
    requires Distinct(l) && Distinct(r) && Ids(l) !! Ids(r)
    requires var n := |l.seps|; var g := l.kids[n].id;
      l.id in p && r.id in p && g in p && p[l.id].InternalPage? && p[r.id].InternalPage? &&
      q == LendPages(p, l.id, l.seps[..n - 1], KidIds(l.kids)[..n], r.id, [sep] + r.seps, [g] + KidIds(r.kids), g, r.id)
    ensures Rep(q, CutLeft(l, sep, r, |l.seps| - 1), parent, false)
    ensures Rep(q, CutRight(l, sep, r, |l.seps| - 1), parent, false)
    ensures Kept(p, q, Ids(l) + Ids(r), [])
  {
    var n := |l.seps|;
    var x, g, y := l.kids[..n], l.kids[n], r.kids;
    assert l.kids == x + [g];
    Concat(x, [g]);
    ApartConcat(x, [g]);
    Single(g);
    IdWithin(g);
    assert g in l.kids && RepAll(p, l.kids, l.id);
    LendRep(p, q, x, g, y, l.id, r.id);
    CutAtLend(l, sep, r);
  }

  lemma CutAtLend(l: Tree, sep: Key, r: Tree)
    requires l.Node? && r.Node? && |l.kids| == |l.seps| + 1 && |l.seps| > 0 && |r.kids| == |r.seps| + 1
    ensures CutLeft(l, sep, r, |l.seps| - 1) == Node(l.id, l.seps[..|l.seps| - 1], l.kids[..|l.seps|])
    ensures CutRight(l, sep, r, |l.seps| - 1) == Node(r.id, [sep] + r.seps, [l.kids[|l.seps|]] + r.kids)
    ensures KidIds(l.kids[..|l.seps|]) == KidIds(l.kids)[..|l.seps|]
    ensures KidIds([l.kids[|l.seps|]] + r.kids) == [l.kids[|l.seps|].id] + KidIds(r.kids)
  {
    assert RowSeps(l, sep, r)[|l.seps|..] == [sep] + r.seps;
    assert RowKids(l, r)[|l.seps|..] == [l.kids[|l.seps|]] + r.kids;
  }

  /** The right page's first child goes to the left page. */
  lemma LendLeftRep(p: Pages, q: Pages, l: Tree, sep: Key, r: Tree, parent: PageId)
    requires l.Node? && r.Node? && Rep(p, l, parent, false) && Rep(p, r, parent, false)
    requires |l.kids| == |l.seps| + 1 && |r.kids| == |r.seps| + 1 && |r.seps| > 0
    requires Distinct(l) && Distinct(r) && Ids(l) !! Ids(r)
    requires var g := r.kids[0].id;
      l.id in p && r.id in p && g in p && p[l.id].InternalPage? && p[r.id].InternalPage? &&
      q == LendPages(p, l.id, l.seps + [sep], KidIds(l.kids) + [g], r.id, r.seps[1..], KidIds(r.kids)[1..], g, l.id)
    ensures Rep(q, CutLeft(l, sep, r, |l.seps| + 1), parent, false)
    ensures Rep(q, CutRight(l, sep, r, |l.seps| + 1), parent, false)
    ensures Kept(p, q, Ids(l) + Ids(r), [])
  {
    var x, g, y := r.kids[1..], r.kids[0], l.kids;
    assert r.kids == [g] + x;
    Concat([g], x);
    ApartConcat([g], x);
    Single(g);
    IdWithin(g);
    assert g in r.kids && RepAll(p, r.kids, r.id);
    LendRep(p, q, x, g, y, r.id, l.id);
    CutAtLendLeft(l, sep, r);
  }

  lemma CutAtLendLeft(l: Tree, sep: Key, r: Tree)
    requires l.Node? && r.Node? && |l.kids| == |l.seps| + 1 && |r.kids| == |r.seps| + 1 && |r.seps| > 0
    ensures CutLeft(l, sep, r, |l.seps| + 1) == Node(l.id, l.seps + [sep], l.kids + [r.kids[0]])
    ensures CutRight(l, sep, r, |l.seps| + 1) == Node(r.id, r.seps[1..], r.kids[1..])
    ensures KidIds(l.kids + [r.kids[0]]) == KidIds(l.kids) + [r.kids[0].id]
    ensures KidIds(r.kids[1..]) == KidIds(r.kids)[1..]
  {
    assert RowSeps(l, sep, r)[..|l.seps| + 1] == l.seps + [sep];
    assert RowSeps(l, sep, r)[|l.seps| + 2..] == r.seps[1..];
    assert RowKids(l, r)[..|l.seps| + 2] == l.kids + [r.kids[0]];
    assert RowKids(l, r)[|l.seps| + 2..] == r.kids[1..];
  }

  lemma InternalShift(c: Caps, p: Pages, q: Pages, t: Tree, at: Spot, h: nat, j: nat, sep: Key, m: nat)
    requires t.Node? && Rep(p, t, at.parent, at.root) && Distinct(t) && j + 1 < |t.kids|
    requires Siblings(c, t.kids[j], sep, t.kids[j + 1], h)
    requires Minimum(c, h) <= m <= c.internal
    requires m + 1 + Minimum(c, h) <= |RowSeps(t.kids[j], sep, t.kids[j + 1])| <= m + 1 + c.internal
    requires Rep(q, CutLeft(t.kids[j], sep, t.kids[j + 1], m), t.id, false)
    requires Rep(q, CutRight(t.kids[j], sep, t.kids[j + 1], m), t.id, false)
    requires Kept(p, q, Ids(t.kids[j]) + Ids(t.kids[j + 1]), [])
    requires (forall x :: x in p ==> SameLinks(p, q, x)) && q.Keys == p.Keys
    ensures Shift(p, q, t, j, CutLeft(t.kids[j], sep, t.kids[j + 1], m), CutRight(t.kids[j], sep, t.kids[j + 1], m))
  {
    CutSiblings(c, t.kids[j], sep, t.kids[j + 1], h, m);
    CutSiblingsIds(c, t.kids[j], sep, t.kids[j + 1], h, m);
  }

  // ---- Merging -----------------------------------------------------------------------------

  /** The page store after internal page b was merged into a: one long page, b's children adopted. */
  ghost function InternalMerged(p: Pages, a: PageId, sep: Key, b: PageId): (q: Pages)
    requires a in p && b in p && p[a].InternalPage? && p[b].InternalPage?
  {
    Adopted(p[a := p[a].(seps := p[a].seps + [sep] + p[b].seps, kids := p[a].kids + p[b].kids)], p[b].kids, a)
  }

  lemma InternalMergeRep(p: Pages, q: Pages, l: Tree, sep: Key, r: Tree, parent: PageId)
    requires l.Node? && r.Node? && Rep(p, l, parent, false) && Rep(p, r, parent, false)
    requires Distinct(l) && Distinct(r) && Ids(l) !! Ids(r)
    requires l.id in p && r.id in p && p[l.id].InternalPage? && p[r.id].InternalPage? &&
      q == InternalMerged(p, l.id, sep, r.id)
    ensures Rep(q, Node(l.id, RowSeps(l, sep, r), RowKids(l, r)), parent, false)
    ensures Kept(p, q, Ids(l) + Ids(r), [])
    ensures q.Keys == p.Keys && forall x :: x in p ==> SameLinks(p, q, x)
  {
    var mid := p[l.id := p[l.id].(seps := p[l.id].seps + [sep] + p[r.id].seps, kids := p[l.id].kids + p[r.id].kids)];
    var moved := set id | id in KidIds(r.kids);
    forall x | x in moved ensures x in AllIds(r.kids) {
      KidIdsIn(r.kids, x);
    }
    RepAllKept(p, mid, r.kids, r.id, {l.id}, []);
    RepAdopted(mid, q, r.kids, r.id, l.id);
    RepAllKept(p, mid, l.kids, l.id, {l.id}, []);
    RepAllKept(mid, q, l.kids, l.id, moved, []);
    Concat(l.kids, r.kids);
  }
}
