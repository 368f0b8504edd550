/** A child split, seen from its parent: the parent gains a separator and a child, and either has
    room for them or splits itself. */
module BTreeInsertSplit {
  import opened PageIds
  import opened BTreeShape
  import opened BTreeEntries
  import opened BTreeNodes
  import opened BTreePages
  import opened BTreeSpots
  import opened BTreeInsert

  /** The separators ss and children ks that page t.id must now hold: well formed, holding the new
      entry, with every child page in place under t.id; the page itself is still as it was. */
  ghost predicate Pending(c: Caps, p: Pages, n: int, q: Pages, t: Tree, h: nat, at: Spot, e: Entry, ss: seq<Key>,
                          ks: seq<Tree>, pos: nat)
    requires t.Node?
  {
    && h > 0 && |ss| == |t.seps| + 1 && Body(c, ss, ks, h - 1)
    && Gap(Entries(t), pos, e.key) && AllEntries(ks) == Inserted(Entries(t), pos, e)
    && INVALID_PAGE_ID !in q && RepAll(q, ks, t.id)
    && Apart(ks) && Drawn(AllIds(ks), AllIds(t.kids), n)
    && Chain(q, at.pre + AllLeaves(ks) + at.post)
    && Kept(p, q, AllIds(t.kids), at.post)
    && t.id in p && t.id in q && q[t.id] == p[t.id]
  }

  lemma SplitUpShape(c: Caps, t: Tree, h: nat, lo: nat, e: Entry, i: nat, sep: Key, t1: Tree, t2: Tree, pos: nat)
    requires c.Valid() && t.Node? && Fits(c, t, h, lo) && Sorted(Entries(t)) && Routed(t.seps, e.key, i)
    requires Gap(Entries(t.kids[i]), pos, e.key)
    requires Entries(t1) != [] && Entries(t1) + Entries(t2) == Inserted(Entries(t.kids[i]), pos, e)
    requires Good(c, t1, h - 1) && Good(c, t2, h - 1) && Bounds(sep, t2)
    ensures Body(c, t.seps[..i] + [sep] + t.seps[i..], t.kids[..i] + [t1, t2] + t.kids[i + 1..], h - 1)
  {
    ChildEntries(c, t, h, lo, e.key, i);
    if i > 0 {
      FirstKept(Entries(t.kids[i]), pos, e);
      assert Entries(t1)[0] == (Entries(t1) + Entries(t2))[0];
    }
    SplitKid(c, t.seps, t.kids, h - 1, i, t1, t2, sep);
  }

  lemma SplitUpApart(p: Pages, n: int, t: Tree, at: Spot, i: nat, t1: Tree, t2: Tree)
    requires t.Node? && Rep(p, t, at.parent, at.root) && Distinct(t) && i < |t.kids|
    requires forall x :: x in p ==> x < n
    requires Distinct(t1) && Distinct(t2) && Ids(t1) !! Ids(t2) && Drawn(Ids(t1) + Ids(t2), Ids(t.kids[i]), n)
    ensures Apart(t.kids[..i] + [t1, t2] + t.kids[i + 1..])
    ensures Drawn(AllIds(t.kids[..i] + [t1, t2] + t.kids[i + 1..]), AllIds(t.kids), n)
  {
    IdsStored(p, t, at.parent, at.root);
    Pair(t1, t2);
    Single(t.kids[i]);
    assert t.kids[i..i + 1] == [t.kids[i]];
    SpliceApart(t.kids, i, i + 1, [t1, t2], n);
  }

  lemma SplitUpRep(p: Pages, q: Pages, t: Tree, at: Spot, i: nat, t1: Tree, t2: Tree)
    requires t.Node? && Rep(p, t, at.parent, at.root) && Distinct(t) && i < |t.kids|
    requires Kept(p, q, Ids(t.kids[i]), Below(t, at, i).post)
    requires Rep(q, t1, t.id, false) && Rep(q, t2, t.id, false)
    ensures RepAll(q, t.kids[..i] + [t1, t2] + t.kids[i + 1..], t.id)
  {
    AroundIds(t.kids, i);
    var a, b := t.kids[..i], t.kids[i + 1..];
    assert RepAll(p, a, t.id) && RepAll(p, b, t.id);
    RepAllKept(p, q, a, t.id, Ids(t.kids[i]), Below(t, at, i).post);
    RepAllKept(p, q, b, t.id, Ids(t.kids[i]), Below(t, at, i).post);
  }

  lemma SplitUp(c: Caps, p: Pages, n: int, q: Pages, t: Tree, h: nat, lo: nat, at: Spot, e: Entry, i: nat, sep: Key,
                t1: Tree, t2: Tree, pos: nat)
    requires Sub(c, p, t, h, lo, at) && t.Node? && Routed(t.seps, e.key, i)
    requires forall x :: x in p ==> x < n
    requires AfterSplit(c, p, n, q, t.kids[i], h - 1, Below(t, at, i), e, sep, t1, t2, pos)
    ensures Pending(c, p, n, q, t, h, at, e, t.seps[..i] + [sep] + t.seps[i..],
                    t.kids[..i] + [t1, t2] + t.kids[i + 1..],
                    |AllEntries(t.kids[..i])| + pos)
  {
    Pair(t1, t2);
    EntriesUp(c, t, h, lo, e, i, pos, [t1, t2]);
    LeavesUp(t, at, i, [t1, t2], Below(t, at, i));
    KeptUp(c, p, q, t, h, lo, at, i);
    SplitUpShape(c, t, h, lo, e, i, sep, t1, t2, pos);
    SplitUpApart(p, n, t, at, i, t1, t2);
    SplitUpRep(p, q, t, at, i, t1, t2);
  }

  /** The position found for the new separator is the child's own: it lies strictly between its neighbours. */
  lemma SplitPosition(c: Caps, t: Tree, h: nat, lo: nat, e: Entry, i: nat, sep: Key, t1: Tree, t2: Tree, pos: nat)
    requires c.Valid() && t.Node? && Fits(c, t, h, lo) && Sorted(Entries(t)) && Routed(t.seps, e.key, i)
    requires Gap(Entries(t.kids[i]), pos, e.key)
    requires Entries(t1) != [] && Entries(t1) + Entries(t2) == Inserted(Entries(t.kids[i]), pos, e) && Bounds(sep, t2)
    ensures forall j :: 0 <= j < i ==> t.seps[j] < sep
    ensures forall j :: i <= j < |t.seps| ==> sep < t.seps[j]
  {
    ChildEntries(c, t, h, lo, e.key, i);
    var m := Entries(t.kids[i]);
    var es := Inserted(m, pos, e);
    SortedInside(AllEntries(t.kids[..i]), m, AllEntries(t.kids[i + 1..]));
    SortedInserted(m, pos, e);
    assert es[|Entries(t1)|] == Entries(t2)[0];
    assert es[0].key < sep;
    forall j | 0 <= j < i ensures t.seps[j] < sep {
      if j < i - 1 { SepsSorted(t.seps, t.kids, j, i - 1); }
      FirstKept(m, pos, e);
    }
    forall j | i <= j < |t.seps| ensures sep < t.seps[j] {
      BelowLater(t, e.key, i, j, es[|Entries(t1)|], pos, e);
    }
  }

  lemma BelowLater(t: Tree, k: Key, i: nat, j: nat, x: Entry, pos: nat, e: Entry)
    requires t.Node? && |t.kids| == |t.seps| + 1 && Exact(t.seps, t.kids) && Sorted(AllEntries(t.kids)) &&
      i <= j < |t.seps|
    requires Routed(t.seps, k, i) && e.key == k && pos <= |Entries(t.kids[i])|
    requires x in Inserted(Entries(t.kids[i]), pos, e)
    ensures x.key < t.seps[j]
  {
    if x != e {
      var m := Entries(t.kids[i]);
      assert x in m;
      var y :| 0 <= y < |m| && m[y] == x;
      BelowSeparator(t.seps, t.kids, i, j, y);
    }
  }

  /** Everything under child i is below every separator to its right. */
  lemma BelowSeparator(seps: seq<Key>, kids: seq<Tree>, i: nat, j: nat, y: nat)
    requires |kids| == |seps| + 1 && Exact(seps, kids) && Sorted(AllEntries(kids)) && i <= j < |seps|
    requires y < |Entries(kids[i])|
    ensures Entries(kids[i])[y].key < seps[j]
  {
    var left := kids[..j + 1];
    Around(kids, j + 1);
    Around(left, i);
    assert left[i] == kids[i];
    assert Bounds(seps[j], kids[j + 1]);
    var s := AllEntries(kids);
    assert s[|AllEntries(left[..i])| + y] == Entries(kids[i])[y];
    assert s[|AllEntries(left)|] == Entries(kids[j + 1])[0];
  }

  // ---- The parent has room -----------------------------------------------------------------

  lemma RoomUp(c: Caps, p: Pages, n: int, q: Pages, r: Pages, t: Tree, h: nat, lo: nat, at: Spot, e: Entry,
               ss: seq<Key>, ks: seq<Tree>, pos: nat)
    requires Sub(c, p, t, h, lo, at) && t.Node? && Pending(c, p, n, q, t, h, at, e, ss, ks, pos)
    requires forall x :: x in p ==> x < n
    requires |ss| <= c.internal
    requires r == q[t.id := q[t.id].(seps := ss, kids := KidIds(ks))]
    ensures AfterStored(c, p, n, r, t, h, lo, at, e, Node(t.id, ss, ks), pos)
  {
    SortedInserted(Entries(t), pos, e);
    NotBelow(p, n, t, at, ks);
    RepAllKept(q, r, ks, t.id, {t.id}, []);
    ChainParents(q, r, at.pre + AllLeaves(ks) + at.post);
  }

  /** The page of t is none of the pages below it, old or newly allocated. */
  lemma NotBelow(p: Pages, n: int, t: Tree, at: Spot, ks: seq<Tree>)
    requires t.Node? && Distinct(t) && Rep(p, t, at.parent, at.root)
    requires forall x :: x in p ==> x < n
    requires Drawn(AllIds(ks), AllIds(t.kids), n)
    ensures t.id !in AllIds(ks)
  {
  }

  // ---- The parent splits too ---------------------------------------------------------------

  /** Every listed page gets parent y. */
  ghost function Adopted(p: Pages, ids: seq<PageId>, y: PageId): (q: Pages)
    ensures q.Keys == p.Keys
    ensures forall id :: id in p ==> q[id] == if id in ids then p[id].(parent := y) else p[id]
  {
    map id | id in p :: if id in ids then p[id].(parent := y) else p[id]
  }

  lemma {:induction false} ApartAt(ts: seq<Tree>, i: nat, j: nat)
    requires Apart(ts) && i < |ts| && j < |ts| && i != j
    ensures Ids(ts[i]) !! Ids(ts[j])
  {
    if i == 0 {
      KidIdsWithin(ts[1..], ts[j]);
    } else if j == 0 {
      KidIdsWithin(ts[1..], ts[i]);
    } else {
      ApartAt(ts[1..], i - 1, j - 1);
    }
  }

  lemma {:induction false} ApartEach(ts: seq<Tree>, i: nat)
    requires Apart(ts) && i < |ts|
    ensures Distinct(ts[i])
  {
    if i > 0 {
      ApartEach(ts[1..], i - 1);
    }
  }

  lemma IdWithin(t: Tree)
    ensures t.id in Ids(t)
  {
  }

  /** Pages moved to a new parent keep their subtrees. */
  lemma RepAdopted(p: Pages, q: Pages, ts: seq<Tree>, x: PageId, y: PageId)
    requires RepAll(p, ts, x) && Apart(ts) && q == Adopted(p, KidIds(ts), y)
    ensures RepAll(q, ts, y)
  {
    forall t | t in ts ensures Rep(q, t, y, false) {
      var i :| 0 <= i < |ts| && ts[i] == t;
      ApartEach(ts, i);
      var s := set id | id in KidIds(ts);
      forall z | z in s && z in Ids(t) ensures z == t.id {
        var j :| 0 <= j < |ts| && KidIds(ts)[j] == z;
        IdWithin(ts[j]);
        if j != i { ApartAt(ts, i, j); }
      }
      assert KidIds(ts)[i] == t.id;
      RepReparent(p, q, t, x, false, s, y, false);
    }
  }

  /** The page store after an internal split at separator m. */
  ghost function InternalSplitPages(p: Pages, id: PageId, right: PageId, ss: seq<Key>, ks: seq<PageId>,
                                    m: nat): (q: Pages)
    requires id in p && p[id].InternalPage? && |ks| == |ss| + 1 && m < |ss|
  {
    Adopted(p[id := p[id].(seps := ss[..m], kids := ks[..m + 1])]
             [right := InternalPage(false, p[id].parent, ss[m + 1..], ks[m + 1..])], ks[m + 1..], right)
  }

  lemma {:induction false} KidIdsIn(ts: seq<Tree>, x: PageId)
    requires x in KidIds(ts)
    ensures x in AllIds(ts)
  {
    if ts[0].id == x {
      IdWithin(ts[0]);
    } else {
      var i :| 0 <= i < |ts| && KidIds(ts)[i] == x;
      assert KidIds(ts[1..])[i - 1] == x;
      KidIdsIn(ts[1..], x);
    }
  }

  lemma CutUpRep(c: Caps, q: Pages, r: Pages, t: Tree, h: nat, at: Spot, ss: seq<Key>, ks: seq<Tree>, right: PageId,
                 m: nat)
    requires c.Valid() && Body(c, ss, ks, h) && m < |ss| && t.Node?
    requires t.id in q && q[t.id].InternalPage? && q[t.id].parent == at.parent && q[t.id].isRoot == at.root
    requires RepAll(q, ks, t.id) && Apart(ks) && t.id !in AllIds(ks)
    requires right !in q
    requires r == InternalSplitPages(q, t.id, right, ss, KidIds(ks), m)
    ensures Rep(r, Node(t.id, ss[..m], ks[..m + 1]), at.parent, at.root)
    ensures Rep(r, Node(right, ss[m + 1..], ks[m + 1..]), at.parent, false)
  {
    CutBody(c, ss, ks, h, m);
    KidIdsCut(ks, m + 1);
    AllIdsStored(q, ks, t.id);
    var mid := q[t.id := q[t.id].(seps := ss[..m], kids := KidIds(ks)[..m + 1])]
                [right := InternalPage(false, q[t.id].parent, ss[m + 1..], KidIds(ks)[m + 1..])];
    var ls, rs := ks[..m + 1], ks[m + 1..];
    var moved := set id | id in KidIds(rs);
    forall x | x in moved ensures x in AllIds(rs) {
      KidIdsIn(rs, x);
    }
    assert RepAll(q, ls, t.id) && RepAll(q, rs, t.id);
    RepAllKept(q, mid, rs, t.id, {t.id}, []);
    RepAdopted(mid, r, rs, t.id, right);
    RepAllKept(q, mid, ls, t.id, {t.id}, []);
    RepAllKept(mid, r, ls, t.id, moved, []);
  }

  lemma CutUpKept(p: Pages, n: int, q: Pages, r: Pages, t: Tree, at: Spot, ss: seq<Key>, ks: seq<Tree>, right: PageId,
                  m: nat)
    requires t.Node? && |ks| == |ss| + 1 && m < |ss|
    requires t.id in q && q[t.id].InternalPage?
    requires Kept(p, q, AllIds(t.kids), at.post) && Drawn(AllIds(ks), AllIds(t.kids), n)
    requires forall x :: x in p ==> x < n
    requires right !in q && right >= n
    requires r == InternalSplitPages(q, t.id, right, ss, KidIds(ks), m)
    ensures Kept(p, r, Ids(t), at.post)
  {
    KidIdsCut(ks, m + 1);
    forall id | id in p && id !in Ids(t) ensures id in q && id in r && r[id] == q[id] {
      if id in KidIds(ks)[m + 1..] {
        assert id in KidIds(ks);
        KidIdsIn(ks, id);
      }
    }
  }

  lemma CutUpChain(q: Pages, r: Pages, id: PageId, ss: seq<Key>, ks: seq<PageId>, right: PageId, m: nat,
                   ls: seq<PageId>)
    requires id in q && q[id].InternalPage? && |ks| == |ss| + 1 && m < |ss|
    requires right !in q && Chain(q, ls)
    requires r == InternalSplitPages(q, id, right, ss, ks, m)
    ensures Chain(r, ls)
  {
    ChainParents(q, r, ls);
  }

  /** An internal page at capacity splits: both halves hold at least the minimum that erase relies on. */
  lemma CutUp(c: Caps, p: Pages, n: int, q: Pages, r: Pages, t: Tree, h: nat, lo: nat, at: Spot, e: Entry, ss: seq<Key>,
              ks: seq<Tree>, pos: nat, right: PageId, m: nat)
    requires Sub(c, p, t, h, lo, at) && t.Node? && Pending(c, p, n, q, t, h, at, e, ss, ks, pos)
    requires forall x :: x in p ==> x < n
    requires |t.seps| == c.internal && m == |ss| / 2
    requires right !in q && right >= n && right != INVALID_PAGE_ID && (forall x :: x in q ==> x < right)
    requires r == InternalSplitPages(q, t.id, right, ss, KidIds(ks), m)
    ensures AfterSplit(c, p, n, r, t, h, at, e, ss[m], Node(t.id, ss[..m], ks[..m + 1]),
                       Node(right, ss[m + 1..], ks[m + 1..]), pos)
  {
    NotBelow(p, n, t, at, ks);
    CutUpRep(c, q, r, t, h - 1, at, ss, ks, right, m);
    CutUpKept(p, n, q, r, t, at, ss, ks, right, m);
    CutUpChain(q, r, t.id, ss, KidIds(ks), right, m, at.pre + AllLeaves(ks) + at.post);
    CutBody(c, ss, ks, h - 1, m);
    AllIdsStored(q, ks, t.id);
    FirstEntry(c, Node(t.id, ss[..m], ks[..m + 1]), h, 0);
  }
}
