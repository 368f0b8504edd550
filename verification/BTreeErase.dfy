/** What erasing a key does to a subtree: the facts that carry one level's result to the level above. */
module BTreeErase {
  import opened Sets
  import opened PageIds
  import opened BTreeShape
  import opened BTreeEntries
  import opened BTreeNodes
  import opened BTreePages
  import opened BTreeSpots
  import opened BTreeInsert

  datatype EraseOutcome =
    | Missing
    | Gone(underfull: bool)

  ghost function Less(n: nat): nat {
    if n == 0 then 0 else n - 1
  }

  /** The subtree t became t1, which lacks the entry at pos; its top page may be one key short. */
  ghost predicate AfterErased(c: Caps, p: Pages, q: Pages, t: Tree, h: nat, lo: nat, at: Spot, k: Key, t1: Tree,
                              pos: nat) {
    && Hit(Entries(t), pos, k)
    && Sub(c, q, t1, h, Less(lo), at) && t1.id == t.id
    && Entries(t1) == Erased(Entries(t), pos)
    && Ids(t1) <= Ids(t)
    && Kept(p, q, Ids(t), at.post) && q.Keys == p.Keys
  }

  /** An internal page whose child ci may be one key short, and the separator before it stale. */
  ghost predicate Hurt(c: Caps, p: Pages, t: Tree, h: nat, at: Spot, ci: nat) {
    && c.Valid() && INVALID_PAGE_ID !in p && h > 0
    && t.Node? && Rep(p, t, at.parent, at.root) && Distinct(t)
    && |t.seps| <= c.internal && ShortBody(c, t.seps, t.kids, h - 1, ci)
    && Sorted(Entries(t))
    && Chain(p, at.pre + Leaves(t) + at.post)
  }

  /** The hurt page became t1, well formed again, with the same entries. */
  ghost predicate Healed(c: Caps, p: Pages, q: Pages, t: Tree, h: nat, lo: nat, at: Spot, t1: Tree) {
    && Sub(c, q, t1, h, lo, at) && t1.id == t.id
    && Entries(t1) == Entries(t)
    && Ids(t1) <= Ids(t)
    && Kept(p, q, Ids(t), at.post) && q.Keys == p.Keys
  }

  lemma LeafErased(c: Caps, p: Pages, q: Pages, t: Tree, h: nat, lo: nat, at: Spot, k: Key, pos: nat)
    requires Sub(c, p, t, h, lo, at) && t.Leaf? && Hit(t.entries, pos, k)
    requires q == p[t.id := p[t.id].(entries := Erased(t.entries, pos))]
    ensures AfterErased(c, p, q, t, h, lo, at, k, Leaf(t.id, Erased(t.entries, pos)), pos)
  {
    SortedErased(t.entries, pos);
    ChainParents(p, q, at.pre + Leaves(t) + at.post);
  }

  /** The key sits in the routed child exactly when it sits in the page's subtree. */
  lemma MissingUp(c: Caps, t: Tree, h: nat, lo: nat, k: Key, i: nat, pos: nat)
    requires c.Valid() && t.Node? && Fits(c, t, h, lo) && Sorted(Entries(t)) && Routed(t.seps, k, i)
    requires Gap(Entries(t.kids[i]), pos, k)
    ensures Gap(Entries(t), |AllEntries(t.kids[..i])| + pos, k)
  {
    ChildEntries(c, t, h, lo, k, i);
    GapInside(AllEntries(t.kids[..i]), Entries(t.kids[i]), AllEntries(t.kids[i + 1..]), pos, k);
  }

  lemma HitUp(t: Tree, k: Key, i: nat, pos: nat, t1: Tree)
    requires t.Node? && i < |t.kids| && Sorted(Entries(t))
    requires Hit(Entries(t.kids[i]), pos, k) && Entries(t1) == Erased(Entries(t.kids[i]), pos)
    ensures Hit(Entries(t), |AllEntries(t.kids[..i])| + pos, k)
    ensures AllEntries(t.kids[..i] + [t1] + t.kids[i + 1..]) == Erased(Entries(t), |AllEntries(t.kids[..i])| + pos)
    ensures Sorted(AllEntries(t.kids[..i] + [t1] + t.kids[i + 1..]))
  {
    Around(t.kids, i);
    var a, m, b := AllEntries(t.kids[..i]), Entries(t.kids[i]), AllEntries(t.kids[i + 1..]);
    assert (a + m + b)[|a| + pos] == m[pos];
    ErasedInside(a, m, b, pos);
    EntriesConcat(t.kids[..i] + [t1], t.kids[i + 1..]);
    EntriesConcat(t.kids[..i], [t1]);
    Single(t1);
    SortedErased(Entries(t), |a| + pos);
  }

  lemma HurtUp(c: Caps, p: Pages, q: Pages, t: Tree, h: nat, lo: nat, at: Spot, k: Key, i: nat, t1: Tree, pos: nat)
    requires Sub(c, p, t, h, lo, at) && t.Node? && i < |t.kids|
    requires AfterErased(c, p, q, t.kids[i], h - 1, Minimum(c, h - 1), Below(t, at, i), k, t1, pos)
    ensures Hurt(c, q, Node(t.id, t.seps, t.kids[..i] + [t1] + t.kids[i + 1..]), h, at, i)
    ensures Kept(p, q, AllIds(t.kids), at.post)
    ensures Ids(Node(t.id, t.seps, t.kids[..i] + [t1] + t.kids[i + 1..])) <= Ids(t)
  {
    HitUp(t, k, i, pos, t1);
    Single(t1);
    LeavesUp(t, at, i, [t1], Below(t, at, i));
    KeptUp(c, p, q, t, h, lo, at, i);
    ShortenKid(c, t.seps, t.kids, h - 1, i, t1);
    HurtUpRep(c, p, q, t, h, lo, at, i, t1);
  }

  lemma HurtUpRep(c: Caps, p: Pages, q: Pages, t: Tree, h: nat, lo: nat, at: Spot, i: nat, t1: Tree)
    requires Sub(c, p, t, h, lo, at) && t.Node? && i < |t.kids|
    requires Kept(p, q, Ids(t.kids[i]), Below(t, at, i).post)
    requires Rep(q, t1, t.id, false) && t1.id == t.kids[i].id && Distinct(t1) && Ids(t1) <= Ids(t.kids[i])
    ensures Rep(q, Node(t.id, t.seps, t.kids[..i] + [t1] + t.kids[i + 1..]), at.parent, at.root)
    ensures Distinct(Node(t.id, t.seps, t.kids[..i] + [t1] + t.kids[i + 1..]))
    ensures Ids(Node(t.id, t.seps, t.kids[..i] + [t1] + t.kids[i + 1..])) <= Ids(t)
  {
    var n := BeyondAll(p.Keys);
    StoredUpRep(c, p, n, q, t, h, lo, at, i, t1);
    var u := Node(t.id, t.seps, t.kids[..i] + [t1] + t.kids[i + 1..]);
    Single(t1);
    Concat3(t.kids[..i], [t1], t.kids[i + 1..]);
    AroundIds(t.kids, i);
  }

  /** Some number is above every member. */
  lemma {:induction false} BeyondAll(s: set<int>) returns (n: int)
    ensures forall x :: x in s ==> x < n
    decreases |s|
  {
    n := 0;
    if s != {} {
      var x := Member(s);
      var m := BeyondAll(s - {x});
      n := if x < m then m else x + 1;
      forall y | y in s ensures y < n {
        if y != x { assert y in s - {x}; }
      }
    }
  }

  /** The page's own result once its hurt child has been dealt with. */
  lemma ErasedUp(c: Caps, p: Pages, q: Pages, r: Pages, t: Tree, h: nat, lo: nat, at: Spot, k: Key, i: nat, kid: Tree,
                 pos: nat, t1: Tree)
    requires Sub(c, p, t, h, lo, at) && t.Node? && i < |t.kids|
    requires AfterErased(c, p, q, t.kids[i], h - 1, Minimum(c, h - 1), Below(t, at, i), k, kid, pos)
    requires Healed(c, q, r, Node(t.id, t.seps, t.kids[..i] + [kid] + t.kids[i + 1..]), h, Less(lo), at, t1)
    ensures AfterErased(c, p, r, t, h, lo, at, k, t1, |AllEntries(t.kids[..i])| + pos)
  {
    HitUp(t, k, i, pos, kid);
    HurtUp(c, p, q, t, h, lo, at, k, i, kid, pos);
  }

  // ---- Refreshing a separator --------------------------------------------------------------

  /** t with separator i replaced. */
  ghost function WithSep(t: Tree, i: nat, sep: Key): Tree
    requires t.Node? && i < |t.seps|
  {
    Node(t.id, t.seps[i := sep], t.kids)
  }

  lemma RefreshRep(p: Pages, q: Pages, t: Tree, parent: PageId, root: bool, i: nat, sep: Key)
    requires t.Node? && Rep(p, t, parent, root) && Distinct(t) && i < |t.seps|
    requires q == p[t.id := p[t.id].(seps := t.seps[i := sep])]
    ensures Rep(q, WithSep(t, i, sep), parent, root)
    ensures Distinct(WithSep(t, i, sep)) && Ids(WithSep(t, i, sep)) == Ids(t)
  {
    RepAllKept(p, q, t.kids, t.id, {t.id}, []);
  }

  /** A page whose short child has its minimum after all is healed by refreshing one separator. */
  lemma RefreshHeals(c: Caps, p: Pages, q: Pages, t: Tree, h: nat, at: Spot, ci: nat, sep: Key)
    requires Hurt(c, p, t, h, at, ci) && Good(c, t.kids[ci], h - 1) && ci > 0 && Bounds(sep, t.kids[ci])
    requires q == p[t.id := p[t.id].(seps := t.seps[ci - 1 := sep])]
    ensures Healed(c, p, q, t, h, |t.seps|, at, WithSep(t, ci - 1, sep))
  {
    RefreshRep(p, q, t, at.parent, at.root, ci - 1, sep);
    RefreshedBody(c, t.seps, t.kids, h - 1, ci, t.seps[ci - 1 := sep]);
    ChainParents(p, q, at.pre + Leaves(t) + at.post);
  }

  lemma NoRefreshHeals(c: Caps, p: Pages, t: Tree, h: nat, at: Spot)
    requires Hurt(c, p, t, h, at, 0) && Good(c, t.kids[0], h - 1)
    ensures Healed(c, p, p, t, h, |t.seps|, at, t)
  {
    RefreshedBody(c, t.seps, t.kids, h - 1, 0, t.seps);
  }

  // ---- Two adjacent children ---------------------------------------------------------------

  /** t with children j and j + 1 replaced by mid. */
  ghost function WithPair(t: Tree, j: nat, mid: seq<Tree>, seps: seq<Key>): Tree
    requires t.Node? && j + 1 < |t.kids|
  {
    Node(t.id, seps, t.kids[..j] + mid + t.kids[j + 2..])
  }

  lemma PairEntries(t: Tree, j: nat, mid: seq<Tree>)
    requires t.Node? && j + 1 < |t.kids|
    requires AllEntries(mid) == Entries(t.kids[j]) + Entries(t.kids[j + 1])
    ensures AllEntries(t.kids[..j] + mid + t.kids[j + 2..]) == Entries(t)
  {
    var a, b := t.kids[..j], t.kids[j + 2..];
    assert t.kids == a + [t.kids[j], t.kids[j + 1]] + b;
    EntriesConcat(a + [t.kids[j], t.kids[j + 1]], b);
    EntriesConcat(a, [t.kids[j], t.kids[j + 1]]);
    EntriesConcat(a + mid, b);
    EntriesConcat(a, mid);
    Pair(t.kids[j], t.kids[j + 1]);
  }

  lemma PairLeaves(t: Tree, j: nat, mid: seq<Tree>)
    requires t.Node? && j + 1 < |t.kids|
    ensures Leaves(t) ==
      AllLeaves(t.kids[..j]) + (Leaves(t.kids[j]) + Leaves(t.kids[j + 1])) + AllLeaves(t.kids[j + 2..])
    ensures AllLeaves(t.kids[..j] + mid + t.kids[j + 2..]) ==
      AllLeaves(t.kids[..j]) + AllLeaves(mid) + AllLeaves(t.kids[j + 2..])
  {
    var a, b := t.kids[..j], t.kids[j + 2..];
    assert t.kids == a + [t.kids[j], t.kids[j + 1]] + b;
    LeavesConcat(a + [t.kids[j], t.kids[j + 1]], b);
    LeavesConcat(a, [t.kids[j], t.kids[j + 1]]);
    LeavesConcat(a + mid, b);
    LeavesConcat(a, mid);
    Pair(t.kids[j], t.kids[j + 1]);
  }

  /** Children before and after the pair share no page with it. */
  lemma PairApart(t: Tree, j: nat)
    requires t.Node? && Distinct(t) && j + 1 < |t.kids|
    ensures Distinct(t.kids[j]) && Distinct(t.kids[j + 1]) && Ids(t.kids[j]) !! Ids(t.kids[j + 1])
    ensures Ids(t.kids[j]) + Ids(t.kids[j + 1]) !! AllIds(t.kids[..j])
    ensures Ids(t.kids[j]) + Ids(t.kids[j + 1]) !! AllIds(t.kids[j + 2..])
    ensures t.id !in Ids(t.kids[j]) + Ids(t.kids[j + 1])
    ensures Ids(t.kids[j]) + Ids(t.kids[j + 1]) <= AllIds(t.kids)
  {
    var a, m, b := t.kids[..j], [t.kids[j], t.kids[j + 1]], t.kids[j + 2..];
    assert t.kids == a + m + b;
    Concat3(a, m, b);
    Pair(t.kids[j], t.kids[j + 1]);
  }

  lemma PairDistinct(t: Tree, j: nat, mid: seq<Tree>, seps: seq<Key>)
    requires t.Node? && Distinct(t) && j + 1 < |t.kids|
    requires Apart(mid) && AllIds(mid) <= Ids(t.kids[j]) + Ids(t.kids[j + 1])
    ensures Distinct(WithPair(t, j, mid, seps)) && Ids(WithPair(t, j, mid, seps)) <= Ids(t)
  {
    var a, m, b := t.kids[..j], [t.kids[j], t.kids[j + 1]], t.kids[j + 2..];
    assert t.kids == a + m + b;
    Concat3(a, m, b);
    Concat3(a, mid, b);
    Pair(t.kids[j], t.kids[j + 1]);
  }
}
