/** Changing one value in a leaf page, seen from the whole tree. */
module BTreeUpdate {
  import opened PageIds
  import opened BTreeShape
  import opened BTreeEntries
  import opened BTreeNodes
  import opened BTreePages
  import opened BTreeSpots
  import opened BTreeInsert
  import opened BTreeErase

  lemma {:induction false} OwnerOf(ts: seq<Tree>, x: PageId) returns (i: nat)
    requires x in AllIds(ts)
    ensures i < |ts| && x in Ids(ts[i])
  {
    if x in Ids(ts[0]) {
      i := 0;
    } else {
      var j := OwnerOf(ts[1..], x);
      i := j + 1;
    }
  }

  /** Some tree with the same shape and keys stands for the updated pages. */
  lemma {:induction false} UpdateBelow(c: Caps, p: Pages, q: Pages, t: Tree, h: nat, lo: nat, at: Spot, id: PageId,
                                       pos: nat, v: Value)
    returns (t1: Tree, n: nat)
    requires Sub(c, p, t, h, lo, at) && id in Ids(t)
    requires id in p && p[id].LeafPage? && pos < |p[id].entries|
    requires q == p[id := p[id].(entries := Replaced(p[id].entries, pos, v))]
    ensures Sub(c, q, t1, h, lo, at) && t1.id == t.id && Ids(t1) <= Ids(t)
    ensures n < |Entries(t)| && Entries(t)[n].key == p[id].entries[pos].key && Entries(t1) == Replaced(Entries(t), n, v)
    decreases t
  {
    ChainParents(p, q, at.pre + Leaves(t) + at.post);
    match t {
      case Leaf(_, es) =>
        t1, n := Leaf(id, Replaced(es, pos, v)), pos;
      case Node(_, seps, kids) =>
        var i := OwnerOf(kids, id);
        Descend(c, p, t, h, lo, at, i);
        var kid, m := UpdateBelow(c, p, q, kids[i], h - 1, Minimum(c, h - 1), Below(t, at, i), id, pos, v);
        t1, n := Node(t.id, seps, kids[..i] + [kid] + kids[i + 1..]), |AllEntries(kids[..i])| + m;
        UpdatedKid(c, p, q, t, h, lo, at, i, kid, m, v);
        hide Sub, Rep;
    }
  }

  /** A node whose child i was updated. */
  lemma UpdatedKid(c: Caps, p: Pages, q: Pages, t: Tree, h: nat, lo: nat, at: Spot, i: nat, kid: Tree, m: nat, v: Value)
    requires Sub(c, p, t, h, lo, at) && t.Node? && i < |t.kids| && Kept(p, q, Ids(t.kids[i]), Below(t, at, i).post)
    requires Sub(c, q, kid, h - 1, Minimum(c, h - 1), Below(t, at, i)) && kid.id == t.kids[i].id &&
      Ids(kid) <= Ids(t.kids[i])
    requires m < |Entries(t.kids[i])| && Entries(kid) == Replaced(Entries(t.kids[i]), m, v)
    ensures var t1, n := Node(t.id, t.seps, t.kids[..i] + [kid] + t.kids[i + 1..]), |AllEntries(t.kids[..i])| + m;
      && Sub(c, q, t1, h, lo, at) && Ids(t1) <= Ids(t)
      && n < |Entries(t)| && Entries(t)[n] == Entries(t.kids[i])[m] && Entries(t1) == Replaced(Entries(t), n, v)
  {
    HurtUpRep(c, p, q, t, h, lo, at, i, kid);
    UpdateUp(c, q, t, h, lo, at, i, kid, m, v);
    hide Rep, Chain, Fits, Kept;
  }

  lemma ReplacedInside(a: seq<Entry>, e: seq<Entry>, b: seq<Entry>, m: nat, v: Value)
    requires m < |e|
    ensures (a + e + b)[|a| + m] == e[m] && a + Replaced(e, m, v) + b == Replaced(a + e + b, |a| + m, v)
  {
  }

  lemma UpdatedContents(t: Tree, i: nat, kid: Tree, m: nat, v: Value)
    requires t.Node? && i < |t.kids| && m < |Entries(t.kids[i])| && Entries(kid) == Replaced(Entries(t.kids[i]), m, v)
    ensures var t1, n := Node(t.id, t.seps, t.kids[..i] + [kid] + t.kids[i + 1..]), |AllEntries(t.kids[..i])| + m;
      && n < |Entries(t)| && Entries(t)[n] == Entries(t.kids[i])[m] && Entries(t1) == Replaced(Entries(t), n, v)
  {
    Around(t.kids, i);
    Single(kid);
    EntriesConcat(t.kids[..i] + [kid], t.kids[i + 1..]);
    EntriesConcat(t.kids[..i], [kid]);
    ReplacedInside(AllEntries(t.kids[..i]), Entries(t.kids[i]), AllEntries(t.kids[i + 1..]), m, v);
  }

  lemma UpdateUp(c: Caps, q: Pages, t: Tree, h: nat, lo: nat, at: Spot, i: nat, kid: Tree, m: nat, v: Value)
    requires c.Valid() && t.Node? && Fits(c, t, h, lo) && Sorted(Entries(t)) && i < |t.kids|
    requires Good(c, kid, h - 1) && m < |Entries(t.kids[i])| && Entries(kid) == Replaced(Entries(t.kids[i]), m, v)
    requires Chain(q, Below(t, at, i).pre + Leaves(kid) + Below(t, at, i).post)
    ensures var t1, n := Node(t.id, t.seps, t.kids[..i] + [kid] + t.kids[i + 1..]), |AllEntries(t.kids[..i])| + m;
      && n < |Entries(t)| && Entries(t)[n] == Entries(t.kids[i])[m] && Entries(t1) == Replaced(Entries(t), n, v)
      && Fits(c, t1, h, lo) && Sorted(Entries(t1))
      && Chain(q, at.pre + Leaves(t1) + at.post)
  {
    hide Sorted;
    UpdatedContents(t, i, kid, m, v);
    var n := |AllEntries(t.kids[..i])| + m;
    MapOfReplaced(Entries(t), n, v);
    Single(kid);
    LeavesUp(t, at, i, [kid], Below(t, at, i));
    if i > 0 {
      assert Bounds(t.seps[i - 1], t.kids[i]);
    }
    ReplaceKid(c, t.seps, t.kids, h - 1, i, kid);
  }
}
