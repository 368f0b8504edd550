/** The ghost shape of a B+ tree: what the pages of one tree stand for.

    A `Tree` is the mathematical tree that a root page id denotes. Nothing here touches a page
    store; the page-level meaning is `Rep` and `Chain` in BTreePages. */
module BTreeShape {
  import opened PageIds
  import opened Bytes

  /** A key is the big-endian number of its fixed-size byte string; Bytes.LexIsNumeric proves that
      memcmp on equally long strings is the order of these numbers. */
  type Key = int

  type Value = Bytes

  datatype Entry = Entry(key: Key, value: Value)

  /** The bytes of a page that its entries share: all but the 64-byte header. */
  const ENTRY_AREA_SIZE := 4032

  /** Leaf and internal page capacities, entry area size divided by entry size. */
  datatype Caps = Caps(leaf: nat, internal: nat)
  {
    ghost predicate Valid() {
      leaf >= 1 && internal >= 2
    }
  }

  datatype Tree =
    | Leaf(id: PageId, entries: seq<Entry>)
    | Node(id: PageId, seps: seq<Key>, kids: seq<Tree>)

  // ---- What a tree holds -------------------------------------------------------------------

  /** The entries below t, left to right. */
  ghost function Entries(t: Tree): seq<Entry>
    decreases t, 0
  {
    match t
    case Leaf(_, es) => es
    case Node(_, _, kids) => AllEntries(kids)
  }

  ghost function AllEntries(ts: seq<Tree>): seq<Entry>
    decreases ts
  {
    if ts == [] then [] else Entries(ts[0]) + AllEntries(ts[1..])
  }

  /** The leaf page ids below t, left to right. */
  ghost function Leaves(t: Tree): seq<PageId>
    decreases t, 0
  {
    match t
    case Leaf(id, _) => [id]
    case Node(_, _, kids) => AllLeaves(kids)
  }

  ghost function AllLeaves(ts: seq<Tree>): seq<PageId>
    decreases ts
  {
    if ts == [] then [] else Leaves(ts[0]) + AllLeaves(ts[1..])
  }

  /** Every page id used by t. */
  ghost function Ids(t: Tree): set<PageId>
    decreases t, 0
  {
    match t
    case Leaf(id, _) => {id}
    case Node(id, _, kids) => {id} + AllIds(kids)
  }

  ghost function AllIds(ts: seq<Tree>): set<PageId>
    decreases ts
  {
    if ts == [] then {} else Ids(ts[0]) + AllIds(ts[1..])
  }

  ghost function KidIds(ts: seq<Tree>): (r: seq<PageId>)
    ensures |r| == |ts| && forall i :: 0 <= i < |ts| ==> r[i] == ts[i].id
  {
    seq(|ts|, i requires 0 <= i < |ts| => ts[i].id)
  }

  /** No page is used twice. */
  ghost predicate Distinct(t: Tree)
    decreases t, 0
  {
    t.Node? ==> t.id !in AllIds(t.kids) && Apart(t.kids)
  }

  ghost predicate Apart(ts: seq<Tree>)
    decreases ts
  {
    ts != [] ==> Distinct(ts[0]) && Ids(ts[0]) !! AllIds(ts[1..]) && Apart(ts[1..])
  }

  // ---- Concatenation -----------------------------------------------------------------------

  lemma Assoc<T>(x: seq<T>, y: seq<T>, z: seq<T>)
    ensures x + (y + z) == (x + y) + z
  {
  }

  lemma Regroup<T>(x: seq<T>, a: seq<T>, m: seq<T>, b: seq<T>, y: seq<T>)
    ensures (x + a) + m + (b + y) == x + (a + m + b) + y
    ensures forall e :: e in x + a <==> e in x || e in a
    ensures forall e :: e in b + y <==> e in b || e in y
  {
  }

  lemma DisjointUnion<T>(x: set<T>, y: set<T>, z: set<T>)
    ensures x !! (y + z) <==> x !! y && x !! z
  {
  }

  lemma {:induction false} EntriesConcat(a: seq<Tree>, b: seq<Tree>)
    ensures AllEntries(a + b) == AllEntries(a) + AllEntries(b)
  {
    if a == [] {
      assert a + b == b;
    } else {
      EntriesConcat(a[1..], b);
      assert (a + b)[1..] == a[1..] + b;
      Assoc(Entries(a[0]), AllEntries(a[1..]), AllEntries(b));
    }
  }

  lemma {:induction false} LeavesConcat(a: seq<Tree>, b: seq<Tree>)
    ensures AllLeaves(a + b) == AllLeaves(a) + AllLeaves(b)
  {
    if a == [] {
      assert a + b == b;
    } else {
      LeavesConcat(a[1..], b);
      assert (a + b)[1..] == a[1..] + b;
      Assoc(Leaves(a[0]), AllLeaves(a[1..]), AllLeaves(b));
    }
  }

  lemma {:induction false} IdsConcat(a: seq<Tree>, b: seq<Tree>)
    ensures AllIds(a + b) == AllIds(a) + AllIds(b)
  {
    if a == [] {
      assert a + b == b;
    } else {
      IdsConcat(a[1..], b);
      assert (a + b)[1..] == a[1..] + b;
    }
  }

  lemma KidIdsConcat(a: seq<Tree>, b: seq<Tree>)
    ensures KidIds(a + b) == KidIds(a) + KidIds(b)
  {
  }

  lemma KidIdsCut(ks: seq<Tree>, m: nat)
    requires m <= |ks|
    ensures KidIds(ks[..m]) == KidIds(ks)[..m] && KidIds(ks[m..]) == KidIds(ks)[m..]
  {
  }

  lemma Concat(a: seq<Tree>, b: seq<Tree>)
    ensures AllEntries(a + b) == AllEntries(a) + AllEntries(b)
    ensures AllLeaves(a + b) == AllLeaves(a) + AllLeaves(b)
    ensures AllIds(a + b) == AllIds(a) + AllIds(b)
    ensures KidIds(a + b) == KidIds(a) + KidIds(b)
  {
    EntriesConcat(a, b);
    LeavesConcat(a, b);
    IdsConcat(a, b);
  }

  lemma {:induction false} ApartConcat(a: seq<Tree>, b: seq<Tree>)
    ensures Apart(a + b) <==> Apart(a) && Apart(b) && AllIds(a) !! AllIds(b)
  {
    if a == [] {
      assert a + b == b;
    } else {
      ApartConcat(a[1..], b);
      IdsConcat(a[1..], b);
      assert (a + b)[1..] == a[1..] + b;
      DisjointUnion(Ids(a[0]), AllIds(a[1..]), AllIds(b));
      DisjointUnion(AllIds(b), Ids(a[0]), AllIds(a[1..]));
    }
  }

  lemma Single(t: Tree)
    ensures AllEntries([t]) == Entries(t)
    ensures AllLeaves([t]) == Leaves(t)
    ensures AllIds([t]) == Ids(t)
    ensures KidIds([t]) == [t.id]
    ensures Apart([t]) <==> Distinct(t)
  {
    assert [t][1..] == [];
  }

  /** Everything above for a list given as three pieces. */
  lemma Concat3(a: seq<Tree>, m: seq<Tree>, b: seq<Tree>)
    ensures AllEntries(a + m + b) == AllEntries(a) + AllEntries(m) + AllEntries(b)
    ensures AllLeaves(a + m + b) == AllLeaves(a) + AllLeaves(m) + AllLeaves(b)
    ensures AllIds(a + m + b) == AllIds(a) + AllIds(m) + AllIds(b)
    ensures KidIds(a + m + b) == KidIds(a) + KidIds(m) + KidIds(b)
    ensures Apart(a + m + b) <==>
      Apart(a) && Apart(m) && Apart(b) && AllIds(a) !! AllIds(m) && AllIds(a) !! AllIds(b) && AllIds(m) !! AllIds(b)
  {
    Concat(a + m, b);
    Concat(a, m);
    ApartConcat(a + m, b);
    ApartConcat(a, m);
  }

  lemma Pair(t: Tree, u: Tree)
    ensures AllEntries([t, u]) == Entries(t) + Entries(u)
    ensures AllLeaves([t, u]) == Leaves(t) + Leaves(u)
    ensures AllIds([t, u]) == Ids(t) + Ids(u)
    ensures KidIds([t, u]) == [t.id, u.id]
    ensures Apart([t, u]) <==> Distinct(t) && Distinct(u) && Ids(t) !! Ids(u)
  {
    assert [t, u] == [t] + [u];
    Concat([t], [u]);
    ApartConcat([t], [u]);
    Single(t);
    Single(u);
  }

  // ---- Well-formedness ---------------------------------------------------------------------

  ghost function Count(t: Tree): nat {
    match t
    case Leaf(_, es) => |es|
    case Node(_, seps, _) => |seps|
  }

  /** The fewest keys a non-root page may hold: at height 0 a leaf, above it an internal page. */
  ghost function Minimum(c: Caps, h: nat): nat {
    if h == 0 then (c.leaf + 1) / 2 else c.internal / 2
  }

  /** Separator i is exactly the smallest key under child i + 1. */
  ghost predicate Exact(seps: seq<Key>, kids: seq<Tree>)
    requires |kids| == |seps| + 1
  {
    forall i :: 0 <= i < |seps| ==> Bounds(seps[i], kids[i + 1])
  }

  ghost predicate Bounds(sep: Key, kid: Tree) {
    Entries(kid) != [] && Entries(kid)[0].key == sep
  }

  /** t has height h everywhere, its top page holds at least lo keys and no more than its capacity,
      every page below holds at least its minimum, and every separator is exact. */
  ghost predicate Fits(c: Caps, t: Tree, h: nat, lo: nat)
    decreases t, 1
  {
    && lo <= Count(t)
    && match t
       case Leaf(_, es) => h == 0 && |es| <= c.leaf
       case Node(_, seps, kids) =>
         h > 0 && |seps| <= c.internal && |kids| == |seps| + 1 && Exact(seps, kids) && AllGood(c, kids, h - 1)
  }

  ghost predicate AllGood(c: Caps, ts: seq<Tree>, h: nat)
    decreases ts, 0
  {
    forall t :: t in ts ==> Fits(c, t, h, Minimum(c, h))
  }

  ghost predicate Good(c: Caps, t: Tree, h: nat) {
    Fits(c, t, h, Minimum(c, h))
  }

  ghost predicate Sorted(es: seq<Entry>) {
    forall i, j :: 0 <= i < j < |es| ==> es[i].key < es[j].key
  }
}
