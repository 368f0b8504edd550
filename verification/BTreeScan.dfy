/** Leaf chains as entry sequences, key ranges, and the cursor that walks them. */
module BTreeScan {
  import opened PageIds
  import opened Status
  import opened BTreeShape
  import opened BTreePages

  /** The entries of the listed leaf pages, in order. */
  ghost function ChainEntries(p: Pages, ls: seq<PageId>): seq<Entry>
    requires forall i :: 0 <= i < |ls| ==> IsLeaf(p, ls[i])
  {
    if ls == [] then []
    else
      assert IsLeaf(p, ls[0]);
      p[ls[0]].entries + ChainEntries(p, ls[1..])
  }

  ghost predicate IsLeaf(p: Pages, id: PageId) {
    id in p && p[id].LeafPage?
  }

  lemma {:induction false} ChainEntriesConcat(p: Pages, a: seq<PageId>, b: seq<PageId>)
    requires forall i :: 0 <= i < |a| ==> IsLeaf(p, a[i])
    requires forall i :: 0 <= i < |b| ==> IsLeaf(p, b[i])
    ensures forall i :: 0 <= i < |a + b| ==> IsLeaf(p, (a + b)[i])
    ensures ChainEntries(p, a + b) == ChainEntries(p, a) + ChainEntries(p, b)
  {
    if a == [] {
      assert a + b == b;
    } else {
      ChainEntriesConcat(p, a[1..], b);
      assert (a + b)[1..] == a[1..] + b;
    }
  }

  /** Walking the leaf chain of a tree lists the tree's entries. */
  lemma {:induction false} ChainOfTree(p: Pages, t: Tree, parent: PageId, root: bool)
    requires Rep(p, t, parent, root)
    ensures forall i :: 0 <= i < |Leaves(t)| ==> IsLeaf(p, Leaves(t)[i])
    ensures ChainEntries(p, Leaves(t)) == Entries(t)
    decreases t, 1
  {
    if t.Node? {
      ChainOfTrees(p, t.kids, t.id);
    } else {
      assert Leaves(t)[1..] == [];
    }
  }

  lemma {:induction false} ChainOfTrees(p: Pages, ts: seq<Tree>, parent: PageId)
    requires RepAll(p, ts, parent)
    ensures forall i :: 0 <= i < |AllLeaves(ts)| ==> IsLeaf(p, AllLeaves(ts)[i])
    ensures ChainEntries(p, AllLeaves(ts)) == AllEntries(ts)
    decreases ts, 0
  {
    if ts != [] {
      ChainOfTree(p, ts[0], parent, false);
      ChainOfTrees(p, ts[1..], parent);
      ChainEntriesConcat(p, Leaves(ts[0]), AllLeaves(ts[1..]));
    }
  }

  // ---- Ranges ------------------------------------------------------------------------------

  /** lo <= k < hi, where either bound may be missing. */
  predicate InRange(k: Key, lo: Option<Key>, hi: Option<Key>) {
    (lo.Some? ==> lo.value <= k) && (hi.Some? ==> k < hi.value)
  }

  /** The entries with keys in range, in order. */
  function Between(es: seq<Entry>, lo: Option<Key>, hi: Option<Key>): seq<Entry> {
    if es == [] then []
    else (if InRange(es[0].key, lo, hi) then [es[0]] else []) + Between(es[1..], lo, hi)
  }

  /** The entries up to the first one at or above hi. */
  function UpTo(es: seq<Entry>, hi: Option<Key>): seq<Entry> {
    if es == [] || !InRange(es[0].key, None, hi) then [] else [es[0]] + UpTo(es[1..], hi)
  }

  lemma {:induction false} BetweenConcat(a: seq<Entry>, b: seq<Entry>, lo: Option<Key>, hi: Option<Key>)
    ensures Between(a + b, lo, hi) == Between(a, lo, hi) + Between(b, lo, hi)
  {
    if a == [] {
      assert a + b == b;
    } else {
      BetweenConcat(a[1..], b, lo, hi);
      assert (a + b)[1..] == a[1..] + b;
    }
  }

  lemma {:induction false} BetweenNone(es: seq<Entry>, lo: Option<Key>, hi: Option<Key>)
    requires forall e :: e in es ==> !InRange(e.key, lo, hi)
    ensures Between(es, lo, hi) == []
  {
    if es != [] {
      assert es[0] in es;
      BetweenNone(es[1..], lo, hi);
    }
  }

  /** In a sorted sequence that starts at or above lo, the range is the prefix up to hi. */
  lemma {:induction false} UpToIsBetween(es: seq<Entry>, lo: Option<Key>, hi: Option<Key>)
    requires Sorted(es)
    requires forall e :: e in es ==> InRange(e.key, lo, None)
    ensures UpTo(es, hi) == Between(es, lo, hi)
  {
    if es != [] {
      assert es[0] in es;
      if InRange(es[0].key, None, hi) {
        UpToIsBetween(es[1..], lo, hi);
      } else {
        forall e | e in es ensures !InRange(e.key, lo, hi) {
          var i :| 0 <= i < |es| && es[i] == e;
        }
        BetweenNone(es, lo, hi);
      }
    }
  }

  /** Skipping a prefix below lo loses nothing of the range. */
  lemma BetweenFrom(es: seq<Entry>, n: nat, lo: Option<Key>, hi: Option<Key>)
    requires Sorted(es) && n <= |es|
    requires forall i :: 0 <= i < n ==> !InRange(es[i].key, lo, None)
    requires forall i :: n <= i < |es| ==> InRange(es[i].key, lo, None)
    ensures Between(es, lo, hi) == UpTo(es[n..], hi)
  {
    var low, high := es[..n], es[n..];
    assert es == low + high;
    forall e | e in low ensures !InRange(e.key, lo, hi) {
      var i :| 0 <= i < n && low[i] == e;
      assert es[i] == e;
    }
    forall e | e in high ensures InRange(e.key, lo, None) {
      var i :| 0 <= i < |high| && high[i] == e;
      assert es[n + i] == e;
    }
    SortedParts(es, n);
    BetweenConcat(low, high, lo, hi);
    BetweenNone(low, lo, hi);
    UpToIsBetween(high, lo, hi);
  }

  lemma SortedParts(es: seq<Entry>, n: nat)
    requires Sorted(es) && n <= |es|
    ensures Sorted(es[..n]) && Sorted(es[n..])
  {
  }

  /** The range holds exactly the entries with keys in range. */
  lemma {:induction false} BetweenMembers(es: seq<Entry>, lo: Option<Key>, hi: Option<Key>, e: Entry)
    ensures e in Between(es, lo, hi) <==> e in es && InRange(e.key, lo, hi)
  {
    if es != [] {
      BetweenMembers(es[1..], lo, hi, e);
      assert es == [es[0]] + es[1..];
    }
  }

  /** The range lists them in key order, each once. */
  lemma {:induction false} BetweenSorted(es: seq<Entry>, lo: Option<Key>, hi: Option<Key>)
    requires Sorted(es)
    ensures Sorted(Between(es, lo, hi))
  {
    if es != [] {
      BetweenSorted(es[1..], lo, hi);
      var rest := Between(es[1..], lo, hi);
      if InRange(es[0].key, lo, hi) {
        forall j | 0 <= j < |rest| ensures es[0].key < rest[j].key {
          BetweenMembers(es[1..], lo, hi, rest[j]);
          var i :| 0 <= i < |es[1..]| && es[1..][i] == rest[j];
          assert es[i + 1] == rest[j];
        }
        ConsSorted(es[0], rest);
      }
    }
  }

  lemma ConsSorted(e: Entry, es: seq<Entry>)
    requires Sorted(es) && forall j :: 0 <= j < |es| ==> e.key < es[j].key
    ensures Sorted([e] + es)
  {
  }
}
