/** Facts about the children of one internal page: routing by separators, and what splitting,
    borrowing and merging children do to the page's separators. */
module BTreeNodes {
  import opened BTreeShape

  /** Separators and children of a well-formed internal page whose children have height kh. */
  ghost predicate Body(c: Caps, seps: seq<Key>, kids: seq<Tree>, kh: nat) {
    |kids| == |seps| + 1 && Exact(seps, kids) && AllGood(c, kids, kh)
  }

  /** The fewest keys a non-root page holds between losing a key and being rebalanced. */
  ghost function Short(c: Caps, h: nat): nat {
    if Minimum(c, h) == 0 then 0 else Minimum(c, h) - 1
  }

  /** A page whose child ci has just lost a key: that child may be one key short and the separator
      before it may be stale. */
  ghost predicate ShortBody(c: Caps, seps: seq<Key>, kids: seq<Tree>, kh: nat, ci: nat) {
    && |kids| == |seps| + 1
    && ci < |kids|
    && (forall i :: 0 <= i < |seps| && i + 1 != ci ==> Bounds(seps[i], kids[i + 1]))
    && (forall i :: 0 <= i < |kids| && i != ci ==> Good(c, kids[i], kh))
    && Fits(c, kids[ci], kh, Short(c, kh))
  }

  /** Child i is the one to search for k. */
  ghost predicate Routed(seps: seq<Key>, k: Key, i: nat) {
    && i <= |seps|
    && (forall j :: 0 <= j < i ==> seps[j] <= k)
    && (forall j :: i <= j < |seps| ==> k < seps[j])
  }

  ghost predicate Increasing(seps: seq<Key>) {
    forall i, j :: 0 <= i < j < |seps| ==> seps[i] < seps[j]
  }

  lemma MinimumPositive(c: Caps, h: nat)
    requires c.Valid()
    ensures Minimum(c, h) >= 1
  {
  }

  /** Every page with a key, and every internal page, has a smallest key; an internal page's is its
      first child's. */
  lemma {:induction false} FirstEntry(c: Caps, t: Tree, h: nat, lo: nat)
    requires c.Valid() && Fits(c, t, h, lo) && (lo >= 1 || h > 0)
    ensures Entries(t) != [] && Leaves(t) != []
    ensures h > 0 ==> Entries(t.kids[0]) != [] && Entries(t)[0] == Entries(t.kids[0])[0]
    decreases t
  {
    if h > 0 {
      MinimumPositive(c, h - 1);
      var kid := t.kids[0];
      assert kid in t.kids;
      FirstEntry(c, kid, h - 1, Minimum(c, h - 1));
    }
  }

  lemma Pieces<T>(s: seq<T>, i: nat)
    requires i < |s|
    ensures s == s[..i] + [s[i]] + s[i + 1..]
  {
  }

  lemma Around(kids: seq<Tree>, i: nat)
    requires i < |kids|
    ensures AllEntries(kids) == AllEntries(kids[..i]) + Entries(kids[i]) + AllEntries(kids[i + 1..])
    ensures AllLeaves(kids) == AllLeaves(kids[..i]) + Leaves(kids[i]) + AllLeaves(kids[i + 1..])
  {
    var a, m, b := kids[..i], [kids[i]], kids[i + 1..];
    Pieces(kids, i);
    Concat3(a, m, b);
    Single(kids[i]);
  }

  lemma AroundIds(kids: seq<Tree>, i: nat)
    requires i < |kids|
    ensures AllIds(kids) == AllIds(kids[..i]) + Ids(kids[i]) + AllIds(kids[i + 1..])
    ensures Apart(kids) ==> Apart(kids[..i]) && Distinct(kids[i]) && Apart(kids[i + 1..])
    ensures Apart(kids) ==>
      AllIds(kids[..i]) !! Ids(kids[i]) && AllIds(kids[..i]) !! AllIds(kids[i + 1..]) &&
        Ids(kids[i]) !! AllIds(kids[i + 1..])
  {
    var a, m, b := kids[..i], [kids[i]], kids[i + 1..];
    Pieces(kids, i);
    Concat3(a, m, b);
    Single(kids[i]);
  }

  lemma FirstOfMany(ts: seq<Tree>)
    requires ts != [] && Entries(ts[0]) != []
    ensures AllEntries(ts) != [] && AllEntries(ts)[0] == Entries(ts[0])[0]
  {
  }

  /** Routing by separators is exact: whatever lies left of the chosen child is below k, whatever
      lies right of it is above k. */
  lemma Routing(seps: seq<Key>, kids: seq<Tree>, k: Key, i: nat)
    requires |kids| == |seps| + 1 && Exact(seps, kids)
    requires Sorted(AllEntries(kids)) && Routed(seps, k, i)
    ensures forall e :: e in AllEntries(kids[..i]) ==> e.key < k
    ensures forall e :: e in AllEntries(kids[i + 1..]) ==> k < e.key
    ensures i > 0 ==> Entries(kids[i]) != [] && Entries(kids[i])[0].key <= k
  {
    Around(kids, i);
    var a, m, b := AllEntries(kids[..i]), Entries(kids[i]), AllEntries(kids[i + 1..]);
    var s := a + m + b;
    if i > 0 {
      assert Bounds(seps[i - 1], kids[i]);
      forall e | e in a ensures e.key < k {
        var j :| 0 <= j < |a| && a[j] == e;
        assert s[j] == e && s[|a|] == m[0];
      }
    } else {
      assert kids[..i] == [];
    }
    if i < |seps| {
      assert Bounds(seps[i], kids[i + 1]);
      FirstOfMany(kids[i + 1..]);
      forall e | e in b ensures k < e.key {
        var j :| 0 <= j < |b| && b[j] == e;
        assert s[|a| + |m|] == b[0] && s[|a| + |m| + j] == b[j];
      }
    } else {
      assert kids[i + 1..] == [];
    }
  }

  /** Separators are strictly increasing. */
  lemma SepsSorted(seps: seq<Key>, kids: seq<Tree>, i: nat, j: nat)
    requires |kids| == |seps| + 1 && Exact(seps, kids) && Sorted(AllEntries(kids))
    requires i < j < |seps|
    ensures seps[i] < seps[j]
  {
    assert Bounds(seps[i], kids[i + 1]) && Bounds(seps[j], kids[j + 1]);
    Around(kids, j + 1);
    Around(kids[..j + 1], i + 1);
    var a := AllEntries(kids[..j + 1][..i + 1]);
    var s := AllEntries(kids);
    assert s[|a|] == Entries(kids[i + 1])[0];
    assert s[|AllEntries(kids[..j + 1])|] == Entries(kids[j + 1])[0];
  }

  // ---- Insert ------------------------------------------------------------------------------

  lemma ReplaceKid(c: Caps, seps: seq<Key>, kids: seq<Tree>, kh: nat, i: nat, t: Tree)
    requires Body(c, seps, kids, kh) && i < |kids|
    requires Good(c, t, kh) && (i > 0 ==> Bounds(seps[i - 1], t))
    ensures Body(c, seps, kids[..i] + [t] + kids[i + 1..], kh)
  {
    var ks := kids[..i] + [t] + kids[i + 1..];
    forall j | 0 <= j < |seps| ensures Bounds(seps[j], ks[j + 1]) {
      assert Bounds(seps[j], kids[j + 1]);
    }
  }

  lemma SplitKid(c: Caps, seps: seq<Key>, kids: seq<Tree>, kh: nat, i: nat, t: Tree, u: Tree, sep: Key)
    requires Body(c, seps, kids, kh) && i < |kids|
    requires Good(c, t, kh) && (i > 0 ==> Bounds(seps[i - 1], t))
    requires Good(c, u, kh) && Bounds(sep, u)
    ensures Body(c, seps[..i] + [sep] + seps[i..], kids[..i] + [t, u] + kids[i + 1..], kh)
  {
    var ss := seps[..i] + [sep] + seps[i..];
    var ks := kids[..i] + [t, u] + kids[i + 1..];
    forall j | 0 <= j < |ss| ensures Bounds(ss[j], ks[j + 1]) {
      if j < i {
        assert Bounds(seps[j], kids[j + 1]);
      } else if j > i {
        assert Bounds(seps[j - 1], kids[j]);
      }
    }
  }

  /** Cutting an internal page at separator m: the halves are well formed and separator m is exactly
      the smallest key of the right half. */
  lemma CutBody(c: Caps, seps: seq<Key>, kids: seq<Tree>, kh: nat, m: nat)
    requires c.Valid() && Body(c, seps, kids, kh) && m < |seps|
    ensures Body(c, seps[..m], kids[..m + 1], kh)
    ensures Body(c, seps[m + 1..], kids[m + 1..], kh)
    ensures AllEntries(kids) == AllEntries(kids[..m + 1]) + AllEntries(kids[m + 1..])
    ensures AllLeaves(kids) == AllLeaves(kids[..m + 1]) + AllLeaves(kids[m + 1..])
    ensures AllEntries(kids[m + 1..]) != [] && AllEntries(kids[m + 1..])[0].key == seps[m]
    ensures AllIds(kids) == AllIds(kids[..m + 1]) + AllIds(kids[m + 1..])
    ensures Apart(kids) ==>
      Apart(kids[..m + 1]) && Apart(kids[m + 1..]) && AllIds(kids[..m + 1]) !! AllIds(kids[m + 1..])
  {
    assert kids == kids[..m + 1] + kids[m + 1..];
    Concat(kids[..m + 1], kids[m + 1..]);
    ApartConcat(kids[..m + 1], kids[m + 1..]);
    forall j | 0 <= j < m ensures Bounds(seps[..m][j], kids[..m + 1][j + 1]) {
      assert Bounds(seps[j], kids[j + 1]);
    }
    var ss, ks := seps[m + 1..], kids[m + 1..];
    forall j | 0 <= j < |ss| ensures Bounds(ss[j], ks[j + 1]) {
      assert Bounds(seps[j + m + 1], kids[j + m + 2]);
    }
    assert Bounds(seps[m], kids[m + 1]);
    FirstOfMany(kids[m + 1..]);
  }

  // ---- Erase -------------------------------------------------------------------------------

  /** After a key has moved between children j and j + 1 (child ci, the short one, is one of them),
      refreshing separator j, and separator j - 1 when the short child is j, makes the page well formed. */
  lemma BorrowBody(c: Caps, seps: seq<Key>, kids: seq<Tree>, kh: nat, ci: nat, j: nat, l: Tree, r: Tree, ss: seq<Key>)
    requires ShortBody(c, seps, kids, kh, ci)
    requires j + 1 < |kids| && (ci == j || ci == j + 1)
    requires Good(c, l, kh) && Good(c, r, kh)
    requires |ss| == |seps| && Bounds(ss[j], r) && (j > 0 ==> Bounds(ss[j - 1], l))
    requires forall i :: 0 <= i < |seps| && i != j && i + 1 != j ==> ss[i] == seps[i]
    ensures Body(c, ss, kids[..j] + [l, r] + kids[j + 2..], kh)
  {
    var ks := kids[..j] + [l, r] + kids[j + 2..];
    forall i | 0 <= i < |ss| ensures Bounds(ss[i], ks[i + 1]) {
      if i != j && i + 1 != j {
        assert Bounds(seps[i], kids[i + 1]);
      }
    }
  }

  /** Merging children j and j + 1 and dropping separator j makes the page well formed; a stale
      separator can only be the one that is dropped. */
  lemma MergeBody(c: Caps, seps: seq<Key>, kids: seq<Tree>, kh: nat, ci: nat, j: nat, m: Tree)
    requires ShortBody(c, seps, kids, kh, ci)
    requires j + 1 < |kids| && (ci == j + 1 || (ci == j && j == 0))
    requires Good(c, m, kh) && (j > 0 ==> Bounds(seps[j - 1], m))
    ensures Body(c, seps[..j] + seps[j + 1..], kids[..j] + [m] + kids[j + 2..], kh)
  {
    var ks := kids[..j] + [m] + kids[j + 2..];
    var ss := seps[..j] + seps[j + 1..];
    forall i | 0 <= i < |ss| ensures Bounds(ss[i], ks[i + 1]) {
      if i + 1 < j {
        assert Bounds(seps[i], kids[i + 1]);
      } else if i >= j {
        assert Bounds(seps[i + 1], kids[i + 2]);
      }
    }
  }

  /** Once child ci has its minimum again, refreshing the separator before it completes the page. */
  lemma RefreshedBody(c: Caps, seps: seq<Key>, kids: seq<Tree>, kh: nat, ci: nat, ss: seq<Key>)
    requires ShortBody(c, seps, kids, kh, ci) && Good(c, kids[ci], kh)
    requires |ss| == |seps| && (ci > 0 ==> Bounds(ss[ci - 1], kids[ci]))
    requires forall i :: 0 <= i < |seps| && i + 1 != ci ==> ss[i] == seps[i]
    ensures Body(c, ss, kids, kh)
  {
    forall i | 0 <= i < |ss| ensures Bounds(ss[i], kids[i + 1]) {
      if i + 1 != ci {
        assert Bounds(seps[i], kids[i + 1]);
      }
    }
  }

  /** Replacing child ci by one that has lost a key. */
  lemma ShortenKid(c: Caps, seps: seq<Key>, kids: seq<Tree>, kh: nat, ci: nat, t: Tree)
    requires Body(c, seps, kids, kh) && ci < |kids|
    requires Fits(c, t, kh, Short(c, kh))
    ensures ShortBody(c, seps, kids[..ci] + [t] + kids[ci + 1..], kh, ci)
  {
    var ks := kids[..ci] + [t] + kids[ci + 1..];
    forall i | 0 <= i < |seps| && i + 1 != ci ensures Bounds(seps[i], ks[i + 1]) {
      assert Bounds(seps[i], kids[i + 1]);
    }
  }
}
