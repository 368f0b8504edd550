/** B+ tree pages as typed views, the edits of one page, and what it means for a page store to
    represent a ghost tree. */
module BTreePages {
  import opened PageIds
  import opened Status
  import opened BTreeShape

  /** In an internal page kids[0] is the header's first child and kids[i + 1] is entry i's right child. */
  datatype Page =
    | LeafPage(isRoot: bool, parent: PageId, next: PageId, prev: PageId, entries: seq<Entry>)
    | InternalPage(isRoot: bool, parent: PageId, seps: seq<Key>, kids: seq<PageId>)

  type Pages = map<PageId, Page>

  // ---- Edits of one page -------------------------------------------------------------------

  /** insert_entry of a leaf page, with the checks it makes. */
  function LeafInsertEntry(c: Caps, page: Page, i: nat, e: Entry): (r: Result<Page>)
    requires page.LeafPage?
  {
    if i > |page.entries| then Err(InvalidArgument)
    else if |page.entries| >= c.leaf then Err(InvalidArgument)
    else if i > 0 && e.key < page.entries[i - 1].key then Err(InvalidArgument)
    else if i < |page.entries| && page.entries[i].key < e.key then Err(InvalidArgument)
    else Ok(page.(entries := page.entries[..i] + [e] + page.entries[i..]))
  }

  function LeafEraseEntry(page: Page, i: nat): (r: Result<Page>)
    requires page.LeafPage?
  {
    if i >= |page.entries| then Err(InvalidArgument)
    else Ok(page.(entries := page.entries[..i] + page.entries[i + 1..]))
  }

  /** insert_entry of an internal page: separator i and the child to its right. */
  function InternalInsertEntry(c: Caps, page: Page, i: nat, sep: Key, right: PageId): (r: Result<Page>)
    requires page.InternalPage? && |page.kids| == |page.seps| + 1
  {
    if i > |page.seps| then Err(InvalidArgument)
    else if |page.seps| >= c.internal then Err(InvalidArgument)
    else if i > 0 && sep < page.seps[i - 1] then Err(InvalidArgument)
    else if i < |page.seps| && page.seps[i] < sep then Err(InvalidArgument)
    else Ok(page.(seps := page.seps[..i] + [sep] + page.seps[i..],
                  kids := page.kids[..i + 1] + [right] + page.kids[i + 1..]))
  }

  function InternalEraseEntry(page: Page, i: nat): (r: Result<Page>)
    requires page.InternalPage? && |page.kids| == |page.seps| + 1
  {
    if i >= |page.seps| then Err(InvalidArgument)
    else Ok(page.(seps := page.seps[..i] + page.seps[i + 1..],
                  kids := page.kids[..i + 1] + page.kids[i + 2..]))
  }

  function InternalSetKeyAt(page: Page, i: nat, sep: Key): (r: Result<Page>)
    requires page.InternalPage?
  {
    if i >= |page.seps| then Err(InvalidArgument) else Ok(page.(seps := page.seps[i := sep]))
  }

  /** set_parent_page_id and set_root on a page of either kind. */
  function WithHeader(page: Page, parent: PageId, isRoot: bool): (r: Page)
    ensures r.parent == parent && r.isRoot == isRoot && r.LeafPage? == page.LeafPage?
  {
    match page
    case LeafPage(_, _, next, prev, es) => LeafPage(isRoot, parent, next, prev, es)
    case InternalPage(_, _, seps, kids) => InternalPage(isRoot, parent, seps, kids)
  }

  // ---- Pages that represent a tree ---------------------------------------------------------

  /** The pages from t.id down are exactly t: contents, separators, child ids, parent ids, root flags. */
  ghost predicate Rep(p: Pages, t: Tree, parent: PageId, root: bool)
    decreases t, 1
  {
    && t.id in p && p[t.id].parent == parent && p[t.id].isRoot == root
    && match t
       case Leaf(id, es) => p[id].LeafPage? && p[id].entries == es
       case Node(id, seps, kids) =>
         p[id].InternalPage? && p[id].seps == seps && p[id].kids == KidIds(kids) && RepAll(p, kids, id)
  }

  ghost predicate RepAll(p: Pages, ts: seq<Tree>, parent: PageId)
    decreases ts, 0
  {
    forall t :: t in ts ==> Rep(p, t, parent, false)
  }

  /** The leaf links of p list exactly ls, forwards and backwards. */
  ghost predicate Chain(p: Pages, ls: seq<PageId>) {
    forall i :: 0 <= i < |ls| ==> Linked(p, ls, i)
  }

  ghost predicate Linked(p: Pages, ls: seq<PageId>, i: nat)
    requires i < |ls|
  {
    && ls[i] in p && p[ls[i]].LeafPage?
    && p[ls[i]].next == (if i + 1 < |ls| then ls[i + 1] else INVALID_PAGE_ID)
    && p[ls[i]].prev == (if i > 0 then ls[i - 1] else INVALID_PAGE_ID)
  }

  /** Pages outside s are untouched, except that the first page of post may have a new back link. */
  ghost predicate Kept(p: Pages, q: Pages, s: set<PageId>, post: seq<PageId>) {
    forall id :: id in p && id !in s ==>
      id in q && (if post != [] && id == post[0] then SameButPrev(p[id], q[id]) else q[id] == p[id])
  }

  ghost predicate SameButPrev(a: Page, b: Page) {
    if a.LeafPage? then b.LeafPage? && b == a.(prev := b.prev) else a == b
  }

  // ---- Framing -----------------------------------------------------------------------------

  lemma {:induction false} RepKept(p: Pages, q: Pages, t: Tree, parent: PageId, root: bool, s: set<PageId>,
                                   post: seq<PageId>)
    requires Rep(p, t, parent, root) && Kept(p, q, s, post) && Ids(t) !! s
    ensures Rep(q, t, parent, root)
    decreases t
  {
    if t.Node? {
      forall k | k in t.kids ensures Rep(q, k, t.id, false) {
        KidIdsWithin(t.kids, k);
        RepKept(p, q, k, t.id, false, s, post);
      }
    }
  }

  lemma {:induction false} KidIdsWithin(ts: seq<Tree>, t: Tree)
    requires t in ts
    ensures Ids(t) <= AllIds(ts)
    decreases ts
  {
    if ts[0] != t {
      KidIdsWithin(ts[1..], t);
    }
  }

  lemma RepAllKept(p: Pages, q: Pages, ts: seq<Tree>, parent: PageId, s: set<PageId>, post: seq<PageId>)
    requires RepAll(p, ts, parent) && Kept(p, q, s, post) && AllIds(ts) !! s
    ensures RepAll(q, ts, parent)
  {
    forall t | t in ts ensures Rep(q, t, parent, false) {
      KidIdsWithin(ts, t);
      RepKept(p, q, t, parent, false, s, post);
    }
  }

  lemma {:induction false} IdsStored(p: Pages, t: Tree, parent: PageId, root: bool)
    requires Rep(p, t, parent, root)
    ensures Ids(t) <= p.Keys
    decreases t, 1
  {
    if t.Node? {
      AllIdsStored(p, t.kids, t.id);
    }
  }

  lemma {:induction false} AllIdsStored(p: Pages, ts: seq<Tree>, parent: PageId)
    requires RepAll(p, ts, parent)
    ensures AllIds(ts) <= p.Keys
    decreases ts, 0
  {
    if ts != [] {
      IdsStored(p, ts[0], parent, false);
      AllIdsStored(p, ts[1..], parent);
    }
  }

  /** Giving the top page of t another parent, root flag or link changes nothing below it. */
  lemma RepReparent(p: Pages, q: Pages, t: Tree, parent: PageId, root: bool, s: set<PageId>, parent': PageId,
                    root': bool)
    requires Rep(p, t, parent, root) && Distinct(t)
    requires Kept(p, q, s, []) && s * Ids(t) <= {t.id}
    requires t.id in q && q[t.id].parent == parent' && q[t.id].isRoot == root'
    requires p[t.id].LeafPage? ==> q[t.id].LeafPage? && q[t.id].entries == p[t.id].entries
    requires p[t.id].InternalPage? ==>
      q[t.id].InternalPage? && q[t.id].seps == p[t.id].seps && q[t.id].kids == p[t.id].kids
    ensures Rep(q, t, parent', root')
  {
    if t.Node? {
      RepAllKept(p, q, t.kids, t.id, s, []);
    }
  }

  // ---- Chains ------------------------------------------------------------------------------

  /** A doubly linked chain cannot pass through a page twice. */
  lemma {:induction false} ChainNoDup(p: Pages, ls: seq<PageId>, i: nat, j: nat)
    requires Chain(p, ls) && INVALID_PAGE_ID !in p && i < j < |ls|
    ensures ls[i] != ls[j]
    decreases i
  {
    assert Linked(p, ls, i) && Linked(p, ls, j) && Linked(p, ls, j - 1);
    if i > 0 {
      ChainNoDup(p, ls, i - 1, j - 1);
    }
  }

  ghost predicate SameLinks(p: Pages, q: Pages, x: PageId) {
    x in p && p[x].LeafPage? ==> x in q && q[x].LeafPage? && q[x].next == p[x].next && q[x].prev == p[x].prev
  }

  lemma ChainSame(p: Pages, q: Pages, ls: seq<PageId>)
    requires Chain(p, ls)
    requires forall i :: 0 <= i < |ls| ==> SameLinks(p, q, ls[i])
    ensures Chain(q, ls)
  {
    forall i | 0 <= i < |ls| ensures Linked(q, ls, i) {
      assert Linked(p, ls, i) && SameLinks(p, q, ls[i]);
    }
  }

  /** What leaf page id links to. */
  lemma ChainAt(p: Pages, pre: seq<PageId>, id: PageId, post: seq<PageId>)
    requires Chain(p, pre + [id] + post)
    ensures id in p && p[id].LeafPage?
    ensures p[id].next == (if post == [] then INVALID_PAGE_ID else post[0])
    ensures p[id].prev == (if pre == [] then INVALID_PAGE_ID else pre[|pre| - 1])
    ensures post != [] ==> post[0] in p && p[post[0]].LeafPage?
  {
    var ls := pre + [id] + post;
    assert Linked(p, ls, |pre|) && ls[|pre|] == id;
    if post != [] {
      assert Linked(p, ls, |pre| + 1) && ls[|pre| + 1] == post[0];
    }
    if pre != [] {
      assert ls[|pre| - 1] == pre[|pre| - 1];
    }
  }

  /** Linking a new leaf in after id. */
  lemma SplitChain(p: Pages, q: Pages, pre: seq<PageId>, id: PageId, right: PageId, post: seq<PageId>)
    requires Chain(p, pre + [id] + post) && INVALID_PAGE_ID !in p && right !in p
    requires id in q && q[id].LeafPage? && q[id].next == right && id in p && p[id].LeafPage? && q[id].prev == p[id].prev
    requires right in q && q[right].LeafPage? && q[right].next == p[id].next && q[right].prev == id
    requires Kept(p, q, {id}, post)
    requires post != [] ==> post[0] in q && q[post[0]].LeafPage? && q[post[0]].prev == right
    ensures Chain(q, pre + [id, right] + post)
  {
    var ls, ms := pre + [id] + post, pre + [id, right] + post;
    var n := |pre|;
    ChainAt(p, pre, id, post);
    forall i | 0 <= i < |ms| ensures Linked(q, ms, i) {
      if i < n {
        assert Linked(p, ls, i);
        ChainNoDup(p, ls, i, n);
        if post != [] { ChainNoDup(p, ls, i, n + 1); }
      } else if i > n + 1 {
        assert Linked(p, ls, i - 1);
        ChainNoDup(p, ls, n, i - 1);
        if i - 1 > n + 1 { ChainNoDup(p, ls, n + 1, i - 1); }
      }
    }
  }

  /** Unlinking leaf b, which follows a. */
  lemma MergeChain(p: Pages, q: Pages, pre: seq<PageId>, a: PageId, b: PageId, post: seq<PageId>)
    requires Chain(p, pre + [a, b] + post) && INVALID_PAGE_ID !in p
    requires b in p && p[b].LeafPage? && a in p && p[a].LeafPage?
    requires a in q && q[a].LeafPage? && q[a].next == p[b].next && q[a].prev == p[a].prev
    requires Kept(p, q, {a}, post)
    requires post != [] ==> post[0] in q && q[post[0]].LeafPage? && q[post[0]].prev == a
    ensures Chain(q, pre + [a] + post)
  {
    var ls, ms := pre + [a, b] + post, pre + [a] + post;
    var n := |pre|;
    assert Linked(p, ls, n) && Linked(p, ls, n + 1);
    forall i | 0 <= i < |ms| ensures Linked(q, ms, i) {
      if i < n {
        assert Linked(p, ls, i);
        ChainNoDup(p, ls, i, n);
        if post != [] { ChainNoDup(p, ls, i, n + 2); }
      } else if i > n {
        assert Linked(p, ls, i + 1);
        ChainNoDup(p, ls, n, i + 1);
        if i + 1 > n + 2 { ChainNoDup(p, ls, n + 2, i + 1); }
      }
    }
  }
}
