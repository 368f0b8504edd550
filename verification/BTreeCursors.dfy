/** The cursor that walks the leaf chain up to an exclusive bound. */
module BTreeCursors {
  import opened PageIds
  import opened Status
  import opened BTreeShape
  import opened BTreePages
  import opened BTreeScan
  import opened BTreeStore

  /** ls are leaves that link to one another in order, the last one to nothing. */
  ghost predicate Onward(p: Pages, ls: seq<PageId>) {
    forall i :: 0 <= i < |ls| ==> OnwardAt(p, ls, i)
  }

  ghost predicate OnwardAt(p: Pages, ls: seq<PageId>, i: nat)
    requires i < |ls|
  {
    IsLeaf(p, ls[i]) && p[ls[i]].next == if i + 1 < |ls| then ls[i + 1] else INVALID_PAGE_ID
  }

  lemma OnwardLeaves(p: Pages, ls: seq<PageId>)
    requires Onward(p, ls)
    ensures forall i :: 0 <= i < |ls| ==> IsLeaf(p, ls[i])
    ensures ls != [] ==> Onward(p, ls[1..])
  {
    forall i | 0 <= i < |ls| ensures IsLeaf(p, ls[i]) {
      assert OnwardAt(p, ls, i);
    }
    if ls != [] {
      forall i | 0 <= i < |ls| - 1 ensures OnwardAt(p, ls[1..], i) {
        assert OnwardAt(p, ls, i + 1);
      }
    }
  }

  /** The leaves ls hold exactly the entries es. */
  ghost predicate Lists(p: Pages, ls: seq<PageId>, es: seq<Entry>) {
    (forall i :: 0 <= i < |ls| ==> IsLeaf(p, ls[i])) && ChainEntries(p, ls) == es
  }

  /** What next() returned, as a sequence. */
  ghost function Held(e: Option<Entry>): seq<Entry> {
    if e.Some? then [e.value] else []
  }

  lemma Headed<T>(s: seq<T>)
    ensures s != [] ==> s == [s[0]] + s[1..]
  {
  }

  class BTreeCursor {
    const store: PageStore
    const upper: Option<Key>
    var leafId: PageId
    var entryIndex: nat
    ghost var rest: seq<PageId>

    /** rest lists the leaves from the current one on. */
    ghost predicate Valid()
      reads this, store
    {
      && store.Valid() && Onward(store.pages, rest)
      && (leafId == INVALID_PAGE_ID <==> rest == [])
      && (rest != [] ==>
          rest[0] == leafId && IsLeaf(store.pages, leafId) && entryIndex <= |store.pages[leafId].entries|)
    }

    /** The entries that next() has yet to return, in order. */
    ghost function Remaining(): seq<Entry>
      requires Valid()
      reads this, store
    {
      OnwardLeaves(store.pages, rest);
      if rest == [] then [] else UpTo(ChainEntries(store.pages, rest)[entryIndex..], upper)
    }

    constructor (store: PageStore, leafId: PageId, entryIndex: nat, upper: Option<Key>, ghost rest: seq<PageId>)
      requires store.Valid() && Onward(store.pages, rest) && rest != [] && rest[0] == leafId &&
        IsLeaf(store.pages, leafId)
      requires entryIndex <= |store.pages[leafId].entries|
      ensures Valid() && this.store == store && this.upper == upper
      ensures this.leafId == leafId && this.entryIndex == entryIndex && this.rest == rest
    {
      this.store, this.leafId, this.entryIndex, this.upper, this.rest := store, leafId, entryIndex, upper, rest;
    }

    /** Returns the next entry in range, or nothing once the range is exhausted. */
    method Next() returns (r: Option<Entry>)
      requires Valid()
      modifies this
      ensures Valid()
      ensures r == if old(Remaining()) == [] then None else Some(old(Remaining())[0])
      ensures Remaining() == if old(Remaining()) == [] then [] else old(Remaining())[1..]
    {
      while leafId != INVALID_PAGE_ID
        invariant Valid() && Remaining() == old(Remaining())
        decreases |rest|
      {
        OnwardLeaves(store.pages, rest);
        assert OnwardAt(store.pages, rest, 0);
        var page := store.pages[leafId];
        ghost var chain := ChainEntries(store.pages, rest);
        assert chain == page.entries + ChainEntries(store.pages, rest[1..]);
        if entryIndex < |page.entries| {
          var e := page.entries[entryIndex];
          assert chain[entryIndex] == e && chain[entryIndex..][1..] == chain[entryIndex + 1..];
          if upper.Some? && e.key >= upper.value {
            leafId, rest := INVALID_PAGE_ID, [];
            return None;
          }
          entryIndex := entryIndex + 1;
          return Some(e);
        }
        assert chain[entryIndex..] == ChainEntries(store.pages, rest[1..]);
        leafId, entryIndex, rest := page.next, 0, rest[1..];
        assert rest != [] ==> OnwardAt(store.pages, rest, 0);
      }
      r := None;
    }

    /** Calling next() until it returns nothing terminates and yields exactly the remaining entries. */
    method Consume() returns (es: seq<Entry>)
      requires Valid()
      modifies this
      ensures Valid() && es == old(Remaining()) && Remaining() == []
    {
      ghost var all := Remaining();
      es := [];
      var e := Next();
      Headed(all);
      while e.Some?
        invariant Valid() && all == es + Held(e) + Remaining()
        invariant e.None? ==> Remaining() == []
        decreases |Remaining()| + |Held(e)|
      {
        ghost var before := Remaining();
        es := es + [e.value];
        e := Next();
        Headed(before);
        Assoc(es, Held(e), Remaining());
      }
    }
  }
}
