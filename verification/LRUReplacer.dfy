/** The order in which evictable frames are given up: least recently used first. */
module LRUReplacers {
  import opened Sets
  import opened Status

  function Without(s: seq<nat>, x: nat): (r: seq<nat>)
    ensures forall y :: y in r <==> y in s && y != x
    ensures x !in s ==> r == s
    ensures NoDuplicates(s) ==> NoDuplicates(r)
  {
    if s == [] then []
    else
      var rest := Without(s[1..], x);
      assert s == [s[0]] + s[1..];
      if s[0] == x then rest
      else
        assert NoDuplicates(s) ==> forall j :: 0 <= j < |rest| ==> rest[j] in s[1..] && rest[j] != s[0];
        [s[0]] + rest
  }

  /** Removing the last element of a list without duplicates shortens it by one. */
  lemma {:induction false} WithoutLast(s: seq<nat>)
    requires s != [] && NoDuplicates(s)
    ensures Without(s, s[|s| - 1]) == s[..|s| - 1]
  {
    if |s| > 1 {
      WithoutLast(s[1..]);
      assert s[1..][..|s| - 2] == s[1..|s| - 1];
    }
  }

  class LRUReplacer {
    const capacity: nat
    /** Most recently used first. */
    var lru: seq<nat>
    /** The frames that have a position in lru. */
    var positions: set<nat>

    ghost predicate Valid()
      reads this
    {
      NoDuplicates(lru) && (forall f :: f in positions <==> f in lru) && (forall f :: f in positions ==> f < capacity)
    }

    constructor (capacity: nat)
      ensures Valid() && this.capacity == capacity && lru == []
    {
      this.capacity, lru, positions := capacity, [], {};
    }

    /** Takes the least recently used frame; NotFound only when no frame is evictable. */
    method Victim() returns (r: Result<nat>)
      requires Valid()
      modifies this
      ensures Valid() && r.Ok? == (old(lru) != [])
      ensures r.Ok? ==>
        old(lru) == lru + [r.value] && positions == old(positions) - {r.value} && r.value in old(positions)
      ensures r.Err? ==> r.code == NotFound && unchanged(this)
    {
      if lru == [] {
        return Err(NotFound);
      }
      var last := |lru| - 1;
      var victim := lru[last];
      assert lru == lru[..last] + [victim];
      assert forall f :: f in lru[..last] ==> f in lru;
      lru := lru[..last];
      positions := positions - {victim};
      r := Ok(victim);
    }

    method MarkEvictable(f: nat) returns (r: Outcome)
      requires Valid()
      modifies this
      ensures Valid() && r == (if f < capacity then Done else Failed(InvalidArgument))
      ensures positions == old(positions) + (if f < capacity then {f} else {})
      ensures lru == if f < capacity && f !in old(positions) then [f] + old(lru) else old(lru)
    {
      if f >= capacity {
        return Failed(InvalidArgument);
      }
      if f in positions {
        return Done;
      }
      lru := [f] + lru;
      positions := positions + {f};
      r := Done;
    }

    method MarkNonEvictable(f: nat) returns (r: Outcome)
      requires Valid()
      modifies this
      ensures Valid() && r == (if f < capacity then Done else Failed(InvalidArgument))
      ensures positions == old(positions) - {f} && lru == Without(old(lru), f)
    {
      if f >= capacity {
        return Failed(InvalidArgument);
      }
      if f !in positions {
        return Done;
      }
      lru := Without(lru, f);
      positions := positions - {f};
      r := Done;
    }
  }
}
