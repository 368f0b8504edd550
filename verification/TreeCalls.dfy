/** Calls into a B+ tree from the layers above it, where a tree is the finite map it refines. A call can
    also fail in the middle, with the tree in any state; only rolling the transaction back helps then. */
module TreeCalls {
  import opened Status

  method Insert<V>(tree: map<int, V>, k: int, v: V) returns (r: Outcome, next: map<int, V>)
    ensures r.Done? ==> k !in tree && next == tree[k := v]
    ensures r.Failed? ==> r.code == IoError || (r.code == ConstraintViolation && k in tree && next == tree)
  {
    var intact: bool := *;
    if !intact {
      next := *;
      return Failed(IoError), next;
    }
    if k in tree {
      return Failed(ConstraintViolation), tree;
    }
    return Done, tree[k := v];
  }

  method Update<V>(tree: map<int, V>, k: int, v: V) returns (r: Outcome, next: map<int, V>)
    ensures r.Done? ==> k in tree && next == tree[k := v]
    ensures r.Failed? ==> r.code == IoError || (r.code == NotFound && k !in tree && next == tree)
  {
    var intact: bool := *;
    if !intact {
      next := *;
      return Failed(IoError), next;
    }
    if k !in tree {
      return Failed(NotFound), tree;
    }
    return Done, tree[k := v];
  }

  method Erase<V>(tree: map<int, V>, k: int) returns (r: Outcome, next: map<int, V>)
    ensures r.Done? ==> k in tree && next == tree - {k}
    ensures r.Failed? ==> r.code == IoError || (r.code == NotFound && k !in tree && next == tree)
  {
    var intact: bool := *;
    if !intact {
      next := *;
      return Failed(IoError), next;
    }
    if k !in tree {
      return Failed(NotFound), tree;
    }
    return Done, tree - {k};
  }
}
