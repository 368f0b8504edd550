/** Sorted entry sequences, the finite maps they stand for, and the two edits of one entry. */
module BTreeEntries {
  import opened BTreeShape

  /** k is absent and belongs at position pos. */
  ghost predicate Gap(es: seq<Entry>, pos: nat, k: Key) {
    && pos <= |es|
    && (forall j :: 0 <= j < pos ==> es[j].key < k)
    && (forall j :: pos <= j < |es| ==> k < es[j].key)
  }

  /** k is the key at position pos. */
  ghost predicate Hit(es: seq<Entry>, pos: nat, k: Key) {
    pos < |es| && es[pos].key == k
  }

  ghost function Inserted(es: seq<Entry>, pos: nat, e: Entry): seq<Entry>
    requires pos <= |es|
  {
    es[..pos] + [e] + es[pos..]
  }

  ghost function Erased(es: seq<Entry>, pos: nat): seq<Entry>
    requires pos < |es|
  {
    es[..pos] + es[pos + 1..]
  }

  ghost function Replaced(es: seq<Entry>, pos: nat, v: Value): seq<Entry>
    requires pos < |es|
  {
    es[pos := Entry(es[pos].key, v)]
  }

  /** The finite map that a sorted entry sequence stands for. */
  ghost function MapOf(es: seq<Entry>): map<Key, Value> {
    if es == [] then map[] else MapOf(es[..|es| - 1])[es[|es| - 1].key := es[|es| - 1].value]
  }

  // ---- Positions inside a longer sequence --------------------------------------------------

  lemma InsertedInside(a: seq<Entry>, m: seq<Entry>, b: seq<Entry>, pos: nat, e: Entry)
    requires pos <= |m|
    ensures Inserted(a + m + b, |a| + pos, e) == a + Inserted(m, pos, e) + b
  {
    assert (a + m + b)[..|a| + pos] == a + m[..pos];
    assert (a + m + b)[|a| + pos..] == m[pos..] + b;
  }

  lemma ErasedInside(a: seq<Entry>, m: seq<Entry>, b: seq<Entry>, pos: nat)
    requires pos < |m|
    ensures Erased(a + m + b, |a| + pos) == a + Erased(m, pos) + b
  {
    assert (a + m + b)[..|a| + pos] == a + m[..pos];
    assert (a + m + b)[|a| + pos + 1..] == m[pos + 1..] + b;
  }

  lemma SortedInside(a: seq<Entry>, m: seq<Entry>, b: seq<Entry>)
    requires Sorted(a + m + b)
    ensures Sorted(a) && Sorted(m) && Sorted(b)
  {
    var s := a + m + b;
    assert forall i :: 0 <= i < |a| ==> a[i] == s[i];
    assert forall i :: 0 <= i < |m| ==> m[i] == s[|a| + i];
    assert forall i :: 0 <= i < |b| ==> b[i] == s[|a| + |m| + i];
  }

  /** If everything in a is below k and everything in b above it, k's place in a + m + b is its place in m. */
  lemma GapInside(a: seq<Entry>, m: seq<Entry>, b: seq<Entry>, pos: nat, k: Key)
    requires Gap(m, pos, k)
    requires forall e :: e in a ==> e.key < k
    requires forall e :: e in b ==> k < e.key
    ensures Gap(a + m + b, |a| + pos, k)
  {
    var s := a + m + b;
    forall j | 0 <= j < |a| + pos ensures s[j].key < k {
      if j < |a| { assert s[j] == a[j]; } else { assert s[j] == m[j - |a|]; }
    }
    forall j | |a| + pos <= j < |s| ensures k < s[j].key {
      if j < |a| + |m| { assert s[j] == m[j - |a|]; } else { assert s[j] == b[j - |a| - |m|]; }
    }
  }

  lemma SortedInserted(es: seq<Entry>, pos: nat, e: Entry)
    requires Sorted(es) && Gap(es, pos, e.key)
    ensures Sorted(Inserted(es, pos, e))
  {
    var s := Inserted(es, pos, e);
    forall i, j | 0 <= i < j < |s| ensures s[i].key < s[j].key {
      assert s[i] == if i < pos then es[i] else if i == pos then e else es[i - 1];
      assert s[j] == if j < pos then es[j] else if j == pos then e else es[j - 1];
    }
  }

  lemma SortedErased(es: seq<Entry>, pos: nat)
    requires Sorted(es) && pos < |es|
    ensures Sorted(Erased(es, pos))
  {
    var s := Erased(es, pos);
    forall i, j | 0 <= i < j < |s| ensures s[i].key < s[j].key {
      assert s[i] == if i < pos then es[i] else es[i + 1];
      assert s[j] == if j < pos then es[j] else es[j + 1];
    }
  }

  // ---- The map of a sorted sequence --------------------------------------------------------

  /** The keys of the map are exactly the keys of the sequence. */
  lemma {:induction false} MapOfKeys(es: seq<Entry>, k: Key)
    ensures k in MapOf(es) <==> exists i :: 0 <= i < |es| && es[i].key == k
  {
    if es != [] {
      var n := |es| - 1;
      MapOfKeys(es[..n], k);
      if k in MapOf(es) {
        if es[n].key != k {
          var i :| 0 <= i < n && es[..n][i].key == k;
          assert es[i].key == k;
        }
      }
      if i :| 0 <= i < |es| && es[i].key == k {
        if i < n { assert es[..n][i].key == k; }
      }
    }
  }

  /** In a sorted sequence every entry is the map's entry for its key. */
  lemma {:induction false} MapOfAt(es: seq<Entry>, i: nat)
    requires Sorted(es) && i < |es|
    ensures es[i].key in MapOf(es) && MapOf(es)[es[i].key] == es[i].value
  {
    var n := |es| - 1;
    if i < n {
      MapOfAt(es[..n], i);
      assert es[..n][i] == es[i];
    }
  }

  /** A map that holds every entry of a sorted sequence and no other key is the map of that sequence. */
  lemma MapOfIs(es: seq<Entry>, m: map<Key, Value>)
    requires Sorted(es)
    requires forall i :: 0 <= i < |es| ==> es[i].key in m && m[es[i].key] == es[i].value
    requires forall k :: k in m ==> exists i :: 0 <= i < |es| && es[i].key == k
    ensures MapOf(es) == m
  {
    forall k ensures k in MapOf(es) <==> k in m {
      MapOfKeys(es, k);
    }
    forall k | k in m ensures MapOf(es)[k] == m[k] {
      var i :| 0 <= i < |es| && es[i].key == k;
      MapOfAt(es, i);
    }
  }

  lemma MapOfInserted(es: seq<Entry>, pos: nat, e: Entry)
    requires Sorted(es) && Gap(es, pos, e.key)
    ensures e.key !in MapOf(es)
    ensures MapOf(Inserted(es, pos, e)) == MapOf(es)[e.key := e.value]
  {
    hide Sorted;
    var s := Inserted(es, pos, e);
    var m := MapOf(es)[e.key := e.value];
    SortedInserted(es, pos, e);
    MapOfKeys(es, e.key);
    forall i | 0 <= i < |s| ensures s[i].key in m && m[s[i].key] == s[i].value {
      if i != pos {
        MapOfAt(es, if i < pos then i else i - 1);
      }
    }
    forall k | k in m ensures exists i :: 0 <= i < |s| && s[i].key == k {
      if k == e.key {
        assert s[pos].key == k;
      } else {
        MapOfKeys(es, k);
        var i :| 0 <= i < |es| && es[i].key == k;
        assert s[if i < pos then i else i + 1].key == k;
      }
    }
    MapOfIs(s, m);
  }

  lemma MapOfErased(es: seq<Entry>, pos: nat)
    requires Sorted(es) && pos < |es|
    ensures es[pos].key in MapOf(es)
    ensures MapOf(Erased(es, pos)) == MapOf(es) - {es[pos].key}
  {
    var s := Erased(es, pos);
    var m := MapOf(es) - {es[pos].key};
    SortedErased(es, pos);
    MapOfAt(es, pos);
    forall i | 0 <= i < |s| ensures s[i].key in m && m[s[i].key] == s[i].value {
      MapOfAt(es, if i < pos then i else i + 1);
    }
    forall k | k in m ensures exists i :: 0 <= i < |s| && s[i].key == k {
      MapOfKeys(es, k);
      var i :| 0 <= i < |es| && es[i].key == k;
      assert s[if i < pos then i else i - 1].key == k;
    }
    MapOfIs(s, m);
  }

  lemma MapOfReplaced(es: seq<Entry>, pos: nat, v: Value)
    requires Sorted(es) && pos < |es|
    ensures Sorted(Replaced(es, pos, v))
    ensures MapOf(Replaced(es, pos, v)) == MapOf(es)[es[pos].key := v]
  {
    var s := Replaced(es, pos, v);
    var m := MapOf(es)[es[pos].key := v];
    forall i | 0 <= i < |s| ensures s[i].key in m && m[s[i].key] == s[i].value {
      MapOfAt(es, i);
    }
    forall k | k in m ensures exists i :: 0 <= i < |s| && s[i].key == k {
      if k == es[pos].key {
        assert s[pos].key == k;
      } else {
        MapOfKeys(es, k);
        var i :| 0 <= i < |es| && es[i].key == k;
        assert s[i].key == k;
      }
    }
    MapOfIs(s, m);
  }

  /** A key whose place is a gap is not in the map. */
  lemma GapAbsent(es: seq<Entry>, pos: nat, k: Key)
    requires Gap(es, pos, k)
    ensures k !in MapOf(es)
  {
    MapOfKeys(es, k);
  }
}
