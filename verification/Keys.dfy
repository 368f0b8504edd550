/** Keys as byte strings: an encoding whose byte order is the order of the values, and the successor of a
    key among the keys of its size. */
module Keys {
  import opened Bytes
  import opened Status
  import opened Values

  // ---- Numbers as byte strings -------------------------------------------------------------

  /** 256 to the n. */
  function Radix(n: nat): (r: nat)
    ensures r >= 1
  {
    if n == 0 then 1 else 256 * Radix(n - 1)
  }

  function BigEndian(n: nat, width: nat): (s: Bytes)
    ensures |s| == width
  {
    if width == 0 then [] else BigEndian(n / 256, width - 1) + [n % 256]
  }

  lemma {:induction false} NumberOfBigEndian(n: nat, width: nat)
    requires n < Radix(width)
    ensures Number(BigEndian(n, width)) == n
  {
    if width > 0 {
      NumberOfBigEndian(n / 256, width - 1);
      var s := BigEndian(n, width);
      assert s[..width - 1] == BigEndian(n / 256, width - 1);
    }
  }

  lemma {:induction false} NumberBound(s: Bytes)
    ensures Number(s) < Radix(|s|)
  {
    if s != [] {
      NumberBound(s[..|s| - 1]);
    }
  }

  /** The number of a concatenation: the first string counts in units of the second's range. */
  lemma {:induction false} NumberOfConcat(a: Bytes, b: Bytes)
    ensures Number(a + b) == Number(a) * Radix(|b|) + Number(b)
  {
    if b == [] {
      assert a + b == a;
    } else {
      var n := |b| - 1;
      NumberOfConcat(a, b[..n]);
      assert (a + b)[..|a| + n] == a + b[..n];
      assert Number(a + b) == 256 * Number(a + b[..n]) + b[n];
      assert 256 * (Number(a) * Radix(n)) == Number(a) * Radix(n + 1);
    }
  }

  function Zeros(n: nat): (s: Bytes)
    ensures |s| == n
  {
    seq(n, _ => 0)
  }

  lemma {:induction false} NumberOfZeros(n: nat)
    ensures Number(Zeros(n)) == 0
  {
    if n > 0 {
      NumberOfZeros(n - 1);
      assert Zeros(n)[..n - 1] == Zeros(n - 1);
    }
  }

  // ---- Encoding ----------------------------------------------------------------------------

  /** An integer in two's complement with its sign bit flipped. */
  function Sortable(i: int, signBit: int): (n: nat)
    requires -signBit <= i < signBit
  {
    var unsigned := if i < 0 then i + 2 * signBit else i;
    if unsigned >= signBit then unsigned - signBit else unsigned + signBit
  }

  function Padded(s: Bytes, capacity: nat): (r: Bytes)
    requires |s| <= capacity
    ensures |r| == capacity
  {
    s + Zeros(capacity - |s|)
  }

  /** The key bytes of a value, which has type t. */
  function Encode(v: Value, t: LogicalType): (r: Result<Bytes>)
    requires IsA(v, t)
    ensures r.Ok? <==> IsKey(v, t)
    ensures r.Ok? ==> |r.value| == FixedSize(t)
    ensures r.Err? ==> r.code == InvalidArgument
  {
    match v
    case Null => Err(InvalidArgument)
    case Integer(i) => Ok(BigEndian(Sortable(i, SignBit(t)), FixedSize(t)))
    case Float(_) => Err(InvalidArgument)
    case Text(s) => if !NulFree(s) then Err(InvalidArgument) else Ok(Padded(s, t.capacity))
    case Truth(b) => Ok([if b then 1 else 0])
  }

  lemma {:induction false} PaddedOrder(a: Bytes, b: Bytes, capacity: nat)
    requires NulFree(a) && NulFree(b) && |a| <= capacity && |b| <= capacity
    ensures LexLess(Padded(a, capacity), Padded(b, capacity)) <==> LexLess(a, b)
    ensures Padded(a, capacity) == Padded(b, capacity) <==> a == b
  {
    var pa, pb := Padded(a, capacity), Padded(b, capacity);
    if a == [] && b == [] {
      LexIrreflexive(pa);
    } else if a != [] && b != [] {
      PaddedOrder(a[1..], b[1..], capacity - 1);
      assert pa[1..] == Padded(a[1..], capacity - 1) && pb[1..] == Padded(b[1..], capacity - 1);
      assert pa == [a[0]] + pa[1..] && pb == [b[0]] + pb[1..];
      assert a == [a[0]] + a[1..] && b == [b[0]] + b[1..];
    } else {
      assert pa[0] == (if a == [] then 0 else a[0]) && pb[0] == (if b == [] then 0 else b[0]);
    }
  }

  lemma IntegerKey(i: int, t: LogicalType)
    requires IsInteger(t) && IsA(Integer(i), t)
    ensures Number(Encode(Integer(i), t).value) == i + SignBit(t)
  {
    RadixOf(t);
    NumberOfBigEndian(Sortable(i, SignBit(t)), FixedSize(t));
  }

  lemma RadixOf(t: LogicalType)
    requires IsInteger(t)
    ensures Radix(FixedSize(t)) == 2 * SignBit(t)
  {
    assert Radix(1) == 256 && Radix(2) == 65536 && Radix(3) == 256 * 65536;
    assert Radix(4) == 256 * Radix(3) && Radix(5) == 256 * Radix(4);
    assert Radix(6) == 256 * Radix(5) && Radix(7) == 256 * Radix(6) && Radix(8) == 256 * Radix(7);
  }

  /** The encoding embeds the order of values in the byte order of keys, strictly: what memcmp says of two
      keys is what comparing the values says. */
  lemma EncodeOrder(a: Value, b: Value, t: LogicalType)
    requires IsKey(a, t) && IsKey(b, t)
    ensures CompareValues(a, b).Ok?
    ensures LexLess(Encode(a, t).value, Encode(b, t).value) <==> CompareValues(a, b).value < 0
    ensures Encode(a, t).value == Encode(b, t).value <==> CompareValues(a, b).value == 0
    ensures CompareValues(a, b).value == 0 <==> a == b
  {
    var x, y := Encode(a, t).value, Encode(b, t).value;
    match a {
      case Integer(i) =>
        IntegerKey(i, t);
        IntegerKey(b.i, t);
        LexIsNumeric(x, y);
      case Text(s) =>
        PaddedOrder(s, b.s, t.capacity);
        LexTotal(s, b.s);
        LexIrreflexive(s);
        if LexLess(s, b.s) {
          LexAsymmetric(s, b.s);
        }
      case Truth(_) =>
    }
  }

  lemma LexAsymmetric(a: Bytes, b: Bytes)
    requires LexLess(a, b)
    ensures !LexLess(b, a) && a != b
  {
    LexIrreflexive(a);
    if LexLess(b, a) {
      LexTransitive(a, b, a);
    }
  }

  /** The same in numbers, as the B+ tree model has its keys. */
  function KeyNumber(v: Value, t: LogicalType): (n: nat)
    requires IsKey(v, t)
  {
    Number(Encode(v, t).value)
  }

  lemma KeyNumberOrder(a: Value, b: Value, t: LogicalType)
    requires IsKey(a, t) && IsKey(b, t)
    ensures CompareValues(a, b).Ok?
    ensures KeyNumber(a, t) < KeyNumber(b, t) <==> CompareValues(a, b).value < 0
    ensures KeyNumber(a, t) == KeyNumber(b, t) <==> CompareValues(a, b).value == 0
    ensures KeyNumber(a, t) == KeyNumber(b, t) <==> a == b
    ensures KeyNumber(a, t) < Radix(FixedSize(t))
  {
    EncodeOrder(a, b, t);
    LexIsNumeric(Encode(a, t).value, Encode(b, t).value);
    NumberBound(Encode(a, t).value);
  }

  // ---- The next key ------------------------------------------------------------------------

  /** s is the least string of its size above key. */
  ghost predicate LeastAbove(key: Bytes, s: Bytes) {
    && |s| == |key| && LexLess(key, s)
    && forall t: Bytes :: |t| == |key| && LexLess(key, t) ==> LexLeq(s, t)
  }

  /** Turning trailing 0xff bytes into zeros and carrying one adds one to the number. */
  lemma {:induction false} Carry(front: Bytes, v: Byte, n: nat)
    requires v < 255
    ensures Number(front + [v + 1] + Zeros(n)) == Number(front + [v] + seq(n, _ => 255)) + 1
  {
    var a, b := front + [v + 1] + Zeros(n), front + [v] + seq(n, _ => 255);
    if n == 0 {
      assert a == front + [v + 1] && b == front + [v];
      assert a[..|a| - 1] == front && b[..|b| - 1] == front;
    } else {
      Carry(front, v, n - 1);
      assert a[..|a| - 1] == front + [v + 1] + Zeros(n - 1);
      assert b[..|b| - 1] == front + [v] + seq(n - 1, _ => 255);
    }
  }

  lemma NextIsLeast(key: Bytes, s: Bytes)
    requires |s| == |key| && Number(s) == Number(key) + 1
    ensures LeastAbove(key, s)
  {
    LexIsNumeric(key, s);
    forall t: Bytes | |t| == |key| && LexLess(key, t) ensures LexLeq(s, t) {
      LexIsNumeric(key, t);
      LexIsNumeric(s, t);
    }
  }

  /** Above a key of 0xff bytes there is no key of its size. */
  lemma {:induction false} AllOnesIsGreatest(key: Bytes, t: Bytes)
    requires |t| == |key| && forall i :: 0 <= i < |key| ==> key[i] == 255
    ensures !LexLess(key, t)
  {
    if key != [] {
      AllOnesIsGreatest(key[1..], t[1..]);
    }
  }

  /** next_key: the least key of the same size above the given one; there is none exactly when every byte
      is 0xff. */
  method NextKey(key: Bytes) returns (r: Option<Bytes>)
    ensures r.Some? ==> LeastAbove(key, r.value) && Number(r.value) == Number(key) + 1
    ensures r.None? <==> forall i :: 0 <= i < |key| ==> key[i] == 255
    ensures r.None? ==> forall t: Bytes :: |t| == |key| ==> !LexLess(key, t)
  {
    var successor := key;
    var i := |key|;
    while i > 0
      invariant 0 <= i <= |key| && successor == key[..i] + Zeros(|key| - i)
      invariant forall j :: i <= j < |key| ==> key[j] == 255
    {
      var index := i - 1;
      var value := successor[index];
      if value == 255 {
        successor := successor[index := 0];
        i := index;
        continue;
      }
      successor := successor[index := value + 1];
      assert successor == key[..index] + [value + 1] + Zeros(|key| - i);
      assert key == key[..index] + [value] + seq(|key| - i, _ => 255);
      Carry(key[..index], value, |key| - i);
      NextIsLeast(key, successor);
      return Some(successor);
    }
    forall t: Bytes | |t| == |key| ensures !LexLess(key, t) {
      AllOnesIsGreatest(key, t);
    }
    r := None;
  }
}
