/** Rows as fixed-size byte strings. */
module RowCodec {
  import opened Bytes
  import opened Status
  import opened Values
  import opened Endian
  import opened Keys
  import opened Tables
  import opened Schemas

  // ---- Bits of the null bitmap -------------------------------------------------------------

  predicate HasBit(b: nat, k: nat) {
    if k == 0 then b % 2 == 1 else HasBit(b / 2, k - 1)
  }

  /** b | 1 << k. */
  function WithBit(b: nat, k: nat): nat {
    if k == 0 then b / 2 * 2 + 1 else WithBit(b / 2, k - 1) * 2 + b % 2
  }

  lemma {:induction false} BitAfter(b: nat, k: nat, j: nat)
    ensures HasBit(WithBit(b, k), j) <==> j == k || HasBit(b, j)
  {
    if k > 0 && j > 0 {
      BitAfter(b / 2, k - 1, j - 1);
    }
  }

  function PowerOfTwo(n: nat): (r: nat)
    ensures r >= 1
  {
    if n == 0 then 1 else 2 * PowerOfTwo(n - 1)
  }

  lemma {:induction false} WithBitBound(b: nat, k: nat, width: nat)
    requires b < PowerOfTwo(width) && k < width
    ensures WithBit(b, k) < PowerOfTwo(width)
  {
    var h := b / 2;
    assert h < PowerOfTwo(width - 1);
    if k > 0 {
      WithBitBound(h, k - 1, width - 1);
    }
  }

  /** A number of width bits is given by its bits. */
  lemma {:induction false} SameBits(a: nat, b: nat, width: nat)
    requires a < PowerOfTwo(width) && b < PowerOfTwo(width)
    requires forall k: nat :: k < width ==> (HasBit(a, k) <==> HasBit(b, k))
    ensures a == b
  {
    if width > 0 {
      forall k: nat | k < width - 1
        ensures HasBit(a / 2, k) <==> HasBit(b / 2, k)
      {
        assert HasBit(a, k + 1) <==> HasBit(b, k + 1);
      }
      SameBits(a / 2, b / 2, width - 1);
      assert HasBit(a, 0) <==> HasBit(b, 0);
    }
  }

  /** b & ~0 << k is not zero. */
  predicate AnyBitFrom(b: nat, k: nat) {
    if k == 0 then b != 0 else AnyBitFrom(b / 2, k - 1)
  }

  lemma {:induction false} SomeBitFrom(b: nat, k: nat, width: nat) returns (j: nat)
    requires AnyBitFrom(b, k) && b < PowerOfTwo(width)
    ensures k <= j < width && HasBit(b, j)
  {
    if width > 0 {
      if k == 0 && b % 2 == 1 {
        j := 0;
      } else {
        var h, l := b / 2, if k == 0 then 0 else k - 1;
        assert AnyBitFrom(h, l) && h < PowerOfTwo(width - 1);
        var i := SomeBitFrom(h, l, width - 1);
        j := i + 1;
      }
    } else {
      j := SomeBitFrom(0, k - 1, 0);
    }
  }

  lemma {:induction false} NoBitFrom(b: nat, k: nat, j: nat)
    requires !AnyBitFrom(b, k) && k <= j
    ensures !HasBit(b, j)
  {
    if j > 0 {
      NoBitFrom(b / 2, if k == 0 then 0 else k - 1, j - 1);
    }
  }

  // ---- Numbers -----------------------------------------------------------------------------

  /** Two's complement. */
  function Unsigned(i: int, signBit: nat): int {
    if i < 0 then i + 2 * signBit else i
  }

  function Signed(n: int, signBit: nat): int {
    if n >= signBit then n - 2 * signBit else n
  }

  // ---- One column --------------------------------------------------------------------------

  /** The bytes of value v in a column of type t. */
  function Payload(v: Value, t: LogicalType): (s: Bytes)
    requires IsA(v, t)
    ensures |s| == FixedSize(t)
  {
    match v
    case Null => Zeros(FixedSize(t))
    case Integer(i) => LittleEndian(Unsigned(i, SignBit(t)), FixedSize(t))
    case Float(bits) => LittleEndian(bits, 8)
    case Text(s) => Padded(s, t.capacity)
    case Truth(b) => [if b then 1 else 0]
  }

  /** v is a value other than NULL that a row may hold in a column of type t. */
  predicate Storable(v: Value, t: LogicalType) {
    IsA(v, t) && v != Null && (v.Text? ==> NulFree(v.s))
  }

  lemma {:induction false} PaddedUnique(a: Bytes, b: Bytes, capacity: nat)
    requires NulFree(a) && NulFree(b) && |a| <= capacity && |b| <= capacity
    requires Padded(a, capacity) == Padded(b, capacity)
    ensures a == b
  {
    PaddedOrder(a, b, capacity);
  }

  /** A column's bytes give back the value. */
  lemma PayloadInjective(v: Value, w: Value, t: LogicalType)
    requires Storable(v, t) && Storable(w, t) && Payload(v, t) == Payload(w, t)
    ensures v == w
  {
    if v.Text? {
      PaddedUnique(v.s, w.s, t.capacity);
    } else if v.Integer? {
      RadixOf(t);
      LittleRoundTrip(Unsigned(v.i, SignBit(t)), FixedSize(t));
      LittleRoundTrip(Unsigned(w.i, SignBit(t)), FixedSize(t));
    } else if v.Float? {
      RadixOf(Int64);
      LittleRoundTrip(v.bits, 8);
      LittleRoundTrip(w.bits, 8);
    }
  }

  // ---- Rows --------------------------------------------------------------------------------

  /** bytes is the stored form of row: the bitmap marks the NULLs and nothing else, and every column's
      range holds its value. */
  ghost predicate Encodes(columns: seq<Column>, row: Row, bytes: Bytes)
    requires RowFits(columns, row)
  {
    && |bytes| == RowSize(columns)
    && (forall c :: 0 <= c < 8 * NullBitmapSize(|columns|) ==> MarkedRight(columns, row, bytes, c))
    && (forall c :: 0 <= c < |columns| ==> StoredAt(columns, row, bytes, c))
  }

  ghost predicate RowFits(columns: seq<Column>, row: Row) {
    |row| == |columns| && forall c :: 0 <= c < |columns| ==> ColumnOk(columns[c], row[c])
  }

  ghost predicate MarkedRight(columns: seq<Column>, row: Row, bytes: Bytes, c: nat) {
    c / 8 < |bytes| && (HasBit(bytes[c / 8], c % 8) <==> c < |row| && row[c] == Null)
  }

  ghost predicate StoredAt(columns: seq<Column>, row: Row, bytes: Bytes, c: nat)
    requires c < |columns| == |row| && ColumnOk(columns[c], row[c]) && |bytes| == RowSize(columns)
  {
    ColumnBytes(columns, bytes, c) == Payload(row[c], columns[c].logicalType)
  }

  /** The range of column c. */
  function ColumnBytes(columns: seq<Column>, bytes: Bytes, c: nat): (s: Bytes)
    requires c < |columns| && |bytes| == RowSize(columns)
    ensures |s| == FixedSize(columns[c].logicalType)
  {
    Adjacent(columns, c);
    Ordered(columns, c + 1, |columns|);
    bytes[OffsetOf(columns, c)..OffsetOf(columns, c + 1)]
  }

  lemma ByteOfColumn(columns: seq<Column>, bytes: Bytes, c: nat, p: nat)
    requires c < |columns| && |bytes| == RowSize(columns) && OffsetOf(columns, c) <= p < OffsetOf(columns, c + 1)
    ensures p - OffsetOf(columns, c) < |ColumnBytes(columns, bytes, c)|
    ensures p < |bytes| && bytes[p] == ColumnBytes(columns, bytes, c)[p - OffsetOf(columns, c)]
  {
    Adjacent(columns, c);
    Ordered(columns, c + 1, |columns|);
  }

  /** A row has one stored form. */
  lemma OneEncoding(columns: seq<Column>, row: Row, a: Bytes, b: Bytes)
    requires RowFits(columns, row) && Encodes(columns, row, a) && Encodes(columns, row, b)
    ensures a == b
  {
    forall p | 0 <= p < |a|
      ensures a[p] == b[p]
    {
      if p < NullBitmapSize(|columns|) {
        forall k: nat | k < 8
          ensures HasBit(a[p], k) <==> HasBit(b[p], k)
        {
          assert (8 * p + k) / 8 == p && (8 * p + k) % 8 == k;
          assert MarkedRight(columns, row, a, 8 * p + k) && MarkedRight(columns, row, b, 8 * p + k);
        }
        assert PowerOfTwo(3) == 8 && PowerOfTwo(8) == 32 * PowerOfTwo(3);
        SameBits(a[p], b[p], 8);
      } else {
        var c := ColumnAt(columns, p, |columns|);
        assert StoredAt(columns, row, a, c) && StoredAt(columns, row, b, c);
        ByteOfColumn(columns, a, c, p);
        ByteOfColumn(columns, b, c, p);
      }
    }
  }

  /** A byte string stores one row. */
  lemma OneRow(columns: seq<Column>, a: Row, b: Row, bytes: Bytes)
    requires RowFits(columns, a) && RowFits(columns, b) && Encodes(columns, a, bytes) && Encodes(columns, b, bytes)
    ensures a == b
  {
    forall c | 0 <= c < |columns|
      ensures a[c] == b[c]
    {
      assert ColumnOk(columns[c], a[c]) && ColumnOk(columns[c], b[c]);
      assert MarkedRight(columns, a, bytes, c) && MarkedRight(columns, b, bytes, c);
      assert StoredAt(columns, a, bytes, c) && StoredAt(columns, b, bytes, c);
      if a[c] != Null {
        PayloadInjective(a[c], b[c], columns[c].logicalType);
      }
    }
  }

  // ---- Encoding ----------------------------------------------------------------------------

  /** validate_row_against_schema: the number of values, and for each its type, nullability, length and
      freedom from NUL characters. */
  method ValidateRow(columns: seq<Column>, row: Row) returns (ok: bool)
    ensures ok <==> RowFits(columns, row)
  {
    if |columns| != |row| {
      return false;
    }
    for c := 0 to |columns|
      invariant forall d :: 0 <= d < c ==> ColumnOk(columns[d], row[d])
    {
      if !ColumnOk(columns[c], row[c]) {
        return false;
      }
    }
    ok := true;
  }

  /** The first n columns' bits in a bitmap at the front of bytes. */
  ghost predicate Marked(columns: seq<Column>, row: Row, bytes: Bytes, n: nat) {
    forall c :: 0 <= c < 8 * NullBitmapSize(|columns|) ==> MarkedUpTo(row, bytes, c, n)
  }

  ghost predicate MarkedUpTo(row: Row, bytes: Bytes, c: nat, n: nat) {
    c / 8 < |bytes| && (HasBit(bytes[c / 8], c % 8) <==> c < n && c < |row| && row[c] == Null)
  }

  lemma MarkColumn(columns: seq<Column>, row: Row, before: Bytes, after: Bytes, i: nat, n: nat)
    requires Marked(columns, row, before, i) && i < |row| && n == i + 1 && i / 8 < |before| == |after|
    requires forall p :: 0 <= p < |before| && p != i / 8 ==> after[p] == before[p]
    requires after[i / 8] == if row[i] == Null then WithBit(before[i / 8], i % 8) else before[i / 8]
    ensures Marked(columns, row, after, n)
  {
    forall c | 0 <= c < 8 * NullBitmapSize(|columns|)
      ensures MarkedUpTo(row, after, c, n)
    {
      assert MarkedUpTo(row, before, c, i);
      BitAfter(before[i / 8], i % 8, c % 8);
      assert c == 8 * (c / 8) + c % 8 && i == 8 * (i / 8) + i % 8;
    }
  }

  method MarkNulls(columns: seq<Column>, row: Row, bytes: array<Byte>)
    requires RowFits(columns, row) && bytes.Length == RowSize(columns)
    requires forall p :: 0 <= p < bytes.Length ==> bytes[p] == 0
    modifies bytes
    ensures Marked(columns, row, bytes[..], |row|)
    ensures forall p :: NullBitmapSize(|columns|) <= p < bytes.Length ==> bytes[p] == 0
  {
    Ordered(columns, 0, |columns|);
    forall c | 0 <= c < 8 * NullBitmapSize(|columns|)
      ensures MarkedUpTo(row, bytes[..], c, 0)
    {
      NoBitFrom(0, 0, c % 8);
    }
    for i := 0 to |row|
      invariant Marked(columns, row, bytes[..], i)
      invariant forall p :: NullBitmapSize(|columns|) <= p < bytes.Length ==> bytes[p] == 0
    {
      ghost var before := bytes[..];
      if row[i] == Null {
        WithBitIsByte(bytes[i / 8], i % 8);
        bytes[i / 8] := WithBit(bytes[i / 8], i % 8);
      }
      MarkColumn(columns, row, before, bytes[..], i, i + 1);
    }
  }

  lemma WithBitIsByte(b: Byte, k: nat)
    requires k < 8
    ensures WithBit(b, k) < 256
  {
    assert PowerOfTwo(3) == 8 && PowerOfTwo(8) == 32 * PowerOfTwo(3);
    WithBitBound(b, k, 8);
  }

  /** The bytes a value other than NULL puts at the start of its column: a string is written without its
      padding, which is zero already. */
  function Written(v: Value, t: LogicalType): (s: Bytes)
    requires Storable(v, t)
    ensures |s| <= FixedSize(t) && Payload(v, t) == s + Zeros(FixedSize(t) - |s|)
  {
    if v.Text? then v.s else Payload(v, t)
  }

  ghost predicate StoredUpTo(columns: seq<Column>, row: Row, bytes: Bytes, n: nat)
    requires RowFits(columns, row) && n <= |columns|
  {
    && |bytes| == RowSize(columns) && Marked(columns, row, bytes, |row|)
    && (forall c :: 0 <= c < n ==> StoredAt(columns, row, bytes, c))
    && (forall p :: OffsetOf(columns, n) <= p < |bytes| ==> bytes[p] == 0)
  }

  lemma StoreColumn(columns: seq<Column>, row: Row, i: nat, before: Bytes, s: Bytes, after: Bytes)
    requires RowFits(columns, row) && i < |columns| && StoredUpTo(columns, row, before, i)
    requires |s| <= FixedSize(columns[i].logicalType) &&
      Payload(row[i], columns[i].logicalType) == s + Zeros(FixedSize(columns[i].logicalType) - |s|)
    requires OffsetOf(columns, i) + |s| <= |before|
    requires after == before[..OffsetOf(columns, i)] + s + before[OffsetOf(columns, i) + |s|..]
    ensures StoredUpTo(columns, row, after, i + 1)
  {
    Adjacent(columns, i);
    Ordered(columns, i, i + 1);
    Ordered(columns, i + 1, |columns|);
    forall c | 0 <= c < 8 * NullBitmapSize(|columns|)
      ensures MarkedUpTo(row, after, c, |row|)
    {
      assert MarkedUpTo(row, before, c, |row|);
    }
    forall c | 0 <= c < i
      ensures StoredAt(columns, row, after, c)
    {
      assert StoredAt(columns, row, before, c);
      Ordered(columns, c + 1, i);
      SameColumn(columns, before, after, c);
    }
    assert StoredAt(columns, row, after, i) by {
      hide StoredUpTo, RowFits;
      assert ColumnBytes(columns, after, i) == s + before[OffsetOf(columns, i) + |s|..OffsetOf(columns, i + 1)];
    }
  }

  lemma SameColumn(columns: seq<Column>, before: Bytes, after: Bytes, c: nat)
    requires c < |columns| && |before| == |after| == RowSize(columns)
    requires forall p :: 0 <= p < OffsetOf(columns, c + 1) && p < |before| ==> after[p] == before[p]
    ensures ColumnBytes(columns, after, c) == ColumnBytes(columns, before, c)
  {
    Adjacent(columns, c);
    Ordered(columns, c + 1, |columns|);
  }

  /** What encode gives: the stored form of a row that fits, an error for any other. */
  ghost predicate EncodedAs(columns: seq<Column>, row: Row, r: Result<Bytes>) {
    && (r.Ok? <==> RowFits(columns, row))
    && (r.Ok? ==> Encodes(columns, row, r.value))
    && (r.Err? ==> r.code == InvalidArgument)
  }

  /** RowCodec::encode. */
  method Encode(schema: Schema, row: Row) returns (r: Result<Bytes>)
    requires schema.LaidOut()
    ensures EncodedAs(schema.columns, row, r)
  {
    var columns := schema.columns;
    var valid := ValidateRow(columns, row);
    if !valid {
      return Err(InvalidArgument);
    }
    var bytes := new Byte[schema.rowSize](_ => 0);
    MarkNulls(columns, row, bytes);
    NothingStored(columns, row, bytes[..]);
    for i := 0 to |columns|
      invariant StoredUpTo(columns, row, bytes[..], i)
    {
      EncodeValue(schema, row, i, bytes);
    }
    AllStored(columns, row, bytes[..]);
    r := Ok(bytes[..]);
  }

  /** A NULL leaves its column zero. */
  method EncodeValue(schema: Schema, row: Row, i: nat, bytes: array<Byte>)
    requires schema.LaidOut() && RowFits(schema.columns, row) && i < |row| &&
      StoredUpTo(schema.columns, row, bytes[..], i)
    modifies bytes
    ensures StoredUpTo(schema.columns, row, bytes[..], i + 1)
  {
    var columns := schema.columns;
    assert ColumnOk(columns[i], row[i]);
    ghost var before := bytes[..];
    Adjacent(columns, i);
    Ordered(columns, i + 1, |columns|);
    if row[i] == Null {
      StoreColumn(columns, row, i, before, [], before);
    } else {
      var s := Written(row[i], columns[i].logicalType);
      WriteBytes(bytes, schema.offsets[i], s);
      assert bytes[..] == before[..schema.offsets[i]] + s + before[schema.offsets[i] + |s|..];
      StoreColumn(columns, row, i, before, s, bytes[..]);
    }
  }

  lemma NothingStored(columns: seq<Column>, row: Row, bytes: Bytes)
    requires RowFits(columns, row) && |bytes| == RowSize(columns) && Marked(columns, row, bytes, |row|)
    requires forall p :: NullBitmapSize(|columns|) <= p < |bytes| ==> bytes[p] == 0
    ensures StoredUpTo(columns, row, bytes, 0)
  {
    assert columns[..0] == [];
  }

  lemma AllStored(columns: seq<Column>, row: Row, bytes: Bytes)
    requires RowFits(columns, row) && StoredUpTo(columns, row, bytes, |columns|)
    ensures Encodes(columns, row, bytes)
  {
    forall c | 0 <= c < 8 * NullBitmapSize(|columns|)
      ensures MarkedRight(columns, row, bytes, c)
    {
      assert MarkedUpTo(row, bytes, c, |row|);
    }
  }

  // ---- Decoding ----------------------------------------------------------------------------

  /** The integer read back from a column's bytes. */
  lemma IntegerPayload(s: Bytes, t: LogicalType)
    requires IsInteger(t) && |s| == FixedSize(t)
    ensures var v := Integer(Signed(LittleNumber(s), SignBit(t))); Storable(v, t) && Payload(v, t) == s
  {
    var n := LittleNumber(s);
    assert n < 2 * SignBit(t) by {
      RadixOf(t);
    }
    assert Unsigned(Signed(n, SignBit(t)), SignBit(t)) == n;
    LittleUnique(s);
  }

  /** The string in a column: the characters before the first NUL, which must all be NUL from there on. */
  method DecodeText(s: Bytes) returns (r: Result<Value>)
    ensures r.Ok? ==> Storable(r.value, String(|s|)) && Payload(r.value, String(|s|)) == s
    ensures r.Err? ==>
      r.code == InvalidArgument && forall v :: Storable(v, String(|s|)) ==> Payload(v, String(|s|)) != s
  {
    var text: Bytes := [];
    while |text| < |s| && s[|text|] != 0
      invariant |text| <= |s| && text == s[..|text|] && NulFree(text)
      decreases |s| - |text|
    {
      text := text + [s[|text|]];
    }
    if |text| < |s| && !AllZero(s[|text|..]) {
      forall v | Storable(v, String(|s|))
        ensures Payload(v, String(|s|)) != s
      {
        var p :| 0 <= p < |s[|text|..]| && s[|text|..][p] != 0;
        assert s[|text| + p] != 0 && s[|text|] == 0;
        assert Payload(v, String(|s|)) == v.s + Zeros(|s| - |v.s|);
      }
      return Err(InvalidArgument);
    }
    assert Padded(text, |s|) == s;
    r := Ok(Text(text));
  }

  /** The value of a column that is not marked NULL. */
  method DecodeValue(s: Bytes, t: LogicalType) returns (r: Result<Value>)
    requires |s| == FixedSize(t)
    ensures r.Ok? ==> Storable(r.value, t) && Payload(r.value, t) == s
    ensures r.Err? ==> r.code == InvalidArgument && forall v :: Storable(v, t) ==> Payload(v, t) != s
  {
    match t
    case Float64 =>
      RadixOf(Int64);
      LittleUnique(s);
      r := Ok(Float(LittleNumber(s)));
    case String(_) =>
      r := DecodeText(s);
    case Boolean =>
      if s[0] > 1 {
        return Err(InvalidArgument);
      }
      r := Ok(Truth(s[0] == 1));
    case _ =>
      IntegerPayload(s, t);
      r := Ok(Integer(Signed(LittleNumber(s), SignBit(t))));
  }

  predicate MarkedNull(bytes: Bytes, c: nat)
    requires c / 8 < |bytes|
  {
    HasBit(bytes[c / 8], c % 8)
  }

  /** The columns that the bitmap marks NULL allow it, and their bytes are zero. */
  ghost predicate NullsOk(columns: seq<Column>, bytes: Bytes, n: nat)
    requires n <= |columns| && |bytes| == RowSize(columns)
  {
    forall c :: 0 <= c < n && c / 8 < |bytes| && MarkedNull(bytes, c) ==> NullOk(columns, bytes, c)
  }

  ghost predicate NullOk(columns: seq<Column>, bytes: Bytes, c: nat)
    requires c < |columns| && |bytes| == RowSize(columns)
  {
    columns[c].nullable && AllZero(ColumnBytes(columns, bytes, c))
  }

  ghost predicate Rejected(columns: seq<Column>, bytes: Bytes) {
    forall row :: RowFits(columns, row) ==> !Encodes(columns, row, bytes)
  }

  lemma EncodedNull(columns: seq<Column>, row: Row, bytes: Bytes, c: nat)
    requires RowFits(columns, row) && Encodes(columns, row, bytes)
    requires c < |columns| && c / 8 < |bytes| && MarkedNull(bytes, c)
    ensures NullOk(columns, bytes, c)
  {
    assert MarkedRight(columns, row, bytes, c) && StoredAt(columns, row, bytes, c) && ColumnOk(columns[c], row[c]);
  }

  method CheckNulls(schema: Schema, bytes: Bytes) returns (ok: bool)
    requires schema.LaidOut() && |bytes| == RowSize(schema.columns)
    ensures ok ==> NullsOk(schema.columns, bytes, |schema.columns|)
    ensures !ok ==> Rejected(schema.columns, bytes)
  {
    hide OffsetOf, Encodes;
    var columns := schema.columns;
    Ordered(columns, 0, |columns|);
    for c := 0 to |columns|
      invariant NullsOk(columns, bytes, c)
    {
      if MarkedNull(bytes, c) {
        Adjacent(columns, c);
        Ordered(columns, c + 1, |columns|);
        if !columns[c].nullable ||
          !AllZero(bytes[schema.offsets[c]..schema.offsets[c] + FixedSize(columns[c].logicalType)]) {
          forall row | RowFits(columns, row)
            ensures !Encodes(columns, row, bytes)
          {
            if Encodes(columns, row, bytes) {
              EncodedNull(columns, row, bytes, c);
            }
          }
          return false;
        }
        assert NullOk(columns, bytes, c);
      }
    }
    ok := true;
  }

  /** The bits of the last bitmap byte that no column uses are zero. */
  method CheckUnusedBits(schema: Schema, bytes: Bytes) returns (ok: bool)
    requires schema.LaidOut() && |bytes| == RowSize(schema.columns)
    ensures ok ==>
      forall c :: |schema.columns| <= c < 8 * NullBitmapSize(|schema.columns|) ==>
      c / 8 < |bytes| && !MarkedNull(bytes, c)
    ensures !ok ==> Rejected(schema.columns, bytes)
  {
    var columns := schema.columns;
    Ordered(columns, 0, |columns|);
    var used := |columns| % 8;
    if used != 0 {
      var last := bytes[schema.nullBitmapSize - 1];
      if AnyBitFrom(last, used) {
        assert PowerOfTwo(3) == 8 && PowerOfTwo(8) == 32 * PowerOfTwo(3);
        var j := SomeBitFrom(last, used, 8);
        var c := 8 * (schema.nullBitmapSize - 1) + j;
        assert c / 8 == schema.nullBitmapSize - 1 && c % 8 == j;
        forall row | RowFits(columns, row)
          ensures !Encodes(columns, row, bytes)
        {
          assert !MarkedRight(columns, row, bytes, c);
        }
        return false;
      }
      forall c | |columns| <= c < 8 * NullBitmapSize(|columns|)
        ensures c / 8 < |bytes| && !MarkedNull(bytes, c)
      {
        NoBitFrom(last, used, c % 8);
      }
    }
    ok := true;
  }

  /** What decode gives: the row that bytes stores, an error if it stores none. */
  ghost predicate DecodedAs(columns: seq<Column>, bytes: Bytes, r: Result<Row>) {
    && (r.Ok? ==> RowFits(columns, r.value) && Encodes(columns, r.value, bytes))
    && (r.Err? ==> r.code == InvalidArgument && Rejected(columns, bytes))
  }

  /** Decoding an encoded row gives the row. */
  lemma RowRoundTrip(columns: seq<Column>, row: Row, encoded: Result<Bytes>, decoded: Result<Row>)
    requires EncodedAs(columns, row, encoded) && encoded.Ok? && DecodedAs(columns, encoded.value, decoded)
    ensures decoded == Ok(row)
  {
    if decoded.Ok? {
      OneRow(columns, row, decoded.value, encoded.value);
    }
  }

  /** Encoding a decoded row gives the bytes. */
  lemma BytesRoundTrip(columns: seq<Column>, bytes: Bytes, decoded: Result<Row>, encoded: Result<Bytes>)
    requires DecodedAs(columns, bytes, decoded) && decoded.Ok? && EncodedAs(columns, decoded.value, encoded)
    ensures encoded == Ok(bytes)
  {
    OneEncoding(columns, decoded.value, bytes, encoded.value);
  }

  /** RowCodec::decode. */
  method Decode(schema: Schema, bytes: Bytes) returns (r: Result<Row>)
    requires schema.LaidOut()
    ensures DecodedAs(schema.columns, bytes, r)
  {
    hide OffsetOf;
    var columns := schema.columns;
    if schema.rowSize != |bytes| {
      return Err(InvalidArgument);
    }
    var nullsOk := CheckNulls(schema, bytes);
    if !nullsOk {
      return Err(InvalidArgument);
    }
    var unusedOk := CheckUnusedBits(schema, bytes);
    if !unusedOk {
      return Err(InvalidArgument);
    }
    Ordered(columns, 0, |columns|);
    var row: Row := [];
    for c := 0 to |columns|
      invariant |row| == c
      invariant forall d :: 0 <= d < c ==> Restored(columns, row, bytes, d)
    {
      Adjacent(columns, c);
      Ordered(columns, c + 1, |columns|);
      ghost var before := row;
      if MarkedNull(bytes, c) {
        assert NullOk(columns, bytes, c);
        row := row + [Null];
      } else {
        var v := DecodeValue(bytes[schema.offsets[c]..schema.offsets[c] + FixedSize(columns[c].logicalType)],
                             columns[c].logicalType);
        if v.Err? {
          NoValue(columns, bytes, c);
          return Err(InvalidArgument);
        }
        row := row + [v.value];
      }
      assert Restored(columns, row, bytes, c);
      forall d | 0 <= d < c
        ensures Restored(columns, row, bytes, d)
      {
        assert Restored(columns, before, bytes, d);
      }
    }
    AllRestored(columns, row, bytes);
    r := Ok(row);
  }

  ghost predicate Restored(columns: seq<Column>, row: Row, bytes: Bytes, c: nat)
    requires |bytes| == RowSize(columns)
  {
    && c < |columns| && c < |row| && c / 8 < |bytes| && ColumnOk(columns[c], row[c])
    && (MarkedNull(bytes, c) <==> row[c] == Null)
    && ColumnBytes(columns, bytes, c) == Payload(row[c], columns[c].logicalType)
  }

  lemma AllRestored(columns: seq<Column>, row: Row, bytes: Bytes)
    requires |bytes| == RowSize(columns) && |row| == |columns|
    requires forall c :: 0 <= c < |columns| ==> Restored(columns, row, bytes, c)
    requires forall c :: |columns| <= c < 8 * NullBitmapSize(|columns|) ==> c / 8 < |bytes| && !MarkedNull(bytes, c)
    ensures RowFits(columns, row) && Encodes(columns, row, bytes)
  {
    forall c | 0 <= c < |columns|
      ensures ColumnOk(columns[c], row[c])
    {
      assert Restored(columns, row, bytes, c);
    }
    forall c | 0 <= c < 8 * NullBitmapSize(|columns|)
      ensures MarkedRight(columns, row, bytes, c)
    {
      if c < |columns| {
        assert Restored(columns, row, bytes, c);
      }
    }
    forall c | 0 <= c < |columns|
      ensures StoredAt(columns, row, bytes, c)
    {
      assert Restored(columns, row, bytes, c);
    }
  }

  /** A column whose bytes are no value's payload and which is not marked NULL belongs to no row. */
  lemma NoValue(columns: seq<Column>, bytes: Bytes, c: nat)
    requires c < |columns| && |bytes| == RowSize(columns) && c / 8 < |bytes| && !MarkedNull(bytes, c)
    requires forall v :: Storable(v, columns[c].logicalType) ==>
      Payload(v, columns[c].logicalType) != ColumnBytes(columns, bytes, c)
    ensures Rejected(columns, bytes)
  {
    forall row | RowFits(columns, row)
      ensures !Encodes(columns, row, bytes)
    {
      if Encodes(columns, row, bytes) {
        assert MarkedRight(columns, row, bytes, c) && StoredAt(columns, row, bytes, c) && ColumnOk(columns[c], row[c]);
        assert Storable(row[c], columns[c].logicalType);
      }
    }
  }
}
