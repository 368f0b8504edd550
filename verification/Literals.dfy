/** Literals of statements, and the values that columns take from them. */
module Literals {
  import opened Bytes
  import opened Status
  import opened Values

  type Int64 = i: int | -0x8000_0000_0000_0000 <= i < 0x8000_0000_0000_0000

  type Bits64 = n: nat | n < 0x1_0000_0000_0000_0000

  datatype Literal =
    | NullLiteral
    | IntegerLiteral(i: Int64)
    | RealLiteral(bits: Bits64)
    | StringLiteral(s: Bytes)
    | BooleanLiteral(b: bool)

  /** The value that a literal writes down, whatever the column. */
  function Written(l: Literal): Value {
    match l
    case NullLiteral => Null
    case IntegerLiteral(i) => Integer(i)
    case RealLiteral(bits) => Float(bits)
    case StringLiteral(s) => Text(s)
    case BooleanLiteral(b) => Truth(b)
  }

  function WrittenRow(ls: seq<Literal>): (row: seq<Value>)
    ensures |row| == |ls| && forall i :: 0 <= i < |ls| ==> row[i] == Written(ls[i])
  {
    seq(|ls|, i requires 0 <= i < |ls| => Written(ls[i]))
  }

  function ConvertInteger(i: Int64, t: LogicalType): Result<Value> {
    match t
    case Int8 => if -0x80 <= i <= 0x7F then Ok(Integer(i)) else Err(InvalidArgument)
    case Int16 => if -0x8000 <= i <= 0x7FFF then Ok(Integer(i)) else Err(InvalidArgument)
    case Int32 => if -0x8000_0000 <= i <= 0x7FFF_FFFF then Ok(Integer(i)) else Err(InvalidArgument)
    case Int64 => Ok(Integer(i))
    case _ => Err(InvalidArgument)
  }

  /** convert_to. The column takes exactly the values of its type, as they are written: there is no
      conversion between types. NULL in a NOT NULL column is the one violated constraint. */
  function ConvertTo(l: Literal, t: LogicalType, nullable: bool): (r: Result<Value>)
    ensures r.Ok? <==> IsA(Written(l), t) && (l.NullLiteral? ==> nullable)
    ensures r.Ok? ==> r.value == Written(l)
    ensures r == Err(ConstraintViolation) <==> l.NullLiteral? && !nullable
    ensures r.Err? ==> r.code == ConstraintViolation || r.code == InvalidArgument
  {
    match l
    case NullLiteral => if nullable then Ok(Null) else Err(ConstraintViolation)
    case IntegerLiteral(i) => ConvertInteger(i, t)
    case RealLiteral(bits) => if t == Float64 then Ok(Float(bits)) else Err(InvalidArgument)
    case StringLiteral(s) => if t.String? && |s| <= t.capacity then Ok(Text(s)) else Err(InvalidArgument)
    case BooleanLiteral(b) => if t == Boolean then Ok(Truth(b)) else Err(InvalidArgument)
  }
}
