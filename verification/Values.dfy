/** Column types and values, and the comparisons that predicates make. */
module Values {
  import opened Bytes
  import opened Status

  datatype LogicalType = Int8 | Int16 | Int32 | Int64 | Float64 | String(capacity: nat) | Boolean

  function FixedSize(t: LogicalType): nat {
    match t
    case Int8 => 1
    case Int16 => 2
    case Int32 => 4
    case Int64 => 8
    case Float64 => 8
    case String(capacity) => capacity
    case Boolean => 1
  }

  predicate CanBeIndexed(t: LogicalType) {
    t != Float64
  }

  predicate IsInteger(t: LogicalType) {
    t == Int8 || t == Int16 || t == Int32 || t == Int64
  }

  /** The value of an integer type's sign bit. */
  function SignBit(t: LogicalType): (r: int)
    requires IsInteger(t)
    ensures r > 0
  {
    match t
    case Int8 => 0x80
    case Int16 => 0x8000
    case Int32 => 0x8000_0000
    case _ => 0x8000_0000_0000_0000
  }

  const FLOAT_SIGN_BIT: nat := 0x8000_0000_0000_0000
  const FLOAT_INFINITY: nat := 0x7FF0_0000_0000_0000

  /** A DOUBLE is given by its 64 bits. */
  datatype Value = Null | Integer(i: int) | Float(bits: nat) | Text(s: Bytes) | Truth(b: bool)

  predicate NulFree(s: Bytes) {
    forall i :: 0 <= i < |s| ==> s[i] != 0
  }

  /** v is a value of type t, NULL included. */
  predicate IsA(v: Value, t: LogicalType) {
    match v
    case Null => true
    case Integer(i) => IsInteger(t) && -SignBit(t) <= i < SignBit(t)
    case Float(bits) => t == Float64 && bits < 2 * FLOAT_SIGN_BIT
    case Text(s) => t.String? && |s| <= t.capacity
    case Truth(_) => t == Boolean
  }

  /** v can be a key of type t. */
  predicate IsKey(v: Value, t: LogicalType) {
    IsA(v, t) && v != Null && CanBeIndexed(t) && (v.Text? ==> NulFree(v.s))
  }

  predicate IsNaN(bits: nat) {
    (if bits >= FLOAT_SIGN_BIT then bits - FLOAT_SIGN_BIT else bits) > FLOAT_INFINITY
  }

  /** IEEE 754 orders the bits of numbers by sign and magnitude; both zeros rank the same. */
  function FloatRank(bits: nat): int {
    if bits >= FLOAT_SIGN_BIT then FLOAT_SIGN_BIT - bits else bits
  }

  predicate FloatLess(a: nat, b: nat) {
    !IsNaN(a) && !IsNaN(b) && FloatRank(a) < FloatRank(b)
  }

  function Sign(less: bool, greater: bool): int {
    if less then -1 else if greater then 1 else 0
  }

  /** compare_values: -1, 0 or 1; values of different kinds cannot be compared. */
  function CompareValues(left: Value, right: Value): (r: Result<int>)
  {
    match (left, right)
    case (Integer(i), Integer(j)) => Ok(Sign(i < j, i > j))
    case (Float(x), Float(y)) => Ok(Sign(FloatLess(x, y), FloatLess(y, x)))
    case (Text(s), Text(t)) => Ok(Sign(LexLess(s, t), LexLess(t, s)))
    case (Truth(x), Truth(y)) => Ok(if x == y then 0 else if x then 1 else -1)
    case _ => Err(InternalError)
  }

  datatype ComparisonOperator = Equal | NotEqual | Less | LessEqual | Greater | GreaterEqual | IsNull | IsNotNull

  predicate ComparisonMatches(comparison: int, op: ComparisonOperator) {
    match op
    case Equal => comparison == 0
    case NotEqual => comparison != 0
    case Less => comparison < 0
    case LessEqual => comparison <= 0
    case Greater => comparison > 0
    case GreaterEqual => comparison >= 0
    case _ => false
  }
}
