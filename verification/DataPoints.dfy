/** IEC 61131 data types and data points as the ASN.1 layer of FORTE sees them. */
module DataPoints {
  import opened Bytes
  import opened Machine

  /** The types whose payload is a plain copy of the low bytes of the data union. */
  datatype Scalar =
    | SINT | INT | DINT | LINT | USINT | UINT | UDINT | ULINT
    | BYTE | WORD | DWORD | LWORD
    | DATE | TIME_OF_DAY | DATE_AND_TIME
    | REAL | LREAL

  datatype DataType =
    | BOOL
    | ScalarType(s: Scalar)
    | TIME
    | STRING
    | ARRAY(elem: DataType)
    | STRUCT(tag: Byte, members: seq<DataType>)

  /** A data point. Data holds the eight bytes of the value union, least significant first;
      ticks is a TIME value in time base units; chars may contain NUL bytes. */
  datatype Value =
    | Bool(b: bool)
    | ScalarValue(s: Scalar, data: seq<Byte>)
    | Time(ticks: int)
    | Text(chars: seq<Byte>)
    | Array(elems: seq<Value>)
    | Struct(tag: Byte, fields: seq<Value>)

  /** The data points that objects of a given type can hold. The code dereferences the first
      element of every array it handles, so arrays are non-empty. */
  predicate HasType(v: Value, t: DataType)
    decreases t
  {
    match t
    case BOOL => v.Bool?
    case ScalarType(s) => v.ScalarValue? && v.s == s && |v.data| == 8
    case TIME => v.Time? && INT64_MIN <= v.ticks <= INT64_MAX
    case STRING => v.Text? && |v.chars| <= 65535
    case ARRAY(e) =>
      v.Array? && 1 <= |v.elems| <= 65535 && forall i :: 0 <= i < |v.elems| ==> HasType(v.elems[i], e)
    case STRUCT(tag, ms) =>
      v.Struct? && v.tag == tag && |v.fields| == |ms| > 0 &&
      forall i :: 0 <= i < |ms| ==> HasType(v.fields[i], ms[i])
  }

  predicate AllHaveType(vs: seq<Value>, e: DataType) {
    forall i :: 0 <= i < |vs| ==> HasType(vs[i], e)
  }

  predicate HaveTypes(vs: seq<Value>, ms: seq<DataType>) {
    |vs| == |ms| && forall i :: 0 <= i < |ms| ==> HasType(vs[i], ms[i])
  }

  /** Nesting depth, the measure of every recursion over types. */
  function Depth(t: DataType): nat
    decreases t
  {
    match t
    case ARRAY(e) => Depth(e) + 1
    case STRUCT(_, ms) => MaxDepth(ms) + 1
    case _ => 0
  }

  function MaxDepth(ms: seq<DataType>): nat
    decreases ms, 0
  {
    if ms == [] then 0
    else if Depth(ms[0]) >= MaxDepth(ms[1..]) then Depth(ms[0]) else MaxDepth(ms[1..])
  }

  function Repeat(e: DataType, m: nat): (ms: seq<DataType>)
    ensures |ms| == m && forall i :: 0 <= i < m ==> ms[i] == e
    ensures MaxDepth(ms) <= Depth(e)
  {
    if m == 0 then [] else [e] + Repeat(e, m - 1)
  }

  predicate StructFree(t: DataType) {
    match t
    case ARRAY(e) => StructFree(e)
    case STRUCT(_, _) => false
    case _ => true
  }

  // ---- the tag table ----

  const APPLICATION: Byte := 64
  const CONSTRUCTED: Byte := 32

  function ScalarTag(s: Scalar): Byte {
    APPLICATION + match s
      case SINT => 2 case INT => 3 case DINT => 4 case LINT => 5
      case USINT => 6 case UINT => 7 case UDINT => 8 case ULINT => 9
      case REAL => 10 case LREAL => 11
      case DATE => 13 case TIME_OF_DAY => 14 case DATE_AND_TIME => 15
      case BYTE => 17 case WORD => 18 case DWORD => 19 case LWORD => 20
  }

  /** Number of payload bytes of a scalar. */
  function Width(s: Scalar): (w: nat)
    ensures w in {1, 2, 4, 8}
  {
    match s
    case SINT | USINT | BYTE => 1
    case INT | UINT | WORD => 2
    case DINT | UDINT | DWORD | REAL => 4
    case LINT | ULINT | LWORD | DATE | TIME_OF_DAY | DATE_AND_TIME | LREAL => 8
  }

  /** The types for which the receiver extends the sign; LINT fills the union by itself. */
  predicate SignExtended(s: Scalar) {
    s == SINT || s == INT || s == DINT
  }

  /** The identifier octet of a type; a BOOL is sent with this tag when it is true. */
  function TypeTag(t: DataType): Byte {
    match t
    case BOOL => APPLICATION + 1
    case ScalarType(s) => ScalarTag(s)
    case TIME => APPLICATION + 12
    case STRING => APPLICATION + 16
    case ARRAY(_) => APPLICATION + CONSTRUCTED + 22
    case STRUCT(tag, _) => tag
  }

  /** Bit 7 of the identifier octet: the class test every received data point has to pass. */
  predicate IsApplication(b: Byte) {
    (b / 64) % 2 == 1
  }

  // ---- TIME: the default time base of one nanosecond, microseconds on the wire ----

  const NANOS_PER_MICRO := 1000

  function ToMicros(ticks: int): int { Truncate(ticks, NANOS_PER_MICRO) }

  function FromMicros(us: int): int { WrapInt64(us * NANOS_PER_MICRO) }

  /** The 64-bit two's complement number that eight received bytes denote. */
  function TimeOnWire(bs: seq<Byte>): int
  {
    WrapInt64(ToNat(bs))
  }
}
