/** Cell values, rows, errors and the comparison the executor uses. */
module Values {
  import opened Lex

  const I64_MAX: int := 0x7fff_ffff_ffff_ffff
  const I64_MIN: int := -0x8000_0000_0000_0000

  type i64 = x: int | I64_MIN <= x <= I64_MAX

  /** A code unit of UTF-8: the bytes 0xF5 to 0xFF never occur (RFC 3629, section 3). */
  type CodeUnit = x: int | 0 <= x <= 0xF4

  type Utf8 = seq<CodeUnit>

  /** `Average` stands for the Float64 that AVG returns: the exact quotient in lowest terms. */
  datatype Value =
    | Null
    | Bool(b: bool)
    | Int64(i: i64)
    | Str(s: Utf8)
    | Average(numerator: int, denominator: nat)

  type Row = seq<Value>

  type TableId = nat
  type RowId = nat

  datatype Option<+T> = None | Some(value: T)

  datatype Error =
    | TableNotFound(namespace: string, table: string)
    | ColumnNotFound(column: string)
    | ExpectedRows
    | ExpectedScan
    | NotIndexable
    | Unsupported
    | Panicked  // the library call aborts the thread

  datatype Result<+T> = Success(value: T) | Failure(error: Error) {
    predicate IsFailure() {
      Failure?
    }

    function PropagateFailure<U>(): Result<U>
      requires Failure?
    {
      Failure(error)
    }

    function Extract(): T
      requires Success?
    {
      value
    }
  }

  function Cell(row: Row, i: nat): Option<Value> {
    if i < |row| then Some(row[i]) else None
  }

  /** A row that is too short for a cell counts as having a Null there. */
  function CellOrNull(row: Row, i: nat): Value {
    if i < |row| then row[i] else Null
  }

  datatype Ordering = Less | Equal | Greater {
    function Reverse(): Ordering {
      match this
      case Less => Greater
      case Equal => Equal
      case Greater => Less
    }
  }

  function CmpInt(x: int, y: int): Ordering {
    if x < y then Less else if x == y then Equal else Greater
  }

  function CmpText(x: Key, y: Key): Ordering {
    if x == y then Equal else if Lt(x, y) then Less else Greater
  }

  /** Only integers compare with integers and strings with strings. */
  function Compare(a: Value, b: Value): Option<Ordering> {
    match (a, b)
    case (Int64(x), Int64(y)) => Some(CmpInt(x, y))
    case (Str(x), Str(y)) => Some(CmpText(x, y))
    case _ => None
  }

  /** The greater of two integers, or of two strings in byte order. */
  predicate IsAbove(v: Value, w: Value) {
    match (v, w)
    case (Int64(x), Int64(y)) => x > y
    case (Str(x), Str(y)) => Lt(y, x)
    case _ => false
  }

  /** The comparison tells which of two integers or strings is above the other; nothing else compares. */
  lemma CompareMeans(v: Value, w: Value)
    ensures Compare(v, w) == Some(Greater) <==> IsAbove(v, w)
    ensures Compare(v, w) == Some(Less) <==> IsAbove(w, v)
    ensures Compare(v, w) == Some(Equal) <==> v == w && (v.Int64? || v.Str?)
  {
    if v.Str? && w.Str? {
      LtIsTotal(v.s, w.s);
      if Lt(v.s, w.s) { LtIsStrict(v.s, w.s); }
      if Lt(w.s, v.s) { LtIsStrict(w.s, v.s); }
    }
  }

  /** `n as i64` of an unsigned count: the low 64 bits read as two's complement. */
  function AsI64(n: nat): i64 {
    var low := n % 0x1_0000_0000_0000_0000;
    if low <= I64_MAX then low else low - 0x1_0000_0000_0000_0000
  }

  /** It differs from the count by a multiple of 2^64, so it is the count where that fits. */
  lemma AsI64Means(n: nat) returns (k: int)
    ensures AsI64(n) == n + k * 0x1_0000_0000_0000_0000
    ensures n <= I64_MAX ==> AsI64(n) == n
  {
    var high := n / 0x1_0000_0000_0000_0000;
    assert n == n % 0x1_0000_0000_0000_0000 + high * 0x1_0000_0000_0000_0000;
    k := if n % 0x1_0000_0000_0000_0000 <= I64_MAX then -high else -high - 1;
  }
}
