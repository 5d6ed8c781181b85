/**
  Shared vocabulary of the SimpleDB execution and storage layer: Java's 32-bit
  `int` arithmetic, field and tuple values, tuple descriptors, record ids, the
  aggregation operators and the error conditions the operators raise.
*/
module Types {

  datatype Option<+T> = None | Some(value: T)

  /** The exceptions the modelled code can raise, one constructor per Java class. */
  datatype Error =
    | IllegalArgument      // java.lang.IllegalArgumentException
    | NoSuchElement        // java.util.NoSuchElementException
    | NullPointer          // java.lang.NullPointerException
    | Arithmetic           // java.lang.ArithmeticException (integer division by zero)
    | IndexOutOfBounds     // java.lang.IndexOutOfBoundsException
    | Db                   // simpledb.DbException
    | IO                   // java.io.IOException

  datatype Result<+T> = Ok(value: T) | Err(error: Error)

  /** Transaction ids are opaque: they are passed through and never inspected. */
  type TxnId = nat

  // ---------------------------------------------------------------------------
  // Java `int`
  // ---------------------------------------------------------------------------

  const TwoTo31: int := 0x8000_0000
  const TwoTo32: int := 0x1_0000_0000

  /** `Integer.MIN_VALUE` and `Integer.MAX_VALUE`. */
  const IntMin: int := -0x8000_0000
  const IntMax: int := 0x7fff_ffff

  type Int32 = x: int | -0x8000_0000 <= x <= 0x7fff_ffff

  /** The value a Java `int` holds after an arithmetic result `x` wraps around. */
  function Wrap32(x: int): (r: Int32)
    ensures (x - r) % TwoTo32 == 0
    ensures IntMin <= x <= IntMax ==> r == x
  {
    (x + TwoTo31) % TwoTo32 - TwoTo31
  }

  /** Wrapping an intermediate result does not change the final wrapped value. */
  lemma Wrap32Add(x: int, y: int)
    ensures Wrap32(Wrap32(x) + y) == Wrap32(x + y)
  {
    var q := (x + TwoTo31) / TwoTo32;
    assert Wrap32(x) == x - q * TwoTo32;
    var a := x + y + TwoTo31;
    assert Wrap32(x) + y + TwoTo31 == a - q * TwoTo32;
    ModShift(a, q);
  }

  lemma ModShift(a: int, q: int)
    ensures (a - q * TwoTo32) % TwoTo32 == a % TwoTo32
  {
    var b := a - q * TwoTo32;
    assert a == (a / TwoTo32) * TwoTo32 + a % TwoTo32;
    assert b == (a / TwoTo32 - q) * TwoTo32 + a % TwoTo32;
  }

  function Abs(x: int): nat { if x < 0 then -x else x }

  /**
    Integer division rounding toward zero, as Java's `/` does on `int`
    (section 15.17.2 of the Java Language Specification); Dafny's own `/`
    is Euclidean. For a positive divisor the remainder `a - q * b` takes the
    sign of the dividend and is smaller than the divisor in magnitude.
  */
  function TruncDiv(a: int, b: int): (q: int)
    requires b != 0
    ensures b > 0 && a >= 0 ==> 0 <= a - q * b < b
    ensures b > 0 && a < 0 ==> -b < a - q * b <= 0
    ensures b > 0 ==> Abs(q) <= Abs(a)
  {
    var m := Abs(a) / Abs(b);
    NatDivFacts(Abs(a), Abs(b));
    if (a < 0) == (b < 0) then m else -m
  }

  lemma NatDivFacts(x: nat, y: nat)
    requires y > 0
    ensures 0 <= x - (x / y) * y < y
    ensures x / y <= x
  {
    var m := x / y;
    assert x == m * y + x % y;
    assert m * y >= m by {
      MulMonotone(m, y);
    }
  }

  lemma MulMonotone(m: nat, y: nat)
    requires y >= 1
    ensures m * y >= m
  {
  }

  /** Java's `a / b` on two `int`s: truncating, and `IntMin / -1` wraps to `IntMin`. */
  function JavaDiv(a: Int32, b: Int32): (r: Int32)
    requires b != 0
    ensures b > 0 ==> r == TruncDiv(a, b)
  {
    Wrap32(TruncDiv(a, b))
  }

  // ---------------------------------------------------------------------------
  // Fields, tuples and descriptors
  // ---------------------------------------------------------------------------

  datatype Type = IntType | StringType

  datatype Field = IntField(n: Int32) | StringField(s: string)

  function TypeOf(f: Field): Type
  {
    match f
    case IntField(_) => IntType
    case StringField(_) => StringType
  }

  /** An ordered list of (type, name) columns; an anonymous column has the name "". */
  datatype TupleDesc = TupleDesc(types: seq<Type>, names: seq<string>)
  {
    predicate Valid() { |types| == |names| }
    function NumFields(): nat { |types| }
  }

  /** Address of a stored tuple: page number within its heap file and slot index. */
  datatype RecordId = RecordId(pageNo: nat, slot: nat)

  /** A row; `rid` is present for tuples read from storage, absent for synthesised ones. */
  datatype Tuple = Tuple(fields: seq<Field>, rid: Option<RecordId>)

  /** `t` has the shape `td` describes: same arity, and each field of the declared type. */
  predicate Conforms(t: Tuple, td: TupleDesc)
  {
    && |t.fields| == |td.types|
    && forall i :: 0 <= i < |t.fields| ==> TypeOf(t.fields[i]) == td.types[i]
  }

  /** `Aggregator.Op`. */
  datatype Op = Min | Max | Sum | Avg | Count
}
