/** WHERE clauses: a small expression tree, its truth on a row, and its translation to a predicate. */
module Where {
  import Lex
  import opened Plans
  import opened Schemas
  import opened Values

  datatype BinaryOp = AndOp | OrOp | EqOp | NotEqOp | GtOp | LtOp | GtEqOp | LtEqOp | OtherOp

  datatype Expr =
    | Identifier(name: string)
    | Constant(v: Value)
    | Binary(left: Expr, op: BinaryOp, right: Expr)
    | Nested(inner: Expr)
    | Call(f: FunctionCall)
    | OtherExpr

  /** A call by the first part of its name, in upper case. */
  datatype FunctionCall = FunctionCall(name: string, args: seq<FunctionArg>)

  datatype FunctionArg = ColumnArg(column: string) | WildcardArg | OtherArg

  predicate IsOrder(op: BinaryOp) {
    op.GtOp? || op.LtOp? || op.GtEqOp? || op.LtEqOp?
  }

  predicate IsComparison(op: BinaryOp) {
    op.EqOp? || op.NotEqOp? || IsOrder(op)
  }

  function ToCmpOp(op: BinaryOp): CmpOp
    requires IsComparison(op)
  {
    match op
    case EqOp => Eq
    case NotEqOp => Ne
    case GtOp => Gt
    case LtOp => Lt
    case GtEqOp => Ge
    case LtEqOp => Le
  }

  /** A comparison read left to right: integers as numbers, strings in byte order, and equality of any
      two values; no other values are ordered. */
  predicate Reads(v: Value, op: BinaryOp, w: Value) {
    match op
    case EqOp => v == w
    case NotEqOp => v != w
    case GtOp => IsAbove(v, w)
    case LtOp => IsAbove(w, v)
    case GtEqOp => IsAbove(v, w) || (v == w && (v.Int64? || v.Str?))
    case LtEqOp => IsAbove(w, v) || (v == w && (v.Int64? || v.Str?))
    case _ => false
  }

  /** The executor's operators mean what the clause's operators say. */
  lemma OperatorsRead(v: Value, op: BinaryOp, w: Value)
    requires IsComparison(op)
    ensures Holds(ToCmpOp(op), v, w) <==> Reads(v, op, w)
  {
    CompareMeans(v, w);
  }

  /** Only literals are values. */
  function ToValue(e: Expr): Result<Value> {
    if e.Constant? then Success(e.v) else Failure(Unsupported)
  }

  function ToFilter(e: Expr): Result<FilterExpr> {
    match e
    case Binary(l, op, r) =>
      if op.AndOp? || op.OrOp? then
        var a :- ToFilter(l);
        var b :- ToFilter(r);
        Success(if op.AndOp? then And(a, b) else Or(a, b))
      else if op.EqOp? then
        if l.Identifier? && r.Constant? then Success(Cmp(l.name, Eq, r.v))
        else if l.Constant? && r.Identifier? then Success(Cmp(r.name, Eq, l.v))
        else Failure(Unsupported)
      else if op.NotEqOp? then
        if l.Identifier? && r.Constant? then Success(Cmp(l.name, Ne, r.v)) else Failure(Unsupported)
      else if !IsOrder(op) then Failure(Unsupported)
      else if l.Identifier? then
        var v :- ToValue(r);
        Success(Cmp(l.name, ToCmpOp(op), v))
      else if r.Identifier? then
        var v :- ToValue(l);
        Success(Cmp(r.name, ToCmpOp(op), v))
      else Failure(Unsupported)
    case Constant(v) => if v.Bool? then Success(Literal(v.b)) else Failure(Unsupported)
    case Nested(inner) => ToFilter(inner)
    case _ => Failure(Unsupported)
  }

  function Operand(e: Expr, row: Row, schema: Schema): Option<Value> {
    match e
    case Identifier(c) => NamedCell(row, schema, c)
    case Constant(v) => Some(v)
    case _ => None
  }

  /** What the clause says of a row, each comparison read left to right. */
  predicate Truth(e: Expr, row: Row, schema: Schema) {
    match e
    case Binary(l, op, r) =>
      if op.AndOp? then Truth(l, row, schema) && Truth(r, row, schema)
      else if op.OrOp? then Truth(l, row, schema) || Truth(r, row, schema)
      else
        var (a, b) := (Operand(l, row, schema), Operand(r, row, schema));
        a.Some? && b.Some? && Reads(a.value, op, b.value)
    case Constant(v) => v.Bool? && v.b
    case Nested(inner) => Truth(inner, row, schema)
    case _ => false
  }

  /** No order comparison has its literal on the left. */
  predicate ColumnsOnLeft(e: Expr) {
    match e
    case Binary(l, op, r) =>
      if op.AndOp? || op.OrOp? then ColumnsOnLeft(l) && ColumnsOnLeft(r)
      else IsOrder(op) ==> !l.Constant?
    case Nested(inner) => ColumnsOnLeft(inner)
    case _ => true
  }

  lemma ComparisonTranslates(l: Expr, op: BinaryOp, r: Expr, row: Row, schema: Schema)
    requires !op.AndOp? && !op.OrOp? && ToFilter(Binary(l, op, r)).Success? && (IsOrder(op) ==> !l.Constant?)
    ensures EvalPredicate(row, ToFilter(Binary(l, op, r)).value, schema) == Truth(Binary(l, op, r), row, schema)
  {
    var (a, b) := (Operand(l, row, schema), Operand(r, row, schema));
    if a.Some? && b.Some? {
      OperatorsRead(a.value, op, b.value);
    }
  }

  /** A comparison of a column with a literal holds of a row exactly when the row has a cell there that is
      in this relation to the literal. */
  lemma ComparisonMeans(c: string, op: BinaryOp, v: Value, row: Row, schema: Schema)
    requires IsComparison(op)
    ensures
      var pred := ToFilter(Binary(Identifier(c), op, Constant(v)));
      pred.Success? &&
      (EvalPredicate(row, pred.value, schema)
       <==> c in schema.nameToIndex && schema.nameToIndex[c] < |row| && Reads(row[schema.nameToIndex[c]], op, v))
  {
    if c in schema.nameToIndex && schema.nameToIndex[c] < |row| {
      OperatorsRead(row[schema.nameToIndex[c]], op, v);
    }
  }

  /** The translation of a nested clause holds of exactly the rows that satisfy the clause. */
  lemma {:induction false} TranslationPreservesTruth(e: Expr, row: Row, schema: Schema)
    requires ColumnsOnLeft(e) && ToFilter(e).Success?
    ensures EvalPredicate(row, ToFilter(e).value, schema) == Truth(e, row, schema)
  {
    match e
    case Binary(l, op, r) =>
      if op.AndOp? || op.OrOp? {
        TranslationPreservesTruth(l, row, schema);
        TranslationPreservesTruth(r, row, schema);
      } else {
        ComparisonTranslates(l, op, r, row, schema);
      }
    case Nested(inner) => TranslationPreservesTruth(inner, row, schema);
    case _ =>
  }

  ghost predicate AgreesEverywhere(e: Expr) {
    ToFilter(e).Success? &&
    forall row, schema :: EvalPredicate(row, ToFilter(e).value, schema) == Truth(e, row, schema)
  }

  /** A cell that the literal `v` compares with but does not equal. */
  function Other(v: Value): Value
    requires v.Int64? || v.Str?
  {
    match v
    case Int64(x) => Int64(if x < I64_MAX then x + 1 else x - 1)
    case Str(s) => Str(s + [97])
  }

  /** With the literal on the left the operator is kept as written, so an order comparison means the
      opposite of what it says; it is harmless exactly when the literal compares with nothing. */
  lemma LiteralOnLeftIff(v: Value, op: BinaryOp, c: string)
    requires IsOrder(op)
    ensures AgreesEverywhere(Binary(Constant(v), op, Identifier(c))) <==> !v.Int64? && !v.Str?
  {
    var e := Binary(Constant(v), op, Identifier(c));
    if v.Int64? || v.Str? {
      var schema := NewSchema([Column(c, BigInt, true)]);
      var row := [Other(v)];
      assert NameIndex([Column(c, BigInt, true)][..0]) == map[];
      assert NamedCell(row, schema, c) == Some(Other(v));
      if v.Str? {
        AppendIsGreater(v.s, 97);
        assert CmpText(v.s, v.s + [97]) == Less;
        Lex.LtIsStrict(v.s, v.s + [97]);
        assert CmpText(v.s + [97], v.s) == Greater;
      }
      assert EvalPredicate(row, ToFilter(e).value, schema) != Truth(e, row, schema);
    }
  }

  lemma {:induction false} AppendIsGreater(s: Utf8, x: CodeUnit)
    ensures Lex.Lt(s, s + [x])
  {
    if s != [] {
      assert (s + [x])[1..] == s[1..] + [x];
      AppendIsGreater(s[1..], x);
    }
  }
}
