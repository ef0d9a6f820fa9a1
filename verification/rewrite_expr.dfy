/** src/observer/sql/expr/expression.cpp: the expressions a filter is made of, and their values. */
module Expressions {

  datatype CompOp =
    EqualTo | LessEqual | NotEqual | LessThan | GreatEqual | GreatThan | Like | NotLike | Is | IsNot

  /** A value: a boolean, or one of any other type, NULL included. */
  datatype Val = Bool(b: bool) | Datum(d: int)

  /** `Other` stands for the expressions no rule looks into: IN, EXISTS, subqueries, value lists
      and arithmetic. */
  datatype Expr =
    | Field(id: nat)
    | Value(v: Val)
    | Cast(child: Expr)  // to BOOLEANS, the only conversion there is
    | Comparison(op: CompOp, left: Expr, right: Expr)
    | Conjunction(isAnd: bool, children: seq<Expr>)
    | Other(id: nat)

  /** What the optimizer may evaluate: comparing two values, and the truth of a non-boolean one. */
  datatype Ops = Ops(compare: (CompOp, Val, Val) -> bool, truth: int -> bool)

  /** A database: the operations on values, the cells of a row, the value of an uninterpreted
      expression on a row, the rows of a table, the row that joins two rows, and what the other
      operators (projection, aggregation, order, update, delete) make of their input. */
  datatype World<!Row> = World(
    ops: Ops,
    cell: (Row, nat) -> Val,
    other: (Row, nat) -> Val,
    table: nat -> seq<Row>,
    joined: (Row, Row) -> Row,
    pipe: (nat, seq<Row>) -> seq<Row>)

  /** `Value::get_boolean`. */
  function Truth(ops: Ops, v: Val): bool {
    match v
    case Bool(b) => b
    case Datum(d) => ops.truth(d)
  }

  /** `get_value` of each expression class. */
  function Eval<Row>(w: World<Row>, e: Expr, r: Row): Val
    decreases e, 1
  {
    match e
    case Field(id) => w.cell(r, id)
    case Value(v) => v
    case Cast(c) => Bool(Truth(w.ops, Eval(w, c, r)))
    case Comparison(op, a, b) => Bool(w.ops.compare(op, Eval(w, a, r), Eval(w, b, r)))
    case Conjunction(isAnd, cs) => Bool(cs == [] || Holds(w, isAnd, cs, r))
    case Other(id) => w.other(r, id)
  }

  predicate True<Row>(w: World<Row>, e: Expr, r: Row) {
    Truth(w.ops, Eval(w, e, r))
  }

  /** The first child whose truth is not the neutral one decides; without one, the neutral truth. */
  predicate Holds<Row>(w: World<Row>, isAnd: bool, cs: seq<Expr>, r: Row)
    decreases cs, 0
  {
    if cs == [] then isAnd
    else if Truth(w.ops, Eval(w, cs[0], r)) != isAnd then !isAnd
    else Holds(w, isAnd, cs[1..], r)
  }

  lemma {:induction false} HoldsMeaning<Row>(w: World<Row>, isAnd: bool, cs: seq<Expr>, r: Row)
    ensures Holds(w, true, cs, r) <==> forall i :: 0 <= i < |cs| ==> True(w, cs[i], r)
    ensures Holds(w, false, cs, r) <==> exists i :: 0 <= i < |cs| && True(w, cs[i], r)
  {
    if cs != [] {
      HoldsMeaning(w, isAnd, cs[1..], r);
      assert forall i :: 0 <= i < |cs| - 1 ==> cs[1..][i] == cs[i + 1];
      if i :| 1 <= i < |cs| && True(w, cs[i], r) {
        assert True(w, cs[1..][i - 1], r);
      }
    }
  }

  /** `ConjunctionExpr::get_value`: all children of an AND, some child of an OR; without children
      the value is true, whichever it is. */
  method EvaluateConjunction<Row>(w: World<Row>, isAnd: bool, cs: seq<Expr>, r: Row) returns (v: Val)
    ensures v == Eval(w, Conjunction(isAnd, cs), r)
    ensures isAnd ==> (v == Bool(true) <==> forall i :: 0 <= i < |cs| ==> True(w, cs[i], r))
    ensures !isAnd && cs != [] ==> (v == Bool(true) <==> exists i :: 0 <= i < |cs| && True(w, cs[i], r))
  {
    HoldsMeaning(w, isAnd, cs, r);
    if cs == [] {
      return Bool(true);
    }
    for i := 0 to |cs|
      invariant Holds(w, isAnd, cs, r) == Holds(w, isAnd, cs[i..], r)
    {
      var b := Truth(w.ops, Eval(w, cs[i], r));
      if (isAnd && !b) || (!isAnd && b) {
        return Bool(b);
      }
      assert cs[i..][1..] == cs[i + 1..];
    }
    return Bool(isAnd);
  }

  lemma {:induction false} HoldsConcat<Row>(w: World<Row>, isAnd: bool, a: seq<Expr>, b: seq<Expr>, r: Row)
    ensures Holds(w, isAnd, a + b, r)
            == if isAnd then Holds(w, true, a, r) && Holds(w, true, b, r)
               else Holds(w, false, a, r) || Holds(w, false, b, r)
  {
    if a == [] {
      assert a + b == b;
    } else {
      HoldsConcat(w, isAnd, a[1..], b, r);
      assert (a + b)[1..] == a[1..] + b;
    }
  }

  /** Nodes of an expression; what `Other` holds is not counted, no rule changes it. */
  function Size(e: Expr): nat {
    match e
    case Cast(c) => 1 + Size(c)
    case Comparison(_, a, b) => 1 + Size(a) + Size(b)
    case Conjunction(_, cs) => 1 + Sizes(cs)
    case _ => 1
  }

  function Sizes(es: seq<Expr>): nat {
    if es == [] then 0 else Size(es[0]) + Sizes(es[1..])
  }

  lemma {:induction false} SizesConcat(a: seq<Expr>, b: seq<Expr>)
    ensures Sizes(a + b) == Sizes(a) + Sizes(b)
  {
    if a == [] {
      assert a + b == b;
    } else {
      SizesConcat(a[1..], b);
      assert (a + b)[1..] == a[1..] + b;
    }
  }

  lemma {:induction false} SizesMember(es: seq<Expr>, i: nat)
    requires i < |es|
    ensures Size(es[i]) <= Sizes(es)
  {
    if i > 0 {
      SizesMember(es[1..], i - 1);
    }
  }
}
