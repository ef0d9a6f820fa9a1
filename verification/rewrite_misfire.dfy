/** When the conjunction rule of the code keeps the meaning of a WHERE clause, and when not
    (src/observer/sql/optimizer/conjunction_simplification_rule.cpp). */
module RewriteMisfire {
  import opened Expressions
  import opened ExpressionRules
  import opened RewriteMeaning

  /** The guard of the failing branches: among two or more conditions, a constant decides and an
      earlier condition is not constant, or an OR consists of false constants. */
  predicate Misfires(ops: Ops, isAnd: bool, cs: seq<Expr>) {
    var fs := FoldAll(ops, cs);
    |cs| >= 2 &&
    if Decided(isAnd, fs) then Undecided(BeforeDecision(isAnd, fs)) != []
    else !isAnd && Undecided(fs) == []
  }

  lemma {:induction false} FoldAllHolds<Row>(w: World<Row>, isAnd: bool, cs: seq<Expr>, r: Row)
    ensures Holds(w, isAnd, FoldAll(w.ops, cs), r) == Holds(w, isAnd, cs, r)
  {
    if cs != [] {
      FoldKeepsValue(w, cs[0], r);
      FoldAllHolds(w, isAnd, cs[1..], r);
      assert FoldAll(w.ops, cs)[1..] == FoldAll(w.ops, cs[1..]);
    }
  }

  /** Row by row: the outcome is what the clause says, unless the rule misfires; and then only if
      the condition it kept happens to have the deciding value on the row. */
  lemma OutcomeExact<Row>(w: World<Row>, isAnd: bool, cs: seq<Expr>, r: Row)
    requires forall c <- cs :: Atom(c)
    ensures var fs := FoldAll(w.ops, cs);
      Outcome(w, AsWritten, Conjunction(isAnd, cs), r) == True(w, Conjunction(isAnd, cs), r)
      <==> (Misfires(w.ops, isAnd, cs) ==>
              Decided(isAnd, fs) && True(w, Undecided(BeforeDecision(isAnd, fs))[0], r) == !isAnd)
  {
    if |cs| == 1 {
      assert Atom(cs[0]);
      HoldsMeaning(w, isAnd, cs, r);
    } else {
      var fs := FoldAll(w.ops, cs);
      FoldAllHolds(w, isAnd, cs, r);
      if Decided(isAnd, fs) {
        DecidedHolds(w, isAnd, fs, r);
      } else {
        UndecidedHolds(w, isAnd, fs, r);
        HoldsMeaning(w, isAnd, Undecided(fs), r);
      }
    }
  }

  /** The intended rule keeps the meaning of every clause. */
  lemma IntendedOutcome<Row>(w: World<Row>, isAnd: bool, cs: seq<Expr>, r: Row)
    requires forall c <- cs :: Atom(c)
    ensures Outcome(w, Intended, Conjunction(isAnd, cs), r) == True(w, Conjunction(isAnd, cs), r)
  {
    if |cs| == 1 {
      assert Atom(cs[0]);
      HoldsMeaning(w, isAnd, cs, r);
    } else {
      FoldAllHolds(w, isAnd, cs, r);
      IntendedSimplifyKeepsTruth(w, isAnd, FoldAll(w.ops, cs), r);
    }
  }

  // ----- When the rule is right in every database

  /** Value `v` is what leaf `e` can have: any value, unless it is a constant. */
  predicate FitsLeaf(e: Expr, v: Val) {
    e.Value? ==> e.v == v
  }

  /** A comparison that has the deciding truth whatever values its sides have. */
  ghost predicate Steadfast(ops: Ops, isAnd: bool, c: Expr) {
    c.Comparison? &&
    forall a: Val, b: Val {:trigger ops.compare(c.op, a, b)} ::
      FitsLeaf(c.left, a) && FitsLeaf(c.right, b) && (c.left == c.right ==> a == b)
      ==> ops.compare(c.op, a, b) == !isAnd
  }

  /** The rule does not misfire, or the condition that it keeps always has the deciding truth. */
  ghost predicate Harmless(ops: Ops, isAnd: bool, cs: seq<Expr>) {
    Misfires(ops, isAnd, cs) ==>
      var fs := FoldAll(ops, cs);
      Decided(isAnd, fs) && Steadfast(ops, isAnd, Undecided(BeforeDecision(isAnd, fs))[0])
  }

  lemma KeptIsOpen(ops: Ops, isAnd: bool, cs: seq<Expr>)
    requires (forall c <- cs :: Atom(c)) && Misfires(ops, isAnd, cs) && Decided(isAnd, FoldAll(ops, cs))
    ensures Open(Undecided(BeforeDecision(isAnd, FoldAll(ops, cs)))[0])
  {
    var fs := FoldAll(ops, cs);
    var before := BeforeDecision(isAnd, fs);
    BeforeDecisionMembers(isAnd, fs);
    UndecidedMembers(before);
    FoldAllCloses(ops, cs);
    assert Undecided(before)[0] in Undecided(before);
  }

  lemma SteadfastHolds<Row>(w: World<Row>, isAnd: bool, c: Expr, r: Row)
    requires Atom(c) && Steadfast(w.ops, isAnd, c)
    ensures True(w, c, r) == !isAnd
  {
    var a, b := Eval(w, c.left, r), Eval(w, c.right, r);
    assert FitsLeaf(c.left, a) && FitsLeaf(c.right, b);
  }

  /** A harmless clause keeps its meaning on every row of every database. */
  lemma HarmlessIsRight<Row>(w: World<Row>, isAnd: bool, cs: seq<Expr>, r: Row)
    requires (forall c <- cs :: Atom(c)) && Harmless(w.ops, isAnd, cs)
    ensures Outcome(w, AsWritten, Conjunction(isAnd, cs), r) == True(w, Conjunction(isAnd, cs), r)
  {
    OutcomeExact(w, isAnd, cs, r);
    if Misfires(w.ops, isAnd, cs) {
      KeptIsOpen(w.ops, isAnd, cs);
      SteadfastHolds(w, isAnd, Undecided(BeforeDecision(isAnd, FoldAll(w.ops, cs)))[0], r);
    }
  }

  /** A database of one row in which leaf `left` has the value `a` and every other one `b`. */
  function TwoValues(ops: Ops, left: Expr, a: Val, b: Val): World<int> {
    World(
      ops,
      (_, id) => if left == Field(id) then a else b,
      (_, id) => if left == Other(id) then a else b,
      _ => [0], (l, _) => l, (_, rows) => rows)
  }

  /** Where the condition kept does not have the deciding truth. */
  lemma NotSteadfast(ops: Ops, isAnd: bool, c: Expr) returns (left: Expr, a: Val, b: Val)
    requires Open(c) && !Steadfast(ops, isAnd, c)
    ensures forall r :: True(TwoValues(ops, left, a, b), c, r) == isAnd
  {
    if c.Comparison? {
      a, b :| FitsLeaf(c.left, a) && FitsLeaf(c.right, b) && (c.left == c.right ==> a == b)
              && ops.compare(c.op, a, b) == isAnd;
      left := c.left;
      var w := TwoValues(ops, left, a, b);
      forall r ensures True(w, c, r) == isAnd {
        assert Eval(w, c.left, r) == a && Eval(w, c.right, r) == b;
      }
    } else {
      left, a, b := c, Bool(isAnd), Bool(isAnd);
    }
  }

  /** A harmful misfire is wrong in some database with the same comparison and truth of values. */
  lemma MisfireIsVisible(ops: Ops, isAnd: bool, cs: seq<Expr>) returns (left: Expr, a: Val, b: Val)
    requires (forall c <- cs :: Atom(c)) && !Harmless(ops, isAnd, cs)
    ensures forall r ::
      Outcome(TwoValues(ops, left, a, b), AsWritten, Conjunction(isAnd, cs), r)
      != True(TwoValues(ops, left, a, b), Conjunction(isAnd, cs), r)
  {
    var fs := FoldAll(ops, cs);
    left, a, b := Field(0), Bool(true), Bool(true);
    if Decided(isAnd, fs) {
      KeptIsOpen(ops, isAnd, cs);
      left, a, b := NotSteadfast(ops, isAnd, Undecided(BeforeDecision(isAnd, fs))[0]);
    }
    var w := TwoValues(ops, left, a, b);
    forall r
      ensures Outcome(w, AsWritten, Conjunction(isAnd, cs), r) != True(w, Conjunction(isAnd, cs), r)
    {
      OutcomeExact(w, isAnd, cs, r);
    }
  }

  /** The rule keeps the meaning of the clause on every row of every database. */
  ghost predicate Right(ops: Ops, isAnd: bool, cs: seq<Expr>) {
    forall w: World<int>, r: int :: w.ops == ops ==>
      Outcome(w, AsWritten, Conjunction(isAnd, cs), r) == True(w, Conjunction(isAnd, cs), r)
  }

  /** For given comparison and truth of values: the rule is right in all databases if and only if the
      clause is harmless. */
  lemma RightIffHarmless(ops: Ops, isAnd: bool, cs: seq<Expr>)
    requires forall c <- cs :: Atom(c)
    ensures Right(ops, isAnd, cs) <==> Harmless(ops, isAnd, cs)
  {
    if Harmless(ops, isAnd, cs) {
      forall w: World<int>, r: int | w.ops == ops
        ensures Outcome(w, AsWritten, Conjunction(isAnd, cs), r) == True(w, Conjunction(isAnd, cs), r)
      {
        HarmlessIsRight(w, isAnd, cs, r);
      }
    } else {
      var left, a, b := MisfireIsVisible(ops, isAnd, cs);
      var w := TwoValues(ops, left, a, b);
      assert w.ops == ops && Outcome(w, AsWritten, Conjunction(isAnd, cs), 0) != True(w, Conjunction(isAnd, cs), 0);
    }
  }

  /** `WHERE a > 3 AND 1 = 2`, in this order, comes to `a > 3`. */
  lemma MisfireExample(ops: Ops)
    requires !ops.compare(EqualTo, Datum(1), Datum(2))
    ensures var a := Comparison(GreatThan, Field(0), Value(Datum(3)));
      var never := Comparison(EqualTo, Value(Datum(1)), Value(Datum(2)));
      && Misfires(ops, true, [a, never]) && !Misfires(ops, true, [never, a])
      && Rewrite(AsWritten, ops, Rewrite(AsWritten, ops, Conjunction(true, [a, never])).expr).expr == a
  {
    var a := Comparison(GreatThan, Field(0), Value(Datum(3)));
    var never := Comparison(EqualTo, Value(Datum(1)), Value(Datum(2)));
    var no := Value(Bool(false));
    assert [never][1..] == [] && [a, never][1..] == [never] && [never, a][1..] == [a] && [a][1..] == [];
    assert FoldAll(ops, [never]) == [no] && FoldAll(ops, [a]) == [a];
    assert FoldAll(ops, [a, never]) == [a, no] && FoldAll(ops, [never, a]) == [no, a];
    assert [a, no][1..] == [no] && BeforeDecision(true, [no]) == [];
    assert BeforeDecision(true, [a, no]) == [a] && Undecided([a]) == [a];
    assert BeforeDecision(true, [no, a]) == [];
    assert Decides(true, [a, no][1]) && Decides(true, [no, a][0]);
    RewriteWithoutConsts(AsWritten, ops, Conjunction(true, [a, never]));
    RewriteWithoutFolds(AsWritten, ops, Conjunction(true, [a, no]));
  }

  /** `WHERE a > NULL AND 1 = 2` misfires too, but comparing with NULL is false, and so is what is
      kept. */
  lemma NullIsHarmless(ops: Ops, nothing: Val)
    requires forall v: Val {:trigger ops.compare(GreatThan, v, nothing)} :: !ops.compare(GreatThan, v, nothing)
    requires !ops.compare(EqualTo, Datum(1), Datum(2))
    ensures
      var a := Comparison(GreatThan, Field(0), Value(nothing));
      var never := Comparison(EqualTo, Value(Datum(1)), Value(Datum(2)));
      Misfires(ops, true, [a, never]) && Harmless(ops, true, [a, never]) && Right(ops, true, [a, never])
  {
    var a := Comparison(GreatThan, Field(0), Value(nothing));
    var never := Comparison(EqualTo, Value(Datum(1)), Value(Datum(2)));
    var no := Value(Bool(false));
    assert [never][1..] == [] && [a, never][1..] == [never] && [a][1..] == [];
    assert FoldAll(ops, [never]) == [no];
    assert FoldAll(ops, [a, never]) == [a, no] && [a, no][1..] == [no] && BeforeDecision(true, [no]) == [];
    assert BeforeDecision(true, [a, no]) == [a] && Undecided([a]) == [a] && Decides(true, [a, no][1]);
    RightIffHarmless(ops, true, [a, never]);
  }
}
