/** The plans that src/observer/sql/optimizer/logical_plan_generator.cpp builds for statements, and
    what the optimizer does to them. */
module Statements {
  import opened Expressions
  import opened ExpressionRules
  import opened RewriteMeaning
  import opened RewriteMisfire
  import opened Plans
  import opened OptimizerCorrectness

  // ----- Plan generation

  /** `FROM t0, t1, ...`: a left-deep tree of joins. */
  function LeftDeep(tables: seq<nat>): Plan
    requires tables != []
  {
    var n := |tables| - 1;
    var last := Node(TableGet(tables[n]), [], [], []);
    if n == 0 then last else Node(Join, [], [], [LeftDeep(tables[..n]), last])
  }

  function WithFilter(source: Plan, hasOr: bool, conditions: seq<Expr>): Plan {
    if conditions == [] then source
    else Node(Predicate, [Conjunction(!hasOr, conditions)], [], [source])
  }

  function WithPipes(p: Plan, pipes: seq<nat>): Plan {
    if pipes == [] then p
    else Node(Pipe(pipes[|pipes| - 1]), [], [], [WithPipes(p, pipes[..|pipes| - 1])])
  }

  /** The plan of a statement: its tables, the conditions of its WHERE clause, and the operators
      on top, the innermost first. */
  function Generated(tables: seq<nat>, hasOr: bool, conditions: seq<Expr>, pipes: seq<nat>): Plan
    requires tables != []
  {
    WithPipes(WithFilter(LeftDeep(tables), hasOr, conditions), pipes)
  }

  method CreatePlan(tables: seq<nat>, hasOr: bool, conditions: seq<Expr>, pipes: seq<nat>) returns (root: Plan)
    requires tables != []
    ensures root == Generated(tables, hasOr, conditions, pipes)
  {
    root := Node(TableGet(tables[0]), [], [], []);
    assert tables[..1] == [tables[0]];
    for i := 1 to |tables|
      invariant root == LeftDeep(tables[..i])
    {
      root := Node(Join, [], [], [root, Node(TableGet(tables[i]), [], [], [])]);
      assert tables[..i + 1][..i] == tables[..i];
    }
    assert tables[..|tables|] == tables;
    if conditions != [] {
      root := Node(Predicate, [Conjunction(!hasOr, conditions)], [], [root]);
    }
    ghost var filtered := root;
    for i := 0 to |pipes|
      invariant root == WithPipes(filtered, pipes[..i])
    {
      root := Node(Pipe(pipes[i]), [], [], [root]);
      assert pipes[..i + 1][..i] == pipes[..i];
    }
    assert pipes[..|pipes|] == pipes;
  }

  // ----- What the optimizer does to a statement

  lemma {:induction false} LeftDeepIsSource(tables: seq<nat>)
    requires tables != []
    ensures Source(LeftDeep(tables))
    decreases |tables|
  {
    if |tables| > 1 {
      LeftDeepIsSource(tables[..|tables| - 1]);
    }
  }

  lemma {:induction false} PipesShape(p: Plan, pipes: seq<nat>, stage: nat)
    requires Shape(p, stage)
    ensures Shape(WithPipes(p, pipes), stage)
    ensures pipes != [] ==> WithPipes(p, pipes).kind.Pipe?
    decreases |pipes|
  {
    if pipes != [] {
      PipesShape(p, pipes[..|pipes| - 1], stage);
    }
  }

  lemma GeneratedShape(tables: seq<nat>, hasOr: bool, conditions: seq<Expr>, pipes: seq<nat>)
    requires tables != [] && forall c <- conditions :: Atom(c)
    ensures Shape(Generated(tables, hasOr, conditions, pipes), 0)
    ensures pipes != [] ==> Generated(tables, hasOr, conditions, pipes).kind.Pipe?
  {
    LeftDeepIsSource(tables);
    var p := WithFilter(LeftDeep(tables), hasOr, conditions);
    assert Shape(p, 0);
    PipesShape(p, pipes, 0);
  }

  lemma {:induction false} PipesRead<Row>(w: World<Row>, a: Reading, b: Reading, p: Plan, pipes: seq<nat>)
    requires Rows(w, a, p) == Rows(w, b, p)
    ensures Rows(w, a, WithPipes(p, pipes)) == Rows(w, b, WithPipes(p, pipes))
    decreases |pipes|
  {
    if pipes != [] {
      PipesRead(w, a, b, p, pipes[..|pipes| - 1]);
    }
  }

  /** Reading the WHERE clause as the rewriting will leave it makes no difference when the two
      readings agree on every row. */
  lemma GeneratedReads<Row>(w: World<Row>, rule: Rule, tables: seq<nat>, hasOr: bool, conditions: seq<Expr>,
                            pipes: seq<nat>)
    requires tables != [] && forall c <- conditions :: Atom(c)
    requires rule.AsWritten? ==> Harmless(w.ops, !hasOr, conditions)
    ensures var p := Generated(tables, hasOr, conditions, pipes);
      Rows(w, Rewriting(rule), p) == Rows(w, Plain, p)
  {
    var source := LeftDeep(tables);
    LeftDeepIsSource(tables);
    SourceReads(w, rule, source);
    var filtered := WithFilter(source, hasOr, conditions);
    if conditions != [] {
      var e := Conjunction(!hasOr, conditions);
      var rows := Rows(w, Plain, source);
      forall r | r in rows ensures Meets(w, Rewriting(rule), e, r) == Meets(w, Plain, e, r) {
        if rule.AsWritten? {
          HarmlessIsRight(w, !hasOr, conditions, r);
        } else {
          IntendedOutcome(w, !hasOr, conditions, r);
        }
      }
      SelectAgrees(w, Rewriting(rule), e, Plain, e, rows);
    }
    PipesRead(w, Rewriting(rule), Plain, filtered, pipes);
  }

  /** For every statement and every database: the optimized plan yields, in the same order, the
      rows of the generated plan whose WHERE clause is read as its outcome under the rule; that is
      the clause itself when it is harmless. No pass loses a filter. */
  lemma OptimizedPlanYields<Row>(w: World<Row>, tables: seq<nat>, hasOr: bool, conditions: seq<Expr>, pipes: seq<nat>)
    requires tables != [] && pipes != [] && forall c <- conditions :: Atom(c)
    ensures var p := Generated(tables, hasOr, conditions, pipes);
      var q := Fixpoint(AsWritten, w.ops, p);
      && Rows(w, Plain, q) == Rows(w, Rewriting(AsWritten), p)
      && (Harmless(w.ops, !hasOr, conditions) ==> Rows(w, Plain, q) == Rows(w, Plain, p))
      && !RunOverwrites(AsWritten, w.ops, p)
  {
    var p := Generated(tables, hasOr, conditions, pipes);
    GeneratedShape(tables, hasOr, conditions, pipes);
    FixpointKeepsRows(w, AsWritten, p, 0);
    if Harmless(w.ops, !hasOr, conditions) {
      GeneratedReads(w, AsWritten, tables, hasOr, conditions, pipes);
    }
  }

  /** The optimizer keeps the rows of the statement in every database. */
  ghost predicate KeepsRows(ops: Ops, p: Plan) {
    forall w: World<int> :: w.ops == ops ==> Rows(w, Plain, Fixpoint(AsWritten, ops, p)) == Rows(w, Plain, p)
  }

  /** In a database of one row, the tables and their joins have that row. */
  lemma {:induction false} OneRow(w: World<int>, tables: seq<nat>)
    requires tables != [] && (forall t :: w.table(t) == [0]) && w.joined(0, 0) == 0
    ensures Rows(w, Plain, LeftDeep(tables)) == [0]
    decreases |tables|
  {
    var n := |tables| - 1;
    assert [0][1..] == [];
    var last := Node(TableGet(tables[n]), [], [], []);
    assert Holds(w, true, [], 0) && Scan(w, [], [0]) == [0] + Scan(w, [], []);
    assert Rows(w, Plain, last) == [0];
    if n > 0 {
      OneRow(w, tables[..n]);
      assert PairWith(w, 0, [0]) == [0] + PairWith(w, 0, []);
      assert Cross(w, [0], [0]) == [0] + Cross(w, [], [0]);
      assert Rows(w, Plain, LeftDeep(tables)) == Cross(w, Rows(w, Plain, LeftDeep(tables[..n])), Rows(w, Plain, last));
    }
  }

  lemma {:induction false} PipesPassOn(w: World<int>, how: Reading, p: Plan, pipes: seq<nat>)
    requires forall k, rows :: w.pipe(k, rows) == rows
    ensures Rows(w, how, WithPipes(p, pipes)) == Rows(w, how, p)
    decreases |pipes|
  {
    if pipes != [] {
      PipesPassOn(w, how, p, pipes[..|pipes| - 1]);
    }
  }

  lemma HarmIsVisible(ops: Ops, tables: seq<nat>, hasOr: bool, conditions: seq<Expr>, pipes: seq<nat>)
    requires tables != [] && pipes != [] && forall c <- conditions :: Atom(c)
    requires !Harmless(ops, !hasOr, conditions)
    ensures !KeepsRows(ops, Generated(tables, hasOr, conditions, pipes))
  {
    var left, a, b := MisfireIsVisible(ops, !hasOr, conditions);
    var w := TwoValues(ops, left, a, b);
    var source, p := LeftDeep(tables), Generated(tables, hasOr, conditions, pipes);
    var e, filtered := Conjunction(!hasOr, conditions), WithFilter(source, hasOr, conditions);
    OptimizedPlanYields(w, tables, hasOr, conditions, pipes);
    OneRow(w, tables);
    LeftDeepIsSource(tables);
    SourceReads(w, AsWritten, source);
    PipesPassOn(w, Plain, filtered, pipes);
    PipesPassOn(w, Rewriting(AsWritten), filtered, pipes);
    hide LeftDeep, Fixpoint, RunOverwrites, Outcome, Harmless;
    SelectOne(w, Plain, e);
    SelectOne(w, Rewriting(AsWritten), e);
    assert Rows(w, Plain, Fixpoint(AsWritten, ops, p)) != Rows(w, Plain, p);
  }

  lemma SelectOne(w: World<int>, how: Reading, e: Expr)
    ensures Select(w, how, e, [0]) == if Meets(w, how, e, 0) then [0] else []
  {
    assert [0][1..] == [];
  }

  /** For given comparison and truth of values: the optimizer keeps the rows of a statement in all
      databases if and only if its WHERE clause is harmless. */
  lemma KeepsRowsIffHarmless(ops: Ops, tables: seq<nat>, hasOr: bool, conditions: seq<Expr>, pipes: seq<nat>)
    requires tables != [] && pipes != [] && forall c <- conditions :: Atom(c)
    ensures KeepsRows(ops, Generated(tables, hasOr, conditions, pipes)) <==> Harmless(ops, !hasOr, conditions)
  {
    if Harmless(ops, !hasOr, conditions) {
      forall w: World<int> | w.ops == ops
        ensures var p := Generated(tables, hasOr, conditions, pipes);
          Rows(w, Plain, Fixpoint(AsWritten, ops, p)) == Rows(w, Plain, p)
      {
        OptimizedPlanYields(w, tables, hasOr, conditions, pipes);
      }
    } else {
      HarmIsVisible(ops, tables, hasOr, conditions, pipes);
    }
  }

  /** With the intended rule the optimizer keeps the rows of every statement. */
  lemma IntendedOptimizerKeepsRows<Row>(w: World<Row>, tables: seq<nat>, hasOr: bool, conditions: seq<Expr>,
                                        pipes: seq<nat>)
    requires tables != [] && pipes != [] && forall c <- conditions :: Atom(c)
    ensures var p := Generated(tables, hasOr, conditions, pipes);
      Rows(w, Plain, Fixpoint(Intended, w.ops, p)) == Rows(w, Plain, p)
  {
    GeneratedShape(tables, hasOr, conditions, pipes);
    FixpointKeepsRows(w, Intended, Generated(tables, hasOr, conditions, pipes), 0);
    GeneratedReads(w, Intended, tables, hasOr, conditions, pipes);
  }
}
