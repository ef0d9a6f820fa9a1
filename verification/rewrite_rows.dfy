/** The rows of a statement, said without plans, and that its plan yields them, before and after the
    optimizer has been at it. */
module RowsOfStatements {
  import opened Expressions
  import opened ExpressionRules
  import opened RewriteMeaning
  import opened RewriteMisfire
  import opened Plans
  import opened OptimizerCorrectness
  import opened Statements

  // ----- The reference

  /** One row with each row on the right. */
  function Pairs<Row>(w: World<Row>, l: Row, right: seq<Row>): seq<Row> {
    seq(|right|, j requires 0 <= j < |right| => w.joined(l, right[j]))
  }

  /** The left-major product. */
  function Product<Row>(w: World<Row>, left: seq<Row>, right: seq<Row>): seq<Row> {
    if left == [] then []
    else Product(w, left[..|left| - 1], right) + Pairs(w, left[|left| - 1], right)
  }

  lemma {:induction false} ProductSize<Row>(w: World<Row>, left: seq<Row>, right: seq<Row>)
    ensures |Product(w, left, right)| == |left| * |right|
  {
    if left != [] {
      ProductSize(w, left[..|left| - 1], right);
      assert |left| * |right| == (|left| - 1) * |right| + |right|;
    }
  }

  lemma Within(i: nat, n: nat, j: nat, d: nat)
    requires i < n && j < d
    ensures i * d + j < n * d
  {
    assert n * d == i * d + (n - i) * d && (n - i) * d == d + (n - i - 1) * d;
  }

  /** Pair `j` of row `i` is at place i * |right| + j. */
  lemma {:induction false} ProductAt<Row>(w: World<Row>, left: seq<Row>, right: seq<Row>, i: nat, j: nat)
    requires i < |left| && j < |right|
    ensures i * |right| + j < |Product(w, left, right)| == |left| * |right|
    ensures Product(w, left, right)[i * |right| + j] == w.joined(left[i], right[j])
  {
    var n := |left| - 1;
    ProductSize(w, left, right);
    ProductSize(w, left[..n], right);
    Within(i, |left|, j, |right|);
    if i < n {
      ProductAt(w, left[..n], right, i, j);
    }
  }

  /** `FROM t0, t1, ...`: the product of the tables so far with the next table. */
  function From<Row>(w: World<Row>, tables: seq<nat>): seq<Row>
    requires tables != []
  {
    var n := |tables| - 1;
    if n == 0 then w.table(tables[0]) else Product(w, From(w, tables[..n]), w.table(tables[n]))
  }

  function LeafValue<Row>(w: World<Row>, e: Expr, r: Row): Val
    requires Leaf(e)
  {
    match e
    case Field(id) => w.cell(r, id)
    case Value(v) => v
    case Other(id) => w.other(r, id)
  }

  /** The row meets one condition of a WHERE clause. */
  predicate MeetsOne<Row>(w: World<Row>, c: Expr, r: Row)
    requires Atom(c)
  {
    if c.Comparison? then w.ops.compare(c.op, LeafValue(w, c.left, r), LeafValue(w, c.right, r))
    else
      match w.other(r, c.id)
      case Bool(b) => b
      case Datum(d) => w.ops.truth(d)
  }

  predicate AllAtoms(conditions: seq<Expr>) {
    forall i :: 0 <= i < |conditions| ==> Atom(conditions[i])
  }

  /** The row meets the conditions: all of them, or one when they are joined by OR. */
  predicate MeetsClause<Row>(w: World<Row>, hasOr: bool, conditions: seq<Expr>, r: Row)
    requires AllAtoms(conditions)
  {
    if conditions == [] then true
    else if hasOr then exists i :: 0 <= i < |conditions| && MeetsOne(w, conditions[i], r)
    else forall i :: 0 <= i < |conditions| ==> MeetsOne(w, conditions[i], r)
  }

  /** The rows that meet the clause, in their order. */
  function Where<Row>(w: World<Row>, hasOr: bool, conditions: seq<Expr>, rows: seq<Row>): seq<Row>
    requires AllAtoms(conditions)
  {
    if rows == [] then []
    else if MeetsClause(w, hasOr, conditions, rows[0]) then [rows[0]] + Where(w, hasOr, conditions, rows[1..])
    else Where(w, hasOr, conditions, rows[1..])
  }

  /** The other operators, the innermost first. */
  function Piped<Row>(w: World<Row>, pipes: seq<nat>, rows: seq<Row>): seq<Row>
    decreases |pipes|
  {
    if pipes == [] then rows else Piped(w, pipes[1..], w.pipe(pipes[0], rows))
  }

  /** The rows of a statement. */
  function StatementRows<Row>(w: World<Row>, tables: seq<nat>, hasOr: bool, conditions: seq<Expr>, pipes: seq<nat>)
    : seq<Row>
    requires tables != [] && AllAtoms(conditions)
  {
    Piped(w, pipes, Where(w, hasOr, conditions, From(w, tables)))
  }

  // ----- Plans yield them

  lemma {:induction false} PairWithIsPairs<Row>(w: World<Row>, l: Row, right: seq<Row>)
    ensures PairWith(w, l, right) == Pairs(w, l, right)
  {
    if right != [] {
      PairWithIsPairs(w, l, right[1..]);
    }
  }

  lemma {:induction false} CrossSnoc<Row>(w: World<Row>, left: seq<Row>, l: Row, right: seq<Row>)
    ensures Cross(w, left + [l], right) == Cross(w, left, right) + PairWith(w, l, right)
  {
    if left == [] {
      assert ([] + [l])[1..] == [] && ([] + [l])[0] == l;
      assert Cross(w, [] + [l], right) == PairWith(w, l, right) + Cross(w, [], right);
    } else {
      assert (left + [l])[1..] == left[1..] + [l];
      CrossSnoc(w, left[1..], l, right);
    }
  }

  /** `Cross` is the left-major product. */
  lemma {:induction false} CrossIsProduct<Row>(w: World<Row>, left: seq<Row>, right: seq<Row>)
    ensures Cross(w, left, right) == Product(w, left, right)
  {
    if left != [] {
      var n := |left| - 1;
      assert left == left[..n] + [left[n]];
      CrossSnoc(w, left[..n], left[n], right);
      CrossIsProduct(w, left[..n], right);
      PairWithIsPairs(w, left[n], right);
    }
  }

  lemma {:induction false} ScanAll<Row>(w: World<Row>, rows: seq<Row>)
    ensures Scan(w, [], rows) == rows
  {
    if rows != [] {
      assert Holds(w, true, [], rows[0]);
      ScanAll(w, rows[1..]);
    }
  }

  lemma {:induction false} LeftDeepRows<Row>(w: World<Row>, tables: seq<nat>)
    requires tables != []
    ensures Rows(w, Plain, LeftDeep(tables)) == From(w, tables)
    decreases |tables|
  {
    var n := |tables| - 1;
    var get := Node(TableGet(tables[n]), [], [], []);
    ScanAll(w, w.table(tables[n]));
    assert Rows(w, Plain, get) == w.table(tables[n]);
    if n > 0 {
      var before := Rows(w, Plain, LeftDeep(tables[..n]));
      LeftDeepRows(w, tables[..n]);
      CrossIsProduct(w, before, w.table(tables[n]));
      assert Rows(w, Plain, LeftDeep(tables)) == Cross(w, before, w.table(tables[n]));
    }
  }

  lemma AtomMeans<Row>(w: World<Row>, c: Expr, r: Row)
    requires Atom(c)
    ensures True(w, c, r) == MeetsOne(w, c, r)
  {
    if c.Comparison? {
      assert Eval(w, c.left, r) == LeafValue(w, c.left, r) && Eval(w, c.right, r) == LeafValue(w, c.right, r);
    }
  }

  lemma ClauseMeans<Row>(w: World<Row>, hasOr: bool, conditions: seq<Expr>, r: Row)
    requires AllAtoms(conditions) && conditions != []
    ensures True(w, Conjunction(!hasOr, conditions), r) == MeetsClause(w, hasOr, conditions, r)
  {
    HoldsMeaning(w, !hasOr, conditions, r);
    forall i | 0 <= i < |conditions| ensures True(w, conditions[i], r) == MeetsOne(w, conditions[i], r) {
      AtomMeans(w, conditions[i], r);
    }
  }

  lemma {:induction false} SelectIsWhere<Row>(w: World<Row>, hasOr: bool, conditions: seq<Expr>, rows: seq<Row>)
    requires AllAtoms(conditions) && conditions != []
    ensures Select(w, Plain, Conjunction(!hasOr, conditions), rows) == Where(w, hasOr, conditions, rows)
  {
    if rows != [] {
      ClauseMeans(w, hasOr, conditions, rows[0]);
      SelectIsWhere(w, hasOr, conditions, rows[1..]);
    }
  }

  lemma {:induction false} WhereAll<Row>(w: World<Row>, hasOr: bool, rows: seq<Row>)
    ensures Where(w, hasOr, [], rows) == rows
  {
    if rows != [] {
      WhereAll(w, hasOr, rows[1..]);
    }
  }

  lemma {:induction false} PipedSnoc<Row>(w: World<Row>, pipes: seq<nat>, f: nat, rows: seq<Row>)
    ensures Piped(w, pipes + [f], rows) == w.pipe(f, Piped(w, pipes, rows))
    decreases |pipes|
  {
    if pipes == [] {
      assert ([] + [f])[1..] == [];
      assert Piped(w, [] + [f], rows) == Piped(w, [], w.pipe(f, rows));
    } else {
      assert (pipes + [f])[1..] == pipes[1..] + [f];
      PipedSnoc(w, pipes[1..], f, w.pipe(pipes[0], rows));
    }
  }

  lemma {:induction false} PipesRows<Row>(w: World<Row>, p: Plan, pipes: seq<nat>)
    ensures Rows(w, Plain, WithPipes(p, pipes)) == Piped(w, pipes, Rows(w, Plain, p))
    decreases |pipes|
  {
    if pipes != [] {
      var n := |pipes| - 1;
      PipesRows(w, p, pipes[..n]);
      PipedSnoc(w, pipes[..n], pipes[n], Rows(w, Plain, p));
      assert pipes[..n] + [pipes[n]] == pipes;
    }
  }

  /** The generated plan of every statement yields the rows of the statement. */
  lemma GeneratedRows<Row>(w: World<Row>, tables: seq<nat>, hasOr: bool, conditions: seq<Expr>, pipes: seq<nat>)
    requires tables != [] && AllAtoms(conditions)
    ensures Rows(w, Plain, Generated(tables, hasOr, conditions, pipes))
            == StatementRows(w, tables, hasOr, conditions, pipes)
  {
    var source := LeftDeep(tables);
    var from := Rows(w, Plain, source);
    LeftDeepRows(w, tables);
    if conditions == [] {
      WhereAll(w, hasOr, from);
    } else {
      SelectIsWhere(w, hasOr, conditions, from);
    }
    PipesRows(w, WithFilter(source, hasOr, conditions), pipes);
    hide From, Piped, Where, LeftDeep;
    assert Rows(w, Plain, WithFilter(source, hasOr, conditions)) == Where(w, hasOr, conditions, from);
  }

  /** `create_plan`: the plan yields the rows of the statement, in every database. */
  method PlanStatement(tables: seq<nat>, hasOr: bool, conditions: seq<Expr>, pipes: seq<nat>) returns (root: Plan)
    requires tables != [] && AllAtoms(conditions)
    ensures forall w: World<int> {:trigger Rows(w, Plain, root)} ::
      Rows(w, Plain, root) == StatementRows(w, tables, hasOr, conditions, pipes)
  {
    root := CreatePlan(tables, hasOr, conditions, pipes);
    forall w: World<int> ensures Rows(w, Plain, root) == StatementRows(w, tables, hasOr, conditions, pipes) {
      GeneratedRows(w, tables, hasOr, conditions, pipes);
    }
  }

  /** From the statement to the optimized plan: it yields the rows of the statement when the WHERE clause is
      harmless, and with the intended rule always. */
  lemma OptimizedRows<Row>(w: World<Row>, rule: Rule, tables: seq<nat>, hasOr: bool, conditions: seq<Expr>,
                           pipes: seq<nat>)
    requires tables != [] && pipes != [] && AllAtoms(conditions)
    requires rule.Intended? || Harmless(w.ops, !hasOr, conditions)
    ensures Rows(w, Plain, Fixpoint(rule, w.ops, Generated(tables, hasOr, conditions, pipes)))
            == StatementRows(w, tables, hasOr, conditions, pipes)
  {
    forall c <- conditions ensures Atom(c) {
    }
    GeneratedRows(w, tables, hasOr, conditions, pipes);
    if rule.Intended? {
      IntendedOptimizerKeepsRows(w, tables, hasOr, conditions, pipes);
    } else {
      OptimizedPlanYields(w, tables, hasOr, conditions, pipes);
    }
  }
}
