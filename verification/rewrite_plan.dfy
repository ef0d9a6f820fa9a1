/** Logical plans (src/observer/sql/operator/logical_operator.h), the rows they produce, and the
    rules that rewrite them (src/observer/sql/optimizer). */
module Plans {
  import opened Expressions
  import opened ExpressionRules
  import opened RewriteMeaning

  /** `Pipe` stands for the operators that work on the rows of at most one child: projection,
      aggregation, order, update, delete. */
  datatype Kind = TableGet(table: nat) | Predicate | Join | Pipe(f: nat)

  /** `filters` are the predicates pushed down into a table-get. */
  datatype Plan = Node(kind: Kind, expressions: seq<Expr>, filters: seq<Expr>, children: seq<Plan>)

  /** How the filter of a predicate operator is read: as it stands, or as what the rewriting will
      make of it. */
  datatype Reading = Plain | Rewriting(rule: Rule)

  predicate Meets<Row>(w: World<Row>, how: Reading, e: Expr, r: Row) {
    match how
    case Plain => True(w, e, r)
    case Rewriting(rule) => Outcome(w, rule, e, r)
  }

  function Select<Row>(w: World<Row>, how: Reading, e: Expr, rows: seq<Row>): seq<Row> {
    if rows == [] then []
    else (if Meets(w, how, e, rows[0]) then [rows[0]] else []) + Select(w, how, e, rows[1..])
  }

  /** The rows that meet every pushed-down filter. */
  function Scan<Row>(w: World<Row>, filters: seq<Expr>, rows: seq<Row>): seq<Row> {
    if rows == [] then []
    else (if Holds(w, true, filters, rows[0]) then [rows[0]] else []) + Scan(w, filters, rows[1..])
  }

  /** All pairs, left-major. */
  function Cross<Row>(w: World<Row>, left: seq<Row>, right: seq<Row>): seq<Row> {
    if left == [] then [] else PairWith(w, left[0], right) + Cross(w, left[1..], right)
  }

  function PairWith<Row>(w: World<Row>, l: Row, right: seq<Row>): seq<Row> {
    if right == [] then [] else [w.joined(l, right[0])] + PairWith(w, l, right[1..])
  }

  /** The rows a plan produces, in order. An operator without a child sees no rows. */
  function Rows<Row>(w: World<Row>, how: Reading, p: Plan): seq<Row> {
    match p.kind
    case TableGet(t) => Scan(w, p.filters, w.table(t))
    case Predicate =>
      if |p.expressions| == 1 && |p.children| == 1
      then Select(w, how, p.expressions[0], Rows(w, how, p.children[0])) else []
    case Join =>
      if |p.children| == 2
      then Cross(w, Rows(w, how, p.children[0]), Rows(w, how, p.children[1])) else []
    case Pipe(f) => w.pipe(f, if p.children == [] then [] else Rows(w, how, p.children[0]))
  }

  /** Operators, plus the nodes of the expressions they hold in `expressions()`. */
  function PlanSize(p: Plan): nat {
    1 + Sizes(p.expressions) + PlanSizes(p.children)
  }

  function PlanSizes(ps: seq<Plan>): nat {
    if ps == [] then 0 else PlanSize(ps[0]) + PlanSizes(ps[1..])
  }

  datatype Changed<T> = Changed(result: T, changed: bool)

  // ----- ExpressionRewriter::rewrite

  function ExpressionPass(rule: Rule, ops: Ops, p: Plan): (c: Changed<Plan>)
    ensures PlanSize(c.result) <= PlanSize(p) && (c.changed ==> PlanSize(c.result) < PlanSize(p))
    decreases p, 1
  {
    var (es, changed) := RewriteAll(rule, ops, p.expressions);
    var below := ExpressionPasses(rule, ops, p.children);
    Changed(p.(expressions := es, children := below.result), changed || below.changed)
  }

  function ExpressionPasses(rule: Rule, ops: Ops, ps: seq<Plan>): (c: Changed<seq<Plan>>)
    ensures |c.result| == |ps|
    ensures forall i :: 0 <= i < |ps| ==> c.result[i] == ExpressionPass(rule, ops, ps[i]).result
    ensures PlanSizes(c.result) <= PlanSizes(ps) && (c.changed ==> PlanSizes(c.result) < PlanSizes(ps))
    decreases ps, 0
  {
    if ps == [] then Changed([], false)
    else
      var first := ExpressionPass(rule, ops, ps[0]);
      var rest := ExpressionPasses(rule, ops, ps[1..]);
      Changed([first.result] + rest.result, first.changed || rest.changed)
  }

  // ----- PredicateRewriteRule::rewrite

  /** The operator's only child is a predicate on a constant. */
  predicate ConstantBelow(p: Plan) {
    && |p.children| == 1 && p.children[0].kind.Predicate?
    && |p.children[0].expressions| == 1 && p.children[0].expressions[0].Value?
  }

  /** A predicate on a constant below the operator goes away: its children move up, or nothing. */
  function RemoveConstant(ops: Ops, p: Plan): (c: Changed<Plan>)
    ensures PlanSize(c.result) <= PlanSize(p) && (c.changed ==> PlanSize(c.result) < PlanSize(p))
  {
    if !ConstantBelow(p) then Changed(p, false)
    else
      var child := p.children[0];
      assert PlanSizes(p.children) == PlanSize(child) + PlanSizes(p.children[1..]);
      if Truth(ops, child.expressions[0].v) then Changed(p.(children := child.children), true)
      else Changed(p.(children := []), true)
  }

  // ----- PredicatePushdownRewriter::rewrite

  /** An equality with a column on some side goes down. (The comment in the code asks for a column
      or a constant on the other side as well; its test does not.) */
  predicate Pushable(e: Expr) {
    e.Comparison? && e.op.EqualTo? && (e.left.Field? || e.right.Field?)
  }

  datatype Split = Split(kept: seq<Expr>, pushed: seq<Expr>)

  /** `get_exprs_can_pushdown`. `kept` holds what is left of the expression: nothing, or one. */
  function Pushdown(e: Expr): (s: Split)
    ensures |s.kept| <= 1
    ensures Sizes(s.kept) <= Size(e) && (s.pushed != [] ==> Sizes(s.kept) + 3 <= Size(e))
    ensures s.kept == [] ==> s.pushed != []
    decreases e, 1
  {
    if e.Conjunction? && e.isAnd then
      var s := PushdownAll(e.children);
      Split([Conjunction(true, s.kept)], s.pushed)
    else if Pushable(e) then Split([], [e])
    else Split([e], [])
  }

  function PushdownAll(cs: seq<Expr>): (s: Split)
    ensures Sizes(s.kept) <= Sizes(cs) && (s.pushed != [] ==> Sizes(s.kept) + 3 <= Sizes(cs))
    decreases cs, 0
  {
    if cs == [] then Split([], [])
    else
      var first := Pushdown(cs[0]);
      var rest := PushdownAll(cs[1..]);
      SizesConcat(first.kept, rest.kept);
      Split(first.kept + rest.kept, first.pushed + rest.pushed)
  }

  /** The operator is a predicate with one expression directly above a table-get. */
  predicate PushesInto(p: Plan) {
    && p.kind.Predicate? && |p.children| == 1 && p.children[0].kind.TableGet?
    && |p.expressions| == 1
  }

  /** The filters replace those the table-get had; what is left of the predicate stays, or a
      constant takes its place. */
  function PushFilters(p: Plan): (c: Changed<Plan>)
    ensures PlanSize(c.result) <= PlanSize(p) && (c.changed ==> PlanSize(c.result) < PlanSize(p))
  {
    if !PushesInto(p) then Changed(p, false)
    else
      var s := Pushdown(p.expressions[0]);
      var kept := if s.kept == [] then [Value(Bool(true))] else s.kept;
      assert Sizes(p.expressions) == Size(p.expressions[0]) + Sizes(p.expressions[1..]);
      if s.pushed == [] then Changed(p.(expressions := kept), false)
      else
        var get := p.children[0].(filters := s.pushed);
        assert PlanSizes([get]) == PlanSize(get) + PlanSizes([get][1..]);
        assert PlanSizes(p.children) == PlanSize(p.children[0]) + PlanSizes(p.children[1..]);
        Changed(p.(expressions := kept, children := [get]), true)
  }

  // ----- Rewriter::rewrite

  /** One pass: the three rules at an operator, then the same at each of its children. */
  function Pass(rule: Rule, ops: Ops, p: Plan): (c: Changed<Plan>)
    ensures PlanSize(c.result) <= PlanSize(p) && (c.changed ==> PlanSize(c.result) < PlanSize(p))
    decreases PlanSize(p), 1
  {
    var a := ExpressionPass(rule, ops, p);
    var b := RemoveConstant(ops, a.result);
    var c := PushFilters(b.result);
    var below := Passes(rule, ops, c.result.children);
    Changed(c.result.(children := below.result), a.changed || b.changed || c.changed || below.changed)
  }

  function Passes(rule: Rule, ops: Ops, ps: seq<Plan>): (c: Changed<seq<Plan>>)
    ensures PlanSizes(c.result) <= PlanSizes(ps) && (c.changed ==> PlanSizes(c.result) < PlanSizes(ps))
    decreases PlanSizes(ps), 2
  {
    if ps == [] then Changed([], false)
    else
      var first := Pass(rule, ops, ps[0]);
      var rest := Passes(rule, ops, ps[1..]);
      Changed([first.result] + rest.result, first.changed || rest.changed)
  }

  // ----- OptimizeStage::rewrite

  /** Passes until one reports no change. */
  function Fixpoint(rule: Rule, ops: Ops, p: Plan): Plan
    decreases PlanSize(p)
  {
    var c := Pass(rule, ops, p);
    if c.changed then Fixpoint(rule, ops, c.result) else c.result
  }
}
