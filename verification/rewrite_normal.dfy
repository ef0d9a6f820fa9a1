/** What the optimized plan of a statement looks like, in terms of the expressions in it: nothing is left that a
    rule would change. */
module NormalForm {
  import opened Expressions
  import opened ExpressionRules
  import opened RewriteMeaning
  import opened RewriteMisfire
  import opened Plans
  import opened OptimizerCorrectness
  import opened Statements

  // ----- Folding

  /** Two values are compared somewhere in the expression. */
  predicate ComparesValues(e: Expr) {
    match e
    case Comparison(_, a, b) => (a.Value? && b.Value?) || ComparesValues(a) || ComparesValues(b)
    case Cast(c) => ComparesValues(c)
    case Conjunction(_, cs) => exists i :: 0 <= i < |cs| && ComparesValues(cs[i])
    case _ => false
  }

  /** A comparison of two values is folded, whatever the operator and the values, and a change is reported. */
  lemma ConstantsAreFolded(rule: Rule, ops: Ops, op: CompOp, a: Val, b: Val)
    ensures Rewrite(rule, ops, Comparison(op, Value(a), Value(b)))
            == Rewritten(Value(Bool(ops.compare(op, a, b))), true)
  {
  }

  /** An equality with a column. */
  predicate ColumnEquality(e: Expr) {
    e.Comparison? && e.op == EqualTo && (e.left.Field? || e.right.Field?)
  }

  /** The expression needs no simplification: no two values are compared, and a conjunction in it has no constant
      and not just one condition. */
  predicate Simple(e: Expr) {
    && !ComparesValues(e)
    && (e.Conjunction? ==> |e.children| != 1 && forall i :: 0 <= i < |e.children| ==> !e.children[i].Value?)
  }

  /** No condition that has to hold is an equality with a column. */
  predicate NothingToPush(e: Expr) {
    && !ColumnEquality(e)
    && (e.Conjunction? && e.isAnd ==> forall i :: 0 <= i < |e.children| ==> !ColumnEquality(e.children[i]))
  }

  predicate GoodFilter(f: Expr) {
    ColumnEquality(f) && !ComparesValues(f)
  }

  predicate GoodFilters(fs: seq<Expr>) {
    forall i :: 0 <= i < |fs| ==> GoodFilter(fs[i])
  }

  /** All expressions are simple; below no operator is a predicate on a value; a predicate above a table-get has
      nothing to push into it; and what has been pushed are equalities with a column. */
  predicate Normal(p: Plan) {
    && (forall i :: 0 <= i < |p.expressions| ==> Simple(p.expressions[i]))
    && GoodFilters(p.filters)
    && (forall i :: 0 <= i < |p.children| ==> Normal(p.children[i]))
    && (|p.children| == 1 && p.children[0].kind.Predicate? ==>
          p.children[0].expressions != [] && !p.children[0].expressions[0].Value?)
    && (p.kind.Predicate? && |p.children| == 1 && p.children[0].kind.TableGet? ==>
          p.expressions != [] && NothingToPush(p.expressions[0]))
  }

  // ----- Expressions that a rewriting does not change

  lemma OpenIsSimple(e: Expr)
    requires Open(e)
    ensures Simple(e) && (ColumnEquality(e) ==> GoodFilter(e))
  {
    if e.Comparison? {
      assert !ComparesValues(e.left) && !ComparesValues(e.right);
    }
  }

  lemma SettledUnchanged(rule: Rule, ops: Ops, e: Expr)
    requires Settled(e) && !Rewrite(rule, ops, e).changed
    ensures Rewrite(rule, ops, e).expr == e && Simple(e)
  {
    if e.Conjunction? {
      NothingDecided(e.children);
      RewriteWithoutConsts(rule, ops, e);
      NothingToFold(ops, e.children);
      forall i | 0 <= i < |e.children| ensures !e.children[i].Value? && !ComparesValues(e.children[i]) {
        assert e.children[i] in e.children;
        OpenIsSimple(e.children[i]);
      }
      SingleIsUnwrapped(rule, ops, e);
    } else {
      AtomRewrite(rule, ops, e);
      if Open(e) {
        OpenIsSimple(e);
      }
    }
  }

  lemma SingleIsUnwrapped(rule: Rule, ops: Ops, e: Expr)
    requires e.Conjunction? && |e.children| == 1 ==> !IsConst(e.children[0])
    ensures e.Conjunction? && |e.children| == 1 ==> Rewrite(rule, ops, e).changed
  {
    if e.Conjunction? && |e.children| == 1 {
      NothingDecided(e.children);
    }
  }

  /** A filter as the generator makes it is settled if rewriting reports no change. */
  lemma RawUnchanged(rule: Rule, ops: Ops, e: Expr)
    requires e.Conjunction? && (forall c <- e.children :: Atom(c)) && !Rewrite(rule, ops, e).changed
    ensures AtStage(e, 2)
  {
    NothingDecided(e.children);
    SingleIsUnwrapped(rule, ops, e);
    AtomsRewrite(rule, ops, e.children);
  }

  /** No conjunction in the expression has a constant among its conditions. */
  predicate ConstantFree(e: Expr) {
    match e
    case Cast(c) => ConstantFree(c)
    case Comparison(_, a, b) => ConstantFree(a) && ConstantFree(b)
    case Conjunction(_, cs) => forall i :: 0 <= i < |cs| ==> !IsConst(cs[i]) && ConstantFree(cs[i])
    case _ => true
  }

  predicate AllConstantFree(es: seq<Expr>) {
    forall i :: 0 <= i < |es| ==> ConstantFree(es[i])
  }

  /** Without constants in conjunctions, at any depth: a rewriting that reports no change has made none, and then no
      two values are compared anywhere. */
  lemma {:induction false} QuietRewriting(rule: Rule, ops: Ops, e: Expr)
    requires ConstantFree(e) && !Rewrite(rule, ops, e).changed
    ensures Rewrite(rule, ops, e).expr == e && !ComparesValues(e)
    decreases Size(e), 1
  {
    match e
    case Cast(c) => QuietRewriting(rule, ops, c);
    case Comparison(_, a, b) =>
      QuietRewriting(rule, ops, a);
      QuietRewriting(rule, ops, b);
    case Conjunction(_, cs) =>
      NothingDecided(cs);
      assert AllConstantFree(cs);
      QuietRewritings(rule, ops, cs);
    case _ =>
  }

  lemma {:induction false} QuietRewritings(rule: Rule, ops: Ops, es: seq<Expr>)
    requires AllConstantFree(es) && !RewriteAll(rule, ops, es).1
    ensures RewriteAll(rule, ops, es).0 == es && forall i :: 0 <= i < |es| ==> !ComparesValues(es[i])
    decreases Sizes(es), 2
  {
    if es != [] {
      assert AllConstantFree(es[1..]);
      QuietRewriting(rule, ops, es[0]);
      QuietRewritings(rule, ops, es[1..]);
      assert forall i :: 0 < i < |es| ==> es[i] == es[1..][i - 1];
    }
  }

  /** A cast to boolean has the truth of what is cast. */
  lemma CastKeepsTruth<Row>(w: World<Row>, e: Expr, r: Row)
    ensures Eval(w, Cast(e), r) == Bool(True(w, e, r))
  {
  }

  // ----- Plans that a pass does not change

  /** A plan as the generator makes it. */
  ghost predicate Raw(p: Plan) {
    match p.kind
    case Pipe(_) => p.expressions == [] && |p.children| <= 1 && (p.children != [] ==> Raw(p.children[0]))
    case Predicate =>
      && |p.expressions| == 1 && |p.children| == 1 && Source(p.children[0])
      && p.expressions[0].Conjunction? && (forall c <- p.expressions[0].children :: Atom(c))
      && (p.children[0].kind.TableGet? ==> p.children[0].filters == [])
    case _ => Source(p)
  }

  lemma {:induction false} RawShape(p: Plan)
    requires Raw(p)
    ensures Shape(p, 0)
    decreases p
  {
    if p.kind.Pipe? && p.children != [] {
      RawShape(p.children[0]);
    }
  }

  lemma PassesBelowOne(rule: Rule, ops: Ops, ps: seq<Plan>)
    requires |ps| <= 1
    ensures ExpressionPasses(rule, ops, ps)
            == if ps == [] then Changed([], false)
               else Changed([ExpressionPass(rule, ops, ps[0]).result], ExpressionPass(rule, ops, ps[0]).changed)
  {
    if ps != [] {
      PassesBelowCons(rule, ops, ps);
      assert ps[1..] == [];
      assert ExpressionPasses(rule, ops, ps[1..]) == Changed([], false);
      assert [ExpressionPass(rule, ops, ps[0]).result] + [] == [ExpressionPass(rule, ops, ps[0]).result];
    }
  }

  /** An operator with at most one expression and one child. */
  lemma ExpressionPassOne(rule: Rule, ops: Ops, p: Plan)
    requires |p.expressions| <= 1 && |p.children| <= 1
    ensures var c := ExpressionPass(rule, ops, p);
      var e := if p.expressions == [] then Rewritten(Field(0), false) else Rewrite(rule, ops, p.expressions[0]);
      var below := if p.children == [] then Changed(p, false) else ExpressionPass(rule, ops, p.children[0]);
      && c.changed == (e.changed || below.changed)
      && c.result == p.(expressions := if p.expressions == [] then [] else [e.expr],
                        children := if p.children == [] then [] else [below.result])
  {
    RewriteOne(rule, ops, p.expressions);
    PassesBelowOne(rule, ops, p.children);
    hide RewriteAll, ExpressionPasses, Rewrite;
  }

  lemma {:induction false} RawSettled(rule: Rule, ops: Ops, p: Plan)
    requires Raw(p) && !ExpressionPass(rule, ops, p).changed
    ensures Shape(p, 2)
    decreases p
  {
    if p.kind.Pipe? || p.kind.Predicate? {
      ExpressionPassOne(rule, ops, p);
      hide ExpressionPass, Rewrite, AtStage;
      if p.kind.Predicate? {
        RawUnchanged(rule, ops, p.expressions[0]);
      } else if p.children != [] {
        RawSettled(rule, ops, p.children[0]);
      }
    }
  }

  lemma {:induction false} ExpressionsUnchanged(rule: Rule, ops: Ops, p: Plan)
    requires Shape(p, 2) && !ExpressionPass(rule, ops, p).changed
    ensures ExpressionPass(rule, ops, p).result == p
    ensures p.kind.Predicate? ==> Simple(p.expressions[0])
    decreases p
  {
    if p.kind.Pipe? || p.kind.Predicate? {
      ExpressionPassOne(rule, ops, p);
      hide ExpressionPass, Rewrite, Simple;
      if p.kind.Predicate? {
        SourceUntouched(rule, ops, p.children[0]);
        SettledUnchanged(rule, ops, p.expressions[0]);
        assert p.children == [p.children[0]] && p.expressions == [p.expressions[0]];
      } else if p.children != [] {
        ExpressionsUnchanged(rule, ops, p.children[0]);
        assert p.children == [p.children[0]];
      }
    } else {
      SourceUntouched(rule, ops, p);
    }
  }

  lemma {:induction false} AllKept(cs: seq<Expr>)
    requires (forall c <- cs :: Open(c)) && PushdownAll(cs).pushed == []
    ensures forall i :: 0 <= i < |cs| ==> !ColumnEquality(cs[i])
  {
    if cs != [] {
      assert cs[0] in cs;
      PushdownAllCons(cs);
      AllKept(cs[1..]);
    }
  }

  lemma KeptHasNothing(e: Expr)
    requires Settled(e) && Pushdown(e).pushed == []
    ensures NothingToPush(e)
  {
    if e.Conjunction? && e.isAnd {
      AllKept(e.children);
    }
  }

  /** What a pass that reports no change does at one operator. */
  lemma RulesUnchanged(rule: Rule, ops: Ops, p: Plan)
    requires Shape(p, 2) && !RulesAt(rule, ops, p).changed
    ensures RulesAt(rule, ops, p).result == p && !ConstantBelow(p)
    ensures p.kind.Predicate? ==>
      Simple(p.expressions[0]) && (p.children[0].kind.TableGet? ==> NothingToPush(p.expressions[0]))
  {
    ExpressionsUnchanged(rule, ops, p);
    if p.kind.Predicate? && PushesInto(p) {
      PushdownSettles(p.expressions[0]);
      KeptHasNothing(p.expressions[0]);
      assert p.expressions == [p.expressions[0]];
    }
    hide ExpressionPass;
  }

  /** A pass over a settled plan that reports no change has made none; but for the filters the plan is normal. */
  lemma {:induction false} PassUnchanged(rule: Rule, ops: Ops, p: Plan)
    requires Shape(p, 2) && !Pass(rule, ops, p).changed && PlanFilters(p)
    ensures Pass(rule, ops, p).result == p && Normal(p)
    decreases p
  {
    PassIsRulesThenChildren(rule, ops, p);
    hide Pass, RulesAt;
    RulesUnchanged(rule, ops, p);
    match p.kind
    case Pipe(_) =>
      PassesOne(rule, ops, p.children);
      hide Passes;
      if p.children != [] {
        PassUnchanged(rule, ops, p.children[0]);
        assert p.children == [p.children[0]];
      }
    case Predicate =>
      PassesOne(rule, ops, p.children);
      hide Passes;
      SourcePass(rule, ops, p.children[0]);
      SourceNormal(p.children[0]);
      assert p.children == [p.children[0]];
    case _ =>
      hide Passes;
      SourceNormal(p);
      assert Pass(rule, ops, p).result == p by { SourcePass(rule, ops, p); }
  }

  lemma {:induction false} SourceNormal(p: Plan)
    requires Source(p) && PlanFilters(p)
    ensures Normal(p)
    decreases p
  {
    if p.kind.Join? {
      SourceNormal(p.children[0]);
      SourceNormal(p.children[1]);
    }
  }

  // ----- The filters of the table-gets

  predicate PlanFilters(p: Plan) {
    GoodFilters(p.filters) && forall i :: 0 <= i < |p.children| ==> PlanFilters(p.children[i])
  }

  lemma {:induction false} PushedAreGood(cs: seq<Expr>)
    requires forall c <- cs :: Open(c)
    ensures GoodFilters(PushdownAll(cs).pushed)
  {
    if cs != [] {
      assert cs[0] in cs;
      PushdownAllCons(cs);
      OpenIsSimple(cs[0]);
      hide PushdownAll, Pushdown, Open;
      PushedAreGood(cs[1..]);
    }
  }

  lemma {:induction false} ExpressionPassFilters(rule: Rule, ops: Ops, p: Plan, stage: nat)
    requires Shape(p, stage) && PlanFilters(p)
    ensures PlanFilters(ExpressionPass(rule, ops, p).result)
    decreases p
  {
    if p.kind.Pipe? {
      if p.children != [] {
        ExpressionPassFilters(rule, ops, p.children[0], stage);
      }
    } else if p.kind.Predicate? {
      SourceUntouched(rule, ops, p.children[0]);
    } else {
      SourceUntouched(rule, ops, p);
    }
  }

  lemma RemoveConstantFilters(ops: Ops, p: Plan)
    requires PlanFilters(p)
    ensures PlanFilters(RemoveConstant(ops, p).result)
  {
  }

  lemma RulesFilters(rule: Rule, ops: Ops, p: Plan, stage: nat)
    requires Shape(p, stage) && PlanFilters(p) && (p.kind.Pipe? || (p.kind.Predicate? && stage >= 1))
    ensures PlanFilters(RulesAt(rule, ops, p).result)
  {
    ExpressionPassFilters(rule, ops, p, stage);
    ExpressionPassSettles(rule, ops, p, stage);
    var a := ExpressionPass(rule, ops, p).result;
    RemoveConstantFilters(ops, a);
    if p.kind.Predicate? {
      assert Filtered(a, 2) && !ConstantBelow(a);
      PushFiltersGood(a);
    }
    hide ExpressionPass, PlanFilters, Shape;
  }

  lemma PushFiltersGood(p: Plan)
    requires Filtered(p, 2) && PlanFilters(p)
    ensures PlanFilters(PushFilters(p).result)
  {
    if PushesInto(p) {
      if p.expressions[0].Conjunction? && p.expressions[0].isAnd {
        PushedAreGood(p.expressions[0].children);
      } else if Open(p.expressions[0]) {
        OpenIsSimple(p.expressions[0]);
      }
      assert GoodFilters(Pushdown(p.expressions[0]).pushed);
    }
  }

  lemma OneChild(p: Plan, stage: nat)
    requires Shape(p, stage) && (p.kind.Pipe? || p.kind.Predicate?)
    ensures |p.children| <= 1 && (p.children != [] ==> Shape(p.children[0], stage))
  {
  }

  lemma FirstIsSmaller(p: Plan)
    requires p.children != []
    ensures PlanSize(p.children[0]) < PlanSize(p)
  {
    assert p.children == [p.children[0]] + p.children[1..];
  }

  lemma {:induction false} PassFilters(rule: Rule, ops: Ops, p: Plan, stage: nat)
    requires Shape(p, stage) && PlanFilters(p) && (p.kind.Pipe? || stage >= 1)
    ensures PlanFilters(Pass(rule, ops, p).result)
    decreases PlanSize(p)
  {
    if p.kind.Pipe? || p.kind.Predicate? {
      var c, next := RulesAt(rule, ops, p).result, if p.kind.Pipe? then stage + 1 else 2;
      RulesShape(rule, ops, p, stage);
      hide Pass, Passes, RulesAt, Shape;
      if c.children != [] {
        FirstIsSmaller(c);
        PassFilters(rule, ops, c.children[0], next);
      }
      ChildrenFilters(c, if c.children == [] then [] else [Pass(rule, ops, c.children[0]).result]);
    } else {
      SourcePass(rule, ops, p);
    }
  }

  lemma ChildrenFilters(p: Plan, children: seq<Plan>)
    requires PlanFilters(p) && forall i :: 0 <= i < |children| ==> PlanFilters(children[i])
    ensures PlanFilters(p.(children := children))
  {
  }

  /** The three rules at an operator above a source, and then the pass over its child. */
  lemma RulesShape(rule: Rule, ops: Ops, p: Plan, stage: nat)
    requires Shape(p, stage) && PlanFilters(p) && (p.kind.Pipe? || (p.kind.Predicate? && stage >= 1))
    ensures var c, next := RulesAt(rule, ops, p).result, if p.kind.Pipe? then stage + 1 else 2;
      && c.kind == p.kind && PlanSize(c) <= PlanSize(p) && PlanFilters(c)
      && |c.children| <= 1 && (c.children != [] ==> Shape(c.children[0], next) && PlanFilters(c.children[0]))
      && Pass(rule, ops, p).result
         == c.(children := if c.children == [] then [] else [Pass(rule, ops, c.children[0]).result])
  {
    var w := TwoValues(ops, Field(0), Bool(true), Bool(true));
    var c, next := RulesAt(rule, ops, p).result, if p.kind.Pipe? then stage + 1 else 2;
    PassIsRulesThenChildren(rule, ops, p);
    RulesFilters(rule, ops, p, stage);
    RulesAtKeepRows(w, rule, p, stage);
    hide Pass, RulesAt, Rows, AtStage;
    OneChild(c, next);
    PassesOne(rule, ops, c.children);
    hide Passes, Shape;
  }

  // ----- The whole run

  lemma {:induction false} FixpointIsNormal(rule: Rule, ops: Ops, p: Plan)
    requires p.kind.Pipe? && PlanFilters(p) && (Raw(p) || Shape(p, 2))
    ensures var q := Fixpoint(rule, ops, p); Normal(q) && Pass(rule, ops, q) == Changed(q, false)
    decreases PlanSize(p)
  {
    var w := TwoValues(ops, Field(0), Bool(true), Bool(true));
    var c := Pass(rule, ops, p);
    if Raw(p) {
      RawShape(p);
    }
    if c.changed {
      PassKeepsRows(w, rule, p, if Raw(p) then 0 else 2);
      PassFilters(rule, ops, p, if Raw(p) then 0 else 2);
      FixpointIsNormal(rule, ops, c.result);
    } else {
      if Raw(p) {
        RawSettled(rule, ops, p);
      }
      PassUnchanged(rule, ops, p);
    }
  }

  lemma {:induction false} SourceFilters(tables: seq<nat>)
    requires tables != []
    ensures PlanFilters(LeftDeep(tables)) && (|tables| == 1 ==> LeftDeep(tables).filters == [])
    decreases |tables|
  {
    if |tables| > 1 {
      SourceFilters(tables[..|tables| - 1]);
    }
  }

  lemma {:induction false} PipesRaw(p: Plan, pipes: seq<nat>)
    requires Raw(p) && PlanFilters(p)
    ensures Raw(WithPipes(p, pipes)) && PlanFilters(WithPipes(p, pipes))
    decreases |pipes|
  {
    if pipes != [] {
      PipesRaw(p, pipes[..|pipes| - 1]);
    }
  }

  /** The optimized plan of every statement is normal, and one more pass changes nothing and says so. */
  lemma OptimizedIsNormal(rule: Rule, ops: Ops, tables: seq<nat>, hasOr: bool, conditions: seq<Expr>, pipes: seq<nat>)
    requires tables != [] && pipes != [] && forall c <- conditions :: Atom(c)
    ensures var q := Fixpoint(rule, ops, Generated(tables, hasOr, conditions, pipes));
      Normal(q) && Pass(rule, ops, q) == Changed(q, false)
  {
    LeftDeepIsSource(tables);
    SourceFilters(tables);
    PipesRaw(WithFilter(LeftDeep(tables), hasOr, conditions), pipes);
    FixpointIsNormal(rule, ops, Generated(tables, hasOr, conditions, pipes));
  }
}
