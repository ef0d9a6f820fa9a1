/** The optimizer as the code runs it (src/observer/sql/optimizer: `rewriter.cpp`,
    `expression_rewriter.cpp`, `predicate_rewrite.cpp`, `predicate_pushdown_rewriter.cpp`,
    `optimize_stage.cpp`), proved against the functions of `Plans`.
    A rule that changes a tree in its place returns the new tree here. */
module OptimizeStage {
  import opened Common
  import opened Expressions
  import opened ExpressionRules
  import opened Plans

  // ----- The rules

  /** `get_exprs_can_pushdown`: conditions move from the expression to the end of `pushed0`. */
  method GetExprsCanPushdown(e: Expr, pushed0: seq<Expr>) returns (kept: seq<Expr>, pushed: seq<Expr>)
    ensures kept == Pushdown(e).kept && pushed == pushed0 + Pushdown(e).pushed
    decreases Size(e), 1
  {
    kept, pushed := [e], pushed0;
    if e.Conjunction? {
      if !e.isAnd {
        return;
      }
      var children;
      children, pushed := PushdownChildren(e.children, pushed0);
      kept := [Conjunction(true, children)];
    } else if e.Comparison? && e.op.EqualTo? && (e.left.Field? || e.right.Field?) {
      kept, pushed := [], pushed + [e];
    }
  }

  /** The loop over the children of an AND, which erases those that have gone down. */
  method PushdownChildren(cs: seq<Expr>, pushed0: seq<Expr>) returns (children: seq<Expr>, pushed: seq<Expr>)
    ensures children == PushdownAll(cs).kept && pushed == pushed0 + PushdownAll(cs).pushed
    decreases Sizes(cs), 2
  {
    children, pushed := cs, pushed0;
    ghost var all := PushdownAll(cs);
    assert [] + all.kept == all.kept;
    hide PushdownAll, Pushdown, Size, Sizes;
    var i := 0;
    ghost var done, rest := [], cs;
    while i < |children|
      invariant i == |done| && children == done + rest && Sizes(rest) <= Sizes(cs)
      invariant all.kept == done + PushdownAll(rest).kept
      invariant pushed0 + all.pushed == pushed + PushdownAll(rest).pushed
      decreases |rest|
    {
      assert children[i] == rest[0];
      var left;
      SizesHead(rest);
      ghost var first, others := Pushdown(rest[0]), PushdownAll(rest[1..]);
      assert all.kept == (done + first.kept) + others.kept by {
        PushdownCons(rest);
        Associate(done, first.kept, others.kept);
      }
      assert pushed0 + all.pushed == (pushed + first.pushed) + others.pushed by {
        PushdownCons(rest);
        Associate(pushed, first.pushed, others.pushed);
      }
      left, pushed := GetExprsCanPushdown(children[i], pushed);
      PushdownErase(children, done, rest, left);
      if left == [] {
        children := children[..i] + children[i + 1..];
      } else {
        children := children[i := left[0]];
        i := i + 1;
      }
      done, rest := done + left, rest[1..];
    }
    assert rest == [] && PushdownAll([]) == Split([], []) by {
      NothingToPush();
    }
    assert done + [] == done && pushed + [] == pushed;
  }

  lemma NothingToPush()
    ensures PushdownAll([]) == Split([], [])
  {
  }

  lemma SizesHead(es: seq<Expr>)
    requires es != []
    ensures Sizes(es) == Size(es[0]) + Sizes(es[1..])
  {
  }

  lemma PushdownCons(cs: seq<Expr>)
    requires cs != []
    ensures var first, rest := Pushdown(cs[0]), PushdownAll(cs[1..]);
      PushdownAll(cs) == Split(first.kept + rest.kept, first.pushed + rest.pushed)
  {
  }

  lemma PushdownErase(children: seq<Expr>, done: seq<Expr>, rest: seq<Expr>, left: seq<Expr>)
    requires children == done + rest && rest != [] && |left| <= 1
    ensures var i := |done|;
      (if left == [] then children[..i] + children[i + 1..] else children[i := left[0]])
      == (done + left) + rest[1..]
  {
  }

  method RewritePredicate(ops: Ops, p: Plan) returns (q: Plan, changed: bool)
    ensures Changed(q, changed) == RemoveConstant(ops, p)
  {
    q, changed := p, false;
    if |p.children| != 1 || !p.children[0].kind.Predicate? || |p.children[0].expressions| != 1
       || !p.children[0].expressions[0].Value? {
      return;
    }
    var child := p.children[0];
    if Truth(ops, child.expressions[0].v) {
      q := q.(children := child.children);
    } else {
      q := q.(children := []);
    }
    changed := true;
  }

  method PushdownPredicate(p: Plan) returns (q: Plan, changed: bool)
    ensures Changed(q, changed) == PushFilters(p)
  {
    q, changed := p, false;
    if !p.kind.Predicate? || |p.children| != 1 || !p.children[0].kind.TableGet? || |p.expressions| != 1 {
      return;
    }
    var kept, pushed := GetExprsCanPushdown(p.expressions[0], []);
    assert pushed == Pushdown(p.expressions[0]).pushed;
    if kept == [] {
      kept := [Value(Bool(true))];
    }
    q := q.(expressions := kept);
    if pushed != [] {
      changed := true;
      q := q.(children := [p.children[0].(filters := pushed)]);
    }
  }

  /** `ExpressionRewriter::rewrite`: all expressions of the operator, then its children. */
  method RewriteExpressions(rule: Rule, ops: Ops, p: Plan) returns (q: Plan, changed: bool)
    ensures Changed(q, changed) == ExpressionPass(rule, ops, p)
    decreases PlanSize(p), 1
  {
    var es, children, below;
    es, changed := RewriteChildren(rule, ops, p.expressions);
    children, below := RewriteExpressionsBelow(rule, ops, p.children);
    q := p.(expressions := es, children := children);
    changed := changed || below;
  }

  method RewriteExpressionsBelow(rule: Rule, ops: Ops, ps: seq<Plan>) returns (children: seq<Plan>, changed: bool)
    ensures children == ExpressionPasses(rule, ops, ps).result
    ensures changed == ExpressionPasses(rule, ops, ps).changed
    decreases PlanSizes(ps), 2
  {
    children, changed := [], false;
    hide ExpressionPass;
    var rest := ps;
    while rest != []
      invariant PlanSizes(rest) <= PlanSizes(ps)
      invariant ExpressionPasses(rule, ops, ps).result == children + ExpressionPasses(rule, ops, rest).result
      invariant ExpressionPasses(rule, ops, ps).changed == (changed || ExpressionPasses(rule, ops, rest).changed)
      decreases |rest|
    {
      PlanSizesHead(rest);
      ExpressionPassesUnroll(rule, ops, rest, children, ExpressionPasses(rule, ops, ps).result);
      var child, subChanged := RewriteExpressions(rule, ops, rest[0]);
      children := children + [child];
      changed := changed || subChanged;
      rest := rest[1..];
    }
  }

  lemma PlanSizesHead(ps: seq<Plan>)
    requires ps != []
    ensures PlanSizes(ps) == PlanSize(ps[0]) + PlanSizes(ps[1..])
  {
  }

  lemma ExpressionPassesUnroll(rule: Rule, ops: Ops, ps: seq<Plan>, done: seq<Plan>, all: seq<Plan>)
    requires ps != [] && all == done + ExpressionPasses(rule, ops, ps).result
    ensures all == (done + [ExpressionPass(rule, ops, ps[0]).result]) + ExpressionPasses(rule, ops, ps[1..]).result
    ensures ExpressionPasses(rule, ops, ps).changed
            == (ExpressionPass(rule, ops, ps[0]).changed || ExpressionPasses(rule, ops, ps[1..]).changed)
  {
    hide ExpressionPass, PlanSize, PlanSizes;
  }

  /** `Rewriter::rewrite`: the three rules at the operator, then the same at each child. */
  method RewriteOperator(rule: Rule, ops: Ops, p: Plan) returns (q: Plan, changed: bool)
    ensures Changed(q, changed) == Pass(rule, ops, p)
    decreases PlanSize(p), 1
  {
    q, changed := RewriteExpressions(rule, ops, p);
    var subChanged;
    q, subChanged := RewritePredicate(ops, q);
    changed := changed || subChanged;
    q, subChanged := PushdownPredicate(q);
    changed := changed || subChanged;
    var children, below := RewriteOperators(rule, ops, q.children);
    q := q.(children := children);
    changed := changed || below;
  }

  method RewriteOperators(rule: Rule, ops: Ops, ps: seq<Plan>) returns (children: seq<Plan>, changed: bool)
    ensures children == Passes(rule, ops, ps).result
    ensures changed == Passes(rule, ops, ps).changed
    decreases PlanSizes(ps), 2
  {
    children, changed := [], false;
    hide Pass;
    var rest := ps;
    while rest != []
      invariant PlanSizes(rest) <= PlanSizes(ps)
      invariant Passes(rule, ops, ps).result == children + Passes(rule, ops, rest).result
      invariant Passes(rule, ops, ps).changed == (changed || Passes(rule, ops, rest).changed)
      decreases |rest|
    {
      PlanSizesHead(rest);
      PassesUnroll(rule, ops, rest, children, Passes(rule, ops, ps).result);
      var child, subChanged := RewriteOperator(rule, ops, rest[0]);
      children := children + [child];
      changed := changed || subChanged;
      rest := rest[1..];
    }
  }

  lemma PassesUnroll(rule: Rule, ops: Ops, ps: seq<Plan>, done: seq<Plan>, all: seq<Plan>)
    requires ps != [] && all == done + Passes(rule, ops, ps).result
    ensures all == (done + [Pass(rule, ops, ps[0]).result]) + Passes(rule, ops, ps[1..]).result
    ensures Passes(rule, ops, ps).changed
            == (Pass(rule, ops, ps[0]).changed || Passes(rule, ops, ps[1..]).changed)
  {
    hide Pass, PlanSize, PlanSizes;
  }

  /** `OptimizeStage::rewrite`: the do-while loop. It ends because every pass that reports a
      change leaves a smaller plan. */
  method Rewrite(rule: Rule, ops: Ops, p: Plan) returns (q: Plan)
    ensures q == Fixpoint(rule, ops, p)
  {
    q := p;
    var changed := true;
    while changed
      invariant Fixpoint(rule, ops, p) == if changed then Fixpoint(rule, ops, q) else q
      decreases changed, PlanSize(q)
    {
      ghost var c := Pass(rule, ops, q);
      q, changed := RewriteOperator(rule, ops, q);
    }
  }
}
