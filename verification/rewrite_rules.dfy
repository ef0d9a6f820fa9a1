/** src/observer/sql/optimizer: the rules that rewrite one expression.

    `comparison_simplification_rule.cpp`, `conjunction_simplification_rule.cpp` and
    `expression_rewriter.cpp`. */
module ExpressionRules {
  import opened Expressions

  /** An expression and whether the rule reports a change. */
  datatype Rewritten = Rewritten(expr: Expr, changed: bool)

  /** `AsWritten` is the conjunction rule of the code: when a constant decides the conjunction, it
      keeps `child_exprs.front()`, and a conjunction of neutral constants becomes an empty one.
      `Intended` keeps the deciding constant (or the neutral one). */
  datatype Rule = AsWritten | Intended

  predicate IsConst(e: Expr) {
    e.Value? && e.v.Bool?
  }

  // ----- ComparisonSimplificationRule

  predicate Foldable(e: Expr) {
    e.Comparison? && e.left.Value? && e.right.Value?
  }

  function Fold(ops: Ops, e: Expr): Expr {
    if Foldable(e) then Value(Bool(ops.compare(e.op, e.left.v, e.right.v))) else e
  }

  // ----- ConjunctionSimplificationRule

  /** The children that are no boolean constants, in order. */
  function Undecided(cs: seq<Expr>): seq<Expr> {
    if cs == [] then []
    else if IsConst(cs[0]) then Undecided(cs[1..])
    else [cs[0]] + Undecided(cs[1..])
  }

  /** Whether a constant child makes the value of the others irrelevant. */
  predicate Decided(isAnd: bool, cs: seq<Expr>) {
    exists i :: 0 <= i < |cs| && Decides(isAnd, cs[i])
  }

  predicate Decides(isAnd: bool, c: Expr) {
    IsConst(c) && c.v.b != isAnd
  }

  /** The children before the first constant that decides. */
  function BeforeDecision(isAnd: bool, cs: seq<Expr>): seq<Expr> {
    if cs == [] || Decides(isAnd, cs[0]) then [] else [cs[0]] + BeforeDecision(isAnd, cs[1..])
  }

  /** What becomes of a conjunction. */
  function Simplify(rule: Rule, isAnd: bool, cs: seq<Expr>): Rewritten {
    if Decided(isAnd, cs) then
      var before := Undecided(BeforeDecision(isAnd, cs));
      if rule.AsWritten? && before != [] then Rewritten(before[0], false)
      else Rewritten(Value(Bool(!isAnd)), false)
    else
      var rest := Undecided(cs);
      if |rest| == 1 then Rewritten(rest[0], true)
      else if rule.Intended? && rest == [] && cs != [] then Rewritten(Value(Bool(isAnd)), false)
      else Rewritten(Conjunction(isAnd, rest), false)
  }

  /** The loop of the rule, which erases constants from the child vector as it goes. */
  method SimplifyConjunction(rule: Rule, isAnd: bool, cs: seq<Expr>) returns (r: Rewritten)
    ensures r == Simplify(rule, isAnd, cs)
  {
    var children := cs;
    var i := 0;
    ghost var seen := 0;
    while i < |children|
      invariant 0 <= seen <= |cs| && i == |Undecided(cs[..seen])|
      invariant children == Undecided(cs[..seen]) + cs[seen..]
      invariant forall k :: 0 <= k < seen ==> !Decides(isAnd, cs[k])
      decreases |children| - i
    {
      EraseStep(cs, seen, children);
      if !IsConst(children[i]) {
        i := i + 1;
      } else if children[i].v.b == isAnd {
        children := children[..i] + children[i + 1..];
      } else {
        BeforeDecisionIs(isAnd, cs, seen);
        var front := if rule.AsWritten? then children[0] else children[i];
        return Rewritten(front, false);
      }
      seen := seen + 1;
    }
    assert seen == |cs| && cs[..seen] == cs && children == Undecided(cs);
    if |children| == 1 {
      return Rewritten(children[0], true);
    }
    if rule.Intended? && children == [] && cs != [] {
      return Rewritten(Value(Bool(isAnd)), false);
    }
    return Rewritten(Conjunction(isAnd, children), false);
  }

  /** One step of the loop, past the child that was at index `k` before any erasure. */
  lemma EraseStep(cs: seq<Expr>, k: nat, children: seq<Expr>)
    requires k <= |cs| && children == Undecided(cs[..k]) + cs[k..]
    requires |Undecided(cs[..k])| < |children|
    ensures var i := |Undecided(cs[..k])|;
      && k < |cs| && children[i] == cs[k]
      && if IsConst(cs[k]) then
           Undecided(cs[..k + 1]) == Undecided(cs[..k])
           && children[..i] + children[i + 1..] == Undecided(cs[..k + 1]) + cs[k + 1..]
         else
           |Undecided(cs[..k + 1])| == i + 1 && children == Undecided(cs[..k + 1]) + cs[k + 1..]
  {
    UndecidedSnoc(cs, k);
    assert cs[k..] == [cs[k]] + cs[k + 1..];
  }

  lemma {:induction false} UndecidedConcat(a: seq<Expr>, b: seq<Expr>)
    ensures Undecided(a + b) == Undecided(a) + Undecided(b)
  {
    if a == [] {
      assert a + b == b;
    } else {
      UndecidedConcat(a[1..], b);
      assert (a + b)[1..] == a[1..] + b;
    }
  }

  lemma UndecidedSnoc(cs: seq<Expr>, k: nat)
    requires k < |cs|
    ensures Undecided(cs[..k + 1]) == Undecided(cs[..k]) + if IsConst(cs[k]) then [] else [cs[k]]
  {
    UndecidedConcat(cs[..k], [cs[k]]);
    assert cs[..k + 1] == cs[..k] + [cs[k]];
  }

  lemma {:induction false} BeforeDecisionIs(isAnd: bool, cs: seq<Expr>, k: nat)
    requires k < |cs| && Decides(isAnd, cs[k])
    requires forall j :: 0 <= j < k ==> !Decides(isAnd, cs[j])
    ensures BeforeDecision(isAnd, cs) == cs[..k]
  {
    if k > 0 {
      assert forall j :: 0 <= j < k - 1 ==> cs[1..][j] == cs[j + 1];
      BeforeDecisionIs(isAnd, cs[1..], k - 1);
      assert cs[..k] == [cs[0]] + cs[1..][..k - 1];
    }
  }

  lemma {:induction false} SimplifyShrinks(rule: Rule, isAnd: bool, cs: seq<Expr>)
    ensures var s := Simplify(rule, isAnd, cs);
      Size(s.expr) <= 1 + Sizes(cs) && (s.changed ==> Size(s.expr) < 1 + Sizes(cs))
  {
    UndecidedShrinks(cs);
    if Decided(isAnd, cs) {
      var before := Undecided(BeforeDecision(isAnd, cs));
      BeforeDecisionShrinks(isAnd, cs);
      UndecidedShrinks(BeforeDecision(isAnd, cs));
      if before != [] {
        SizesMember(before, 0);
      }
    }
  }

  lemma {:induction false} UndecidedShrinks(cs: seq<Expr>)
    ensures Sizes(Undecided(cs)) <= Sizes(cs)
  {
    if cs != [] {
      UndecidedShrinks(cs[1..]);
    }
  }

  lemma {:induction false} BeforeDecisionShrinks(isAnd: bool, cs: seq<Expr>)
    ensures Sizes(BeforeDecision(isAnd, cs)) <= Sizes(cs)
  {
    if cs != [] && !Decides(isAnd, cs[0]) {
      BeforeDecisionShrinks(isAnd, cs[1..]);
    }
  }

  // ----- ExpressionRewriter::rewrite_expression

  /** The two rules, one after the other. */
  function ApplyRules(rule: Rule, ops: Ops, e: Expr): (r: Rewritten)
    ensures Size(r.expr) <= Size(e) && (r.changed ==> Size(r.expr) < Size(e))
  {
    if Foldable(e) then Rewritten(Fold(ops, e), true)
    else if e.Conjunction? then
      SimplifyShrinks(rule, e.isAnd, e.children);
      Simplify(rule, e.isAnd, e.children)
    else Rewritten(e, false)
  }

  /** `rewrite_expression`: the rules at the root, and below it when they report no change. */
  function Rewrite(rule: Rule, ops: Ops, e: Expr): (r: Rewritten)
    ensures Size(r.expr) <= Size(e) && (r.changed ==> Size(r.expr) < Size(e))
    decreases Size(e), 2
  {
    var s := ApplyRules(rule, ops, e);
    if s.changed then s else Descend(rule, ops, s.expr)
  }

  function Descend(rule: Rule, ops: Ops, e: Expr): (r: Rewritten)
    ensures Size(r.expr) <= Size(e) && (r.changed ==> Size(r.expr) < Size(e))
    decreases Size(e), 1
  {
    match e
    case Cast(c) =>
      var s := Rewrite(rule, ops, c);
      Rewritten(Cast(s.expr), s.changed)
    case Comparison(op, a, b) =>
      var s, t := Rewrite(rule, ops, a), Rewrite(rule, ops, b);
      Rewritten(Comparison(op, s.expr, t.expr), s.changed || t.changed)
    case Conjunction(isAnd, cs) =>
      var (ds, changed) := RewriteAll(rule, ops, cs);
      Rewritten(Conjunction(isAnd, ds), changed)
    case _ => Rewritten(e, false)
  }

  function RewriteAll(rule: Rule, ops: Ops, es: seq<Expr>): (r: (seq<Expr>, bool))
    ensures |r.0| == |es|
    ensures Sizes(r.0) <= Sizes(es) && (r.1 ==> Sizes(r.0) < Sizes(es))
    decreases Sizes(es), 3
  {
    if es == [] then ([], false)
    else
      var s := Rewrite(rule, ops, es[0]);
      var (rest, changed) := RewriteAll(rule, ops, es[1..]);
      ([s.expr] + rest, s.changed || changed)
  }

  lemma InPlace<T>(all: seq<T>, done: seq<T>, rest: seq<T>, x: T)
    requires all == done + rest && rest != []
    ensures all[|done| := x] == (done + [x]) + rest[1..]
  {
  }

  lemma Regroup<T>(a: seq<T>, x: T, b: seq<T>)
    ensures a + ([x] + b) == (a + [x]) + b
  {
  }

  lemma RewriteNone(rule: Rule, ops: Ops)
    ensures RewriteAll(rule, ops, []) == ([], false)
  {
  }

  lemma RewriteAllAt(rule: Rule, ops: Ops, cs: seq<Expr>, i: nat)
    requires i < |cs|
    ensures var s, rest := Rewrite(rule, ops, cs[i]), RewriteAll(rule, ops, cs[i + 1..]);
      RewriteAll(rule, ops, cs[i..]) == ([s.expr] + rest.0, s.changed || rest.1)
  {
    assert cs[i..][0] == cs[i] && cs[i..][1..] == cs[i + 1..];
  }

  /** `rewrite_expression` as the code runs it. */
  method RewriteExpression(rule: Rule, ops: Ops, e: Expr) returns (expr: Expr, changed: bool)
    ensures Rewritten(expr, changed) == Rewrite(rule, ops, e)
    decreases Size(e), 1
  {
    expr, changed := e, false;
    if Foldable(expr) {
      expr, changed := Value(Bool(ops.compare(expr.op, expr.left.v, expr.right.v))), true;
    } else if expr.Conjunction? {
      var s := SimplifyConjunction(rule, expr.isAnd, expr.children);
      expr, changed := s.expr, s.changed;
    }
    assert Rewritten(expr, changed) == ApplyRules(rule, ops, e);
    if changed {
      return;
    }
    match expr
    case Cast(c) =>
      var d;
      d, changed := RewriteExpression(rule, ops, c);
      expr := Cast(d);
    case Comparison(op, a, b) =>
      var left, leftChanged := RewriteExpression(rule, ops, a);
      var right, rightChanged := RewriteExpression(rule, ops, b);
      expr, changed := Comparison(op, left, right), leftChanged || rightChanged;
    case Conjunction(isAnd, cs) =>
      var children;
      children, changed := RewriteChildren(rule, ops, cs);
      expr := Conjunction(isAnd, children);
    case _ =>
  }

  /** The loop over the children: each is rewritten in its place, and the flags are collected. */
  method RewriteChildren(rule: Rule, ops: Ops, cs: seq<Expr>) returns (children: seq<Expr>, changed: bool)
    ensures (children, changed) == RewriteAll(rule, ops, cs)
    decreases Sizes(cs), 2
  {
    children, changed := cs, false;
    ghost var done := [];
    ghost var whole := RewriteAll(rule, ops, cs);
    assert cs[0..] == cs;
    hide Rewrite, RewriteAll;
    for i := 0 to |cs|
      invariant |done| == i && children == done + cs[i..]
      invariant whole.0 == done + RewriteAll(rule, ops, cs[i..]).0
      invariant whole.1 == (changed || RewriteAll(rule, ops, cs[i..]).1)
    {
      SizesMember(cs, i);
      RewriteAllAt(rule, ops, cs, i);
      assert children[i] == cs[i];
      var child, subChanged := RewriteExpression(rule, ops, children[i]);
      InPlace(children, done, cs[i..], child);
      Regroup(done, child, RewriteAll(rule, ops, cs[i + 1..]).0);
      children := children[i := child];
      changed := changed || subChanged;
      done := done + [child];
    }
    RewriteNone(rule, ops);
    assert cs[|cs|..] == [];
    assert whole.0 == done + [] == children;
  }
}
