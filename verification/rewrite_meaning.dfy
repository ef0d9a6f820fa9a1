/** What the expression rules do to the meaning of a filter. */
module RewriteMeaning {
  import opened Expressions
  import opened ExpressionRules

  // ----- The children of one conjunction

  /** Neutral constants do not matter. */
  lemma {:induction false} UndecidedHolds<Row>(w: World<Row>, isAnd: bool, cs: seq<Expr>, r: Row)
    requires !Decided(isAnd, cs)
    ensures Holds(w, isAnd, Undecided(cs), r) == Holds(w, isAnd, cs, r)
  {
    if cs != [] {
      assert !Decides(isAnd, cs[0]);
      assert forall i :: 0 <= i < |cs| - 1 ==> cs[1..][i] == cs[i + 1];
      UndecidedHolds(w, isAnd, cs[1..], r);
    }
  }

  /** A deciding constant decides. */
  lemma {:induction false} DecidedHolds<Row>(w: World<Row>, isAnd: bool, cs: seq<Expr>, r: Row)
    requires Decided(isAnd, cs)
    ensures Holds(w, isAnd, cs, r) == !isAnd
  {
    var i :| 0 <= i < |cs| && Decides(isAnd, cs[i]);
    if i > 0 && True(w, cs[0], r) == isAnd {
      assert cs[1..][i - 1] == cs[i];
      DecidedHolds(w, isAnd, cs[1..], r);
    }
  }

  /** The intended rule keeps the truth of every conjunction. */
  lemma IntendedSimplifyKeepsTruth<Row>(w: World<Row>, isAnd: bool, cs: seq<Expr>, r: Row)
    ensures True(w, Simplify(Intended, isAnd, cs).expr, r) == True(w, Conjunction(isAnd, cs), r)
  {
    if Decided(isAnd, cs) {
      DecidedHolds(w, isAnd, cs, r);
    } else {
      UndecidedHolds(w, isAnd, cs, r);
    }
  }

  // ----- The intended rule, on expressions of any depth

  /** Conjunctions stand where only a truth value is needed: at the root, in a conjunction, in a
      cast to boolean. */
  predicate Typed(e: Expr)
    decreases e, 1
  {
    if e.Conjunction? then forall i :: 0 <= i < |e.children| ==> Typed(e.children[i])
    else ValueTyped(e)
  }

  predicate ValueTyped(e: Expr)
    decreases e, 0
  {
    match e
    case Cast(c) => Typed(c)
    case Comparison(_, a, b) => ValueTyped(a) && ValueTyped(b)
    case Conjunction(_, _) => false
    case _ => true
  }

  lemma ValueTypedIsTyped(e: Expr)
    requires ValueTyped(e)
    ensures Typed(e)
  {
  }

  predicate AllTyped(es: seq<Expr>) {
    forall i :: 0 <= i < |es| ==> Typed(es[i])
  }

  lemma {:induction false} UndecidedTyped(cs: seq<Expr>)
    requires AllTyped(cs)
    ensures AllTyped(Undecided(cs))
  {
    if cs != [] {
      assert AllTyped(cs[1..]);
      UndecidedTyped(cs[1..]);
    }
  }

  lemma FoldKeepsValue<Row>(w: World<Row>, e: Expr, r: Row)
    ensures Eval(w, Fold(w.ops, e), r) == Eval(w, e, r)
  {
    if Foldable(e) {
      assert Eval(w, e.left, r) == e.left.v && Eval(w, e.right, r) == e.right.v;
    }
  }

  lemma IntendedRulesKeepTruth<Row>(w: World<Row>, e: Expr, r: Row)
    requires Typed(e)
    ensures var s := ApplyRules(Intended, w.ops, e).expr;
      Typed(s) && True(w, s, r) == True(w, e, r) && (ValueTyped(e) ==> ValueTyped(s) && Eval(w, s, r) == Eval(w, e, r))
  {
    if e.Conjunction? {
      IntendedSimplifyKeepsTruth(w, e.isAnd, e.children, r);
      assert AllTyped(e.children);
      UndecidedTyped(e.children);
      var rest := Undecided(e.children);
      if |rest| == 1 {
        assert Typed(rest[0]);
      }
      assert forall b :: ValueTyped(Value(b)) && Typed(Value(b));
      assert Typed(Conjunction(e.isAnd, rest));
    } else if Foldable(e) {
      FoldKeepsValue(w, e, r);
      assert Typed(Fold(w.ops, e));
    }
  }

  /** The intended rewriting keeps the truth of every well-typed expression, however nested, and
      the value of every expression that is used for its value. */
  lemma {:induction false} IntendedRewriteKeepsMeaning<Row>(w: World<Row>, e: Expr, r: Row)
    requires Typed(e)
    ensures var t := Rewrite(Intended, w.ops, e).expr;
      Typed(t) && True(w, t, r) == True(w, e, r) && (ValueTyped(e) ==> ValueTyped(t) && Eval(w, t, r) == Eval(w, e, r))
    decreases Size(e), 2
  {
    IntendedRulesKeepTruth(w, e, r);
    var s := ApplyRules(Intended, w.ops, e);
    if !s.changed {
      IntendedDescendKeepsMeaning(w, s.expr, r);
    }
  }

  lemma {:induction false} IntendedDescendKeepsMeaning<Row>(w: World<Row>, e: Expr, r: Row)
    requires Typed(e)
    ensures var t := Descend(Intended, w.ops, e).expr;
      Typed(t) && True(w, t, r) == True(w, e, r) && (ValueTyped(e) ==> ValueTyped(t) && Eval(w, t, r) == Eval(w, e, r))
    decreases Size(e), 1
  {
    match e
    case Cast(c) => IntendedRewriteKeepsMeaning(w, c, r);
    case Comparison(_, a, b) =>
      ValueTypedIsTyped(a);
      ValueTypedIsTyped(b);
      IntendedRewriteKeepsMeaning(w, a, r);
      IntendedRewriteKeepsMeaning(w, b, r);
    case Conjunction(isAnd, cs) =>
      assert AllTyped(cs);
      IntendedRewriteAllKeepsMeaning(w, isAnd, cs, r);
    case _ =>
  }

  lemma {:induction false} IntendedRewriteAllKeepsMeaning<Row>(w: World<Row>, isAnd: bool, es: seq<Expr>, r: Row)
    requires AllTyped(es)
    ensures var ts := RewriteAll(Intended, w.ops, es).0;
      AllTyped(ts) && Holds(w, isAnd, ts, r) == Holds(w, isAnd, es, r)
    decreases Sizes(es), 3
  {
    if es != [] {
      assert AllTyped(es[1..]);
      IntendedRewriteKeepsMeaning(w, es[0], r);
      IntendedRewriteAllKeepsMeaning(w, isAnd, es[1..], r);
      var t, ts := Rewrite(Intended, w.ops, es[0]).expr, RewriteAll(Intended, w.ops, es[1..]).0;
      assert ([t] + ts)[1..] == ts;
    }
  }

  // ----- The rule as written, on the filters the generator builds

  predicate Leaf(e: Expr) {
    e.Field? || e.Value? || e.Other?
  }

  /** One condition of a WHERE clause. */
  predicate Atom(e: Expr) {
    e.Other? || (e.Comparison? && Leaf(e.left) && Leaf(e.right))
  }

  /** A condition that cannot be evaluated without a row. */
  predicate Open(e: Expr) {
    Atom(e) && !Foldable(e)
  }

  function FoldAll(ops: Ops, cs: seq<Expr>): (fs: seq<Expr>)
    ensures |fs| == |cs|
    ensures forall i :: 0 <= i < |cs| ==> fs[i] == Fold(ops, cs[i])
  {
    if cs == [] then [] else [Fold(ops, cs[0])] + FoldAll(ops, cs[1..])
  }

  /** What filter `e` comes to under the rewriting with rule `rule`, as a function of the row:
      constants are folded first, then the conjunction rule has its way. A conjunction of one
      condition is unwrapped before anything is folded. */
  predicate Outcome<Row>(w: World<Row>, rule: Rule, e: Expr, r: Row) {
    if e.Conjunction? && !(|e.children| == 1 && !IsConst(e.children[0]))
    then True(w, Simplify(rule, e.isAnd, FoldAll(w.ops, e.children)).expr, r)
    else if e.Conjunction? then True(w, e.children[0], r)
    else True(w, e, r)
  }

  /** A flat filter on its way through the passes: constants and foldable conditions do not occur
      together. */
  ghost predicate Flat(e: Expr) {
    || IsConst(e) || Atom(e)
    || (e.Conjunction?
        && (forall c <- e.children :: Atom(c) || IsConst(c))
        && ((forall c <- e.children :: !IsConst(c)) || (forall c <- e.children :: !Foldable(c))))
  }

  /** A flat filter in which everything foldable is folded, at least below the root. */
  ghost predicate Folded(e: Expr) {
    IsConst(e) || Atom(e) || (e.Conjunction? && forall c <- e.children :: Open(c) || IsConst(c))
  }

  /** A filter without anything left to simplify away. */
  ghost predicate Settled(e: Expr) {
    IsConst(e) || Open(e) || (e.Conjunction? && forall c <- e.children :: Open(c))
  }

  lemma AtomRewrite(rule: Rule, ops: Ops, e: Expr)
    requires Atom(e) || IsConst(e)
    ensures Rewrite(rule, ops, e).expr == Fold(ops, e)
    ensures Rewrite(rule, ops, e).changed == Foldable(e)
  {
    if e.Comparison? && !Foldable(e) {
      LeafRewrite(rule, ops, e.left);
      LeafRewrite(rule, ops, e.right);
    }
  }

  lemma LeafRewrite(rule: Rule, ops: Ops, e: Expr)
    requires Leaf(e)
    ensures Rewrite(rule, ops, e) == Rewritten(e, false)
  {
  }

  lemma {:induction false} AtomsRewrite(rule: Rule, ops: Ops, cs: seq<Expr>)
    requires forall c <- cs :: Atom(c) || IsConst(c)
    ensures RewriteAll(rule, ops, cs).0 == FoldAll(ops, cs)
    ensures RewriteAll(rule, ops, cs).1 <==> exists c <- cs :: Foldable(c)
  {
    if cs != [] {
      AtomRewrite(rule, ops, cs[0]);
      AtomsRewrite(rule, ops, cs[1..]);
      assert cs == [cs[0]] + cs[1..];
    }
  }

  lemma {:induction false} NothingToFold(ops: Ops, cs: seq<Expr>)
    requires forall c <- cs :: !Foldable(c)
    ensures FoldAll(ops, cs) == cs
  {
    if cs != [] {
      NothingToFold(ops, cs[1..]);
    }
  }

  lemma {:induction false} NothingDecided(cs: seq<Expr>)
    requires forall c <- cs :: !IsConst(c)
    ensures Undecided(cs) == cs
  {
    if cs != [] {
      NothingDecided(cs[1..]);
    }
  }

  lemma {:induction false} UndecidedMembers(cs: seq<Expr>)
    ensures forall c <- Undecided(cs) :: c in cs && !IsConst(c)
  {
    if cs != [] {
      UndecidedMembers(cs[1..]);
    }
  }

  lemma {:induction false} BeforeDecisionMembers(isAnd: bool, cs: seq<Expr>)
    ensures forall c <- BeforeDecision(isAnd, cs) :: c in cs
  {
    if cs != [] && !Decides(isAnd, cs[0]) {
      BeforeDecisionMembers(isAnd, cs[1..]);
    }
  }

  // ----- One rewriting of a flat filter

  lemma DescendConst(rule: Rule, ops: Ops, e: Expr)
    requires IsConst(e) || Open(e)
    ensures Descend(rule, ops, e).expr == e
  {
    AtomRewrite(rule, ops, e);
  }

  /** No constants: a single condition is unwrapped, several are folded in place. */
  lemma RewriteWithoutConsts(rule: Rule, ops: Ops, e: Expr)
    requires e.Conjunction? && forall c <- e.children :: Atom(c)
    ensures Rewrite(rule, ops, e).expr
            == if |e.children| == 1 then e.children[0] else Conjunction(e.isAnd, FoldAll(ops, e.children))
  {
    NothingDecided(e.children);
    AtomsRewrite(rule, ops, e.children);
    assert forall i :: 0 <= i < |e.children| ==> Atom(e.children[i]);
  }

  /** Nothing to fold: the conjunction rule alone determines the result. */
  lemma RewriteWithoutFolds(rule: Rule, ops: Ops, e: Expr)
    requires e.Conjunction? && forall c <- e.children :: Open(c) || IsConst(c)
    ensures Rewrite(rule, ops, e).expr == Simplify(rule, e.isAnd, e.children).expr
    ensures Settled(Rewrite(rule, ops, e).expr)
  {
    var s, rest := Simplify(rule, e.isAnd, e.children), Undecided(e.children);
    UndecidedMembers(e.children);
    if Decided(e.isAnd, e.children) {
      var before := BeforeDecision(e.isAnd, e.children);
      UndecidedMembers(before);
      BeforeDecisionMembers(e.isAnd, e.children);
      if Undecided(before) != [] {
        assert Undecided(before)[0] in Undecided(before);
      }
      DescendConst(rule, ops, s.expr);
    } else if |rest| == 1 {
      assert rest[0] in rest;
    } else if s.expr.Value? {
      DescendConst(rule, ops, s.expr);
    } else {
      AtomsRewrite(rule, ops, rest);
      NothingToFold(ops, rest);
    }
  }

  lemma {:induction false} FoldAllMembers(ops: Ops, cs: seq<Expr>)
    ensures forall f <- FoldAll(ops, cs) :: exists c <- cs :: f == Fold(ops, c)
  {
    if cs != [] {
      FoldAllMembers(ops, cs[1..]);
      assert cs == [cs[0]] + cs[1..];
    }
  }

  lemma {:induction false} FoldAllCloses(ops: Ops, cs: seq<Expr>)
    requires forall c <- cs :: Atom(c)
    ensures forall f <- FoldAll(ops, cs) :: Open(f) || IsConst(f)
  {
    if cs != [] {
      FoldAllCloses(ops, cs[1..]);
    }
  }

  /** One rewriting moves a flat filter towards the settled form. */
  lemma FlatRewriteSettles(rule: Rule, ops: Ops, e: Expr)
    requires Flat(e)
    ensures var t := Rewrite(rule, ops, e).expr;
      Flat(t) && Folded(t) && (Folded(e) ==> Settled(t))
  {
    if !e.Conjunction? {
      AtomRewrite(rule, ops, e);
    } else if forall c <- e.children :: !Foldable(c) {
      RewriteWithoutFolds(rule, ops, e);
    } else {
      RewriteWithoutConsts(rule, ops, e);
      FoldAllCloses(ops, e.children);
      if |e.children| == 1 {
        assert Atom(e.children[0]);
      }
    }
  }

  lemma OutcomeOfSettled<Row>(w: World<Row>, rule: Rule, e: Expr, r: Row)
    requires Settled(e)
    ensures Outcome(w, rule, e, r) == True(w, e, r)
  {
    if e.Conjunction? {
      NothingToFold(w.ops, e.children);
      NothingDecided(e.children);
      assert forall i :: 0 <= i < |e.children| ==> Open(e.children[i]);
      if |e.children| == 1 {
        HoldsMeaning(w, e.isAnd, e.children, r);
      }
    }
  }

  /** One rewriting keeps the outcome of a flat filter. */
  lemma FlatRewriteKeepsOutcome<Row>(w: World<Row>, rule: Rule, e: Expr, r: Row)
    requires Flat(e)
    ensures Outcome(w, rule, Rewrite(rule, w.ops, e).expr, r) == Outcome(w, rule, e, r)
  {
    var t := Rewrite(rule, w.ops, e).expr;
    if !e.Conjunction? {
      AtomRewrite(rule, w.ops, e);
      FoldKeepsValue(w, e, r);
    } else if forall c <- e.children :: !Foldable(c) {
      RewriteWithoutFolds(rule, w.ops, e);
      OutcomeOfSettled(w, rule, t, r);
      NothingToFold(w.ops, e.children);
      if |e.children| == 1 && !IsConst(e.children[0]) {
        NothingDecided(e.children);
      }
    } else {
      RewriteWithoutConsts(rule, w.ops, e);
      if |e.children| != 1 {
        var fs := FoldAll(w.ops, e.children);
        FoldAllMembers(w.ops, e.children);
        NothingToFold(w.ops, fs);
      }
    }
  }
}
