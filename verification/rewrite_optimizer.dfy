/** The optimizer keeps the rows of every plan the generator builds, loses no filter, and stops. */
module OptimizerCorrectness {
  import opened Expressions
  import opened ExpressionRules
  import opened RewriteMeaning
  import opened Plans

  // ----- The shape of plans between passes

  /** Table-gets and joins of them. */
  predicate Source(p: Plan) {
    && p.expressions == []
    && match p.kind
       case TableGet(_) => p.children == []
       case Join => |p.children| == 2 && Source(p.children[0]) && Source(p.children[1])
       case _ => false
  }

  /** No condition of a flat filter can be pushed down. */
  predicate NoPush(e: Expr) {
    !Pushable(e) && (e.Conjunction? ==> forall c <- e.children :: !Pushable(c))
  }

  /** How far the filter of a predicate operator has got: as generated, folded, settled. */
  ghost predicate AtStage(e: Expr, stage: nat) {
    Flat(e) && (stage >= 1 ==> Folded(e)) && (stage >= 2 ==> Settled(e))
  }

  /** A predicate above a source; once filters have been pushed down, none is left to push. */
  ghost predicate Filtered(p: Plan, stage: nat) {
    && p.kind.Predicate? && |p.expressions| == 1 && |p.children| == 1
    && Source(p.children[0]) && AtStage(p.expressions[0], stage)
    && (p.children[0].kind.TableGet? && p.children[0].filters != [] ==> NoPush(p.expressions[0]))
  }

  /** Pipes over at most one predicate over a source. */
  ghost predicate Shape(p: Plan, stage: nat) {
    match p.kind
    case Pipe(_) =>
      p.expressions == [] && |p.children| <= 1 && (p.children != [] ==> Shape(p.children[0], stage))
    case Predicate => Filtered(p, stage)
    case _ => Source(p)
  }

  // ----- Expressions

  lemma FlatRewriteKeepsNoPush(rule: Rule, ops: Ops, e: Expr)
    requires Flat(e) && NoPush(e)
    ensures NoPush(Rewrite(rule, ops, e).expr)
  {
    if !e.Conjunction? {
      AtomRewrite(rule, ops, e);
    } else if forall c <- e.children :: !Foldable(c) {
      RewriteWithoutFolds(rule, ops, e);
      SimplifyMembers(rule, e.isAnd, e.children);
    } else {
      RewriteWithoutConsts(rule, ops, e);
      FoldAllMembers(ops, e.children);
    }
  }

  lemma SimplifyMembers(rule: Rule, isAnd: bool, cs: seq<Expr>)
    ensures var s := Simplify(rule, isAnd, cs).expr;
      IsConst(s) || s in cs || (s.Conjunction? && forall c <- s.children :: c in cs)
  {
    UndecidedMembers(cs);
    var before := BeforeDecision(isAnd, cs);
    BeforeDecisionMembers(isAnd, cs);
    UndecidedMembers(before);
    if Undecided(before) != [] {
      assert Undecided(before)[0] in Undecided(before);
    }
    if Undecided(cs) != [] {
      assert Undecided(cs)[0] in Undecided(cs);
    }
  }

  lemma RewriteOne(rule: Rule, ops: Ops, es: seq<Expr>)
    requires |es| <= 1
    ensures RewriteAll(rule, ops, es)
            == if es == [] then ([], false)
               else ([Rewrite(rule, ops, es[0]).expr], Rewrite(rule, ops, es[0]).changed)
  {
    if |es| == 1 {
      assert es[1..] == [];
      assert RewriteAll(rule, ops, es[1..]) == ([], false);
      assert [Rewrite(rule, ops, es[0]).expr] + [] == [Rewrite(rule, ops, es[0]).expr];
    }
  }

  // ----- ExpressionRewriter

  lemma PassesBelowCons(rule: Rule, ops: Ops, ps: seq<Plan>)
    requires ps != []
    ensures var first, rest := ExpressionPass(rule, ops, ps[0]), ExpressionPasses(rule, ops, ps[1..]);
      ExpressionPasses(rule, ops, ps) == Changed([first.result] + rest.result, first.changed || rest.changed)
  {
    hide ExpressionPass;
  }

  lemma {:induction false} PassesBelow(rule: Rule, ops: Ops, ps: seq<Plan>)
    requires forall i :: 0 <= i < |ps| ==> ExpressionPass(rule, ops, ps[i]) == Changed(ps[i], false)
    ensures ExpressionPasses(rule, ops, ps) == Changed(ps, false)
  {
    if ps != [] {
      PassesBelowCons(rule, ops, ps);
      hide ExpressionPass, ExpressionPasses;
      assert forall i :: 0 <= i < |ps| - 1 ==> ps[1..][i] == ps[i + 1];
      PassesBelow(rule, ops, ps[1..]);
      assert [ps[0]] + ps[1..] == ps;
    }
  }

  lemma {:induction false} SourceUntouched(rule: Rule, ops: Ops, p: Plan)
    requires Source(p)
    ensures ExpressionPass(rule, ops, p) == Changed(p, false)
    decreases p
  {
    RewriteOne(rule, ops, p.expressions);
    hide RewriteAll;
    forall i | 0 <= i < |p.children|
      ensures ExpressionPass(rule, ops, p.children[i]) == Changed(p.children[i], false)
    {
      SourceUntouched(rule, ops, p.children[i]);
    }
    PassesBelow(rule, ops, p.children);
    hide ExpressionPasses;
  }

  lemma {:induction false} ExpressionPassSettles(rule: Rule, ops: Ops, p: Plan, stage: nat)
    requires Shape(p, stage)
    ensures var p' := ExpressionPass(rule, ops, p).result;
      p'.kind == p.kind && |p'.children| == |p.children| && Shape(p', stage + 1)
    decreases p
  {
    RewriteOne(rule, ops, p.expressions);
    match p.kind
    case Pipe(_) =>
      if p.children != [] {
        ExpressionPassSettles(rule, ops, p.children[0], stage);
      }
    case Predicate =>
      var e := p.expressions[0];
      SourceUntouched(rule, ops, p.children[0]);
      FlatRewriteSettles(rule, ops, e);
      if NoPush(e) {
        FlatRewriteKeepsNoPush(rule, ops, e);
      }
    case _ =>
      SourceUntouched(rule, ops, p);
  }

  lemma {:induction false} SelectAgrees<Row>(w: World<Row>, a: Reading, e: Expr, b: Reading, f: Expr, rows: seq<Row>)
    requires forall r <- rows :: Meets(w, a, e, r) == Meets(w, b, f, r)
    ensures Select(w, a, e, rows) == Select(w, b, f, rows)
  {
    if rows != [] {
      assert rows[0] in rows;
      SelectAgrees(w, a, e, b, f, rows[1..]);
    }
  }

  lemma {:induction false} ExpressionPassKeepsRows<Row>(w: World<Row>, rule: Rule, p: Plan, stage: nat)
    requires Shape(p, stage)
    ensures Rows(w, Rewriting(rule), ExpressionPass(rule, w.ops, p).result) == Rows(w, Rewriting(rule), p)
    decreases p
  {
    RewriteOne(rule, w.ops, p.expressions);
    match p.kind
    case Pipe(_) =>
      if p.children != [] {
        ExpressionPassKeepsRows(w, rule, p.children[0], stage);
      }
    case Predicate =>
      var e := p.expressions[0];
      var below := Rows(w, Rewriting(rule), p.children[0]);
      SourceUntouched(rule, w.ops, p.children[0]);
      forall r | r in below
        ensures Meets(w, Rewriting(rule), Rewrite(rule, w.ops, e).expr, r) == Meets(w, Rewriting(rule), e, r)
      {
        FlatRewriteKeepsOutcome(w, rule, e, r);
      }
      SelectAgrees(w, Rewriting(rule), Rewrite(rule, w.ops, e).expr, Rewriting(rule), e, below);
    case _ =>
      SourceUntouched(rule, w.ops, p);
  }

  // ----- PredicateRewriteRule

  lemma {:induction false} SelectConstant<Row>(w: World<Row>, how: Reading, v: Val, rows: seq<Row>)
    ensures Select(w, how, Value(v), rows) == if Truth(w.ops, v) then rows else []
  {
    if rows != [] {
      SelectConstant(w, how, v, rows[1..]);
    }
  }

  /** Removing a constant predicate below a pipe keeps its rows, also when nothing is left below. */
  lemma RemoveConstantKeepsRows<Row>(w: World<Row>, how: Reading, p: Plan, stage: nat)
    requires Shape(p, stage) && p.kind.Pipe?
    ensures var p' := RemoveConstant(w.ops, p).result;
      Shape(p', stage) && p'.kind == p.kind && Rows(w, how, p') == Rows(w, how, p)
  {
    if ConstantBelow(p) {
      var child := p.children[0];
      SelectConstant(w, how, child.expressions[0].v, Rows(w, how, child.children[0]));
    }
  }

  // ----- PredicatePushdownRewriter

  lemma PushdownOpen(c: Expr)
    requires Open(c)
    ensures Pushdown(c) == if Pushable(c) then Split([], [c]) else Split([c], [])
  {
  }

  lemma PushdownAllCons(cs: seq<Expr>)
    requires cs != [] && Open(cs[0])
    ensures var rest := PushdownAll(cs[1..]);
      PushdownAll(cs) == if Pushable(cs[0]) then Split(rest.kept, [cs[0]] + rest.pushed)
                         else Split([cs[0]] + rest.kept, rest.pushed)
  {
    PushdownOpen(cs[0]);
    var rest := PushdownAll(cs[1..]);
    assert [] + rest.kept == rest.kept && [] + rest.pushed == rest.pushed;
  }

  lemma {:induction false} PushdownAllMembers(cs: seq<Expr>)
    requires forall c <- cs :: Open(c)
    ensures forall c <- PushdownAll(cs).kept :: c in cs && !Pushable(c)
    ensures (forall c <- cs :: !Pushable(c)) ==> PushdownAll(cs).pushed == []
  {
    if cs != [] {
      assert cs[0] in cs;
      PushdownAllCons(cs);
      hide PushdownAll, Pushdown;
      PushdownAllMembers(cs[1..]);
    }
  }

  /** The conditions that go down and those that stay make up the old filter. */
  lemma {:induction false} PushdownAllParts<Row>(w: World<Row>, cs: seq<Expr>, r: Row)
    requires forall c <- cs :: Open(c)
    ensures var s := PushdownAll(cs);
      Holds(w, true, cs, r) == (Holds(w, true, s.pushed, r) && Holds(w, true, s.kept, r))
  {
    if cs != [] {
      assert cs[0] in cs;
      PushdownAllCons(cs);
      PushdownAllParts(w, cs[1..], r);
      var rest := PushdownAll(cs[1..]);
      assert ([cs[0]] + rest.pushed)[1..] == rest.pushed && ([cs[0]] + rest.kept)[1..] == rest.kept;
    }
  }

  /** What `PushFilters` leaves of the filter. */
  function Kept(e: Expr): Expr {
    var s := Pushdown(e);
    if s.kept == [] then Value(Bool(true)) else s.kept[0]
  }

  /** After a pushdown nothing is left to push, now or after more rewriting. */
  lemma PushdownSettles(e: Expr)
    requires Settled(e)
    ensures Settled(Kept(e))
    ensures Pushdown(e).pushed != [] ==> NoPush(Kept(e))
    ensures Pushdown(e).pushed == [] ==> Kept(e) == e
    ensures NoPush(e) ==> Pushdown(e).pushed == []
  {
    if e.Conjunction? && e.isAnd {
      PushdownAllMembers(e.children);
      if PushdownAll(e.children).pushed == [] {
        NothingPushed(e.children);
      }
    }
  }

  lemma {:induction false} NothingPushed(cs: seq<Expr>)
    requires (forall c <- cs :: Open(c)) && PushdownAll(cs).pushed == []
    ensures PushdownAll(cs).kept == cs
  {
    if cs != [] {
      assert cs[0] in cs;
      PushdownAllCons(cs);
      hide PushdownAll, Pushdown;
      NothingPushed(cs[1..]);
      assert cs == [cs[0]] + cs[1..];
    }
  }

  lemma PushdownParts<Row>(w: World<Row>, e: Expr, r: Row)
    requires Settled(e)
    ensures True(w, e, r) == (Holds(w, true, Pushdown(e).pushed, r) && True(w, Kept(e), r))
  {
    if e.Conjunction? && e.isAnd {
      PushdownAllParts(w, e.children, r);
      assert Kept(e) == Conjunction(true, PushdownAll(e.children).kept);
    } else if Pushable(e) {
      assert [e][0] == e && [e][1..] == [];
    }
  }

  lemma SelectCons<Row>(w: World<Row>, how: Reading, e: Expr, x: Row, rows: seq<Row>)
    ensures Select(w, how, e, [x] + rows)
            == (if Meets(w, how, e, x) then [x] else []) + Select(w, how, e, rows)
  {
    assert ([x] + rows)[1..] == rows;
  }

  lemma {:induction false} SelectScan<Row>(w: World<Row>, e: Expr, f: Expr, pushed: seq<Expr>, rows: seq<Row>)
    requires forall r <- rows :: True(w, e, r) == (Holds(w, true, pushed, r) && True(w, f, r))
    ensures Select(w, Plain, e, Scan(w, [], rows)) == Select(w, Plain, f, Scan(w, pushed, rows))
  {
    if rows != [] {
      var x, rest := rows[0], rows[1..];
      assert x in rows;
      SelectScan(w, e, f, pushed, rest);
      assert Scan(w, [], rows) == [x] + Scan(w, [], rest) by {
        assert Holds(w, true, [], x);
      }
      SelectCons(w, Plain, e, x, Scan(w, [], rest));
      if Holds(w, true, pushed, x) {
        SelectCons(w, Plain, f, x, Scan(w, pushed, rest));
      } else {
        assert Scan(w, pushed, rows) == Scan(w, pushed, rest);
        assert Select(w, Plain, e, Scan(w, [], rows)) == Select(w, Plain, e, Scan(w, [], rest));
      }
    }
  }

  /** Pushing filters into the table-get below keeps the rows: the filters it replaces are none. */
  lemma PushFiltersKeepsRows<Row>(w: World<Row>, rule: Rule, p: Plan)
    requires Filtered(p, 2)
    ensures var p' := PushFilters(p).result;
      && Filtered(p', 2) && Rows(w, Rewriting(rule), p') == Rows(w, Rewriting(rule), p)
      && (PushFilters(p).changed ==> p.children[0].filters == [])
  {
    if PushesInto(p) {
      var e, get := p.expressions[0], p.children[0];
      var rows := w.table(get.kind.table);
      PushdownSettles(e);
      forall r | r in rows
        ensures True(w, e, r) == (Holds(w, true, Pushdown(e).pushed, r) && True(w, Kept(e), r))
      {
        PushdownParts(w, e, r);
      }
      if Pushdown(e).pushed == [] {
        assert PushFilters(p).result == p;
      } else {
        SelectScan(w, e, Kept(e), Pushdown(e).pushed, rows);
        SettledSelect(w, rule, e, Scan(w, [], rows));
        SettledSelect(w, rule, Kept(e), Scan(w, Pushdown(e).pushed, rows));
      }
    }
  }

  lemma SettledSelect<Row>(w: World<Row>, rule: Rule, e: Expr, rows: seq<Row>)
    requires Settled(e)
    ensures Select(w, Rewriting(rule), e, rows) == Select(w, Plain, e, rows)
  {
    forall r | r in rows ensures Meets(w, Rewriting(rule), e, r) == Meets(w, Plain, e, r) {
      OutcomeOfSettled(w, rule, e, r);
    }
    SelectAgrees(w, Rewriting(rule), e, Plain, e, rows);
  }

  // ----- Rewriter: one pass

  lemma {:induction false} MoreSettled(p: Plan, a: nat, b: nat)
    requires Shape(p, a) && (b <= a || 2 <= a)
    ensures Shape(p, b)
    decreases p
  {
    if p.kind.Pipe? && p.children != [] {
      MoreSettled(p.children[0], a, b);
    }
  }

  lemma PassesOne(rule: Rule, ops: Ops, ps: seq<Plan>)
    requires |ps| <= 1
    ensures Passes(rule, ops, ps)
            == if ps == [] then Changed([], false)
               else Changed([Pass(rule, ops, ps[0]).result], Pass(rule, ops, ps[0]).changed)
  {
    if |ps| == 1 {
      assert ps[1..] == [];
      assert Passes(rule, ops, ps[1..]) == Changed([], false);
      assert [Pass(rule, ops, ps[0]).result] + [] == [Pass(rule, ops, ps[0]).result];
    }
  }

  lemma PassesCons(rule: Rule, ops: Ops, ps: seq<Plan>)
    requires ps != []
    ensures var first, rest := Pass(rule, ops, ps[0]), Passes(rule, ops, ps[1..]);
      Passes(rule, ops, ps) == Changed([first.result] + rest.result, first.changed || rest.changed)
  {
    hide Pass;
  }

  lemma {:induction false} PassesUntouched(rule: Rule, ops: Ops, ps: seq<Plan>)
    requires forall i :: 0 <= i < |ps| ==> Pass(rule, ops, ps[i]) == Changed(ps[i], false)
    ensures Passes(rule, ops, ps) == Changed(ps, false)
  {
    if ps != [] {
      PassesCons(rule, ops, ps);
      hide Pass, Passes;
      assert forall i :: 0 <= i < |ps| - 1 ==> ps[1..][i] == ps[i + 1];
      PassesUntouched(rule, ops, ps[1..]);
      assert [ps[0]] + ps[1..] == ps;
    }
  }

  /** What the three rules do at one operator, before the pass goes on to its children. */
  function RulesAt(rule: Rule, ops: Ops, p: Plan): Changed<Plan> {
    var a := ExpressionPass(rule, ops, p);
    var b := RemoveConstant(ops, a.result);
    var c := PushFilters(b.result);
    Changed(c.result, a.changed || b.changed || c.changed)
  }

  lemma PassIsRulesThenChildren(rule: Rule, ops: Ops, p: Plan)
    ensures var c := RulesAt(rule, ops, p);
      var below := Passes(rule, ops, c.result.children);
      && PlanSize(c.result) <= PlanSize(p)
      && Pass(rule, ops, p) == Changed(c.result.(children := below.result), c.changed || below.changed)
  {
  }

  lemma SourceRules(rule: Rule, ops: Ops, p: Plan)
    requires Source(p)
    ensures RulesAt(rule, ops, p) == Changed(p, false)
  {
    SourceUntouched(rule, ops, p);
    hide ExpressionPass;
  }

  /** A pass leaves tables and joins of tables alone. */
  lemma {:induction false} SourcePass(rule: Rule, ops: Ops, p: Plan)
    requires Source(p)
    ensures Pass(rule, ops, p) == Changed(p, false)
    decreases p
  {
    SourceRules(rule, ops, p);
    PassIsRulesThenChildren(rule, ops, p);
    hide RulesAt, Pass;
    forall i | 0 <= i < |p.children|
      ensures Pass(rule, ops, p.children[i]) == Changed(p.children[i], false)
    {
      SourcePass(rule, ops, p.children[i]);
    }
    PassesUntouched(rule, ops, p.children);
    hide Passes;
  }

  lemma RulesAtKeepRows<Row>(w: World<Row>, rule: Rule, p: Plan, stage: nat)
    requires Shape(p, stage) && (p.kind.Pipe? || (p.kind.Predicate? && stage >= 1))
    ensures var c := RulesAt(rule, w.ops, p).result;
      && c.kind == p.kind && Shape(c, if p.kind.Pipe? then stage + 1 else 2)
      && Rows(w, Rewriting(rule), c) == Rows(w, Rewriting(rule), p)
  {
    ExpressionPassSettles(rule, w.ops, p, stage);
    ExpressionPassKeepsRows(w, rule, p, stage);
    var a := ExpressionPass(rule, w.ops, p).result;
    if p.kind.Pipe? {
      RemoveConstantKeepsRows(w, Rewriting(rule), a, stage + 1);
      hide ExpressionPass, Rows, Shape;
    } else {
      FilteredHasNoConstant(a);
      hide ExpressionPass, Rows;
      PushFiltersKeepsRows(w, rule, a);
    }
  }

  lemma FilteredHasNoConstant(p: Plan)
    requires p.kind.Predicate? && Shape(p, 2)
    ensures Filtered(p, 2) && !ConstantBelow(p)
  {
  }

  lemma ReplaceChild<Row>(w: World<Row>, how: Reading, p: Plan, child: Plan)
    requires p.kind.Pipe? && |p.children| == 1 && Shape(p, 0) && Shape(child, 2)
    requires Rows(w, how, child) == Rows(w, how, p.children[0])
    ensures Shape(p.(children := [child]), 2)
    ensures Rows(w, how, p.(children := [child])) == Rows(w, how, p)
  {
  }

  /** One pass keeps the rows and settles every filter. Below the root, filters have been
      rewritten once already when the pass reaches them. */
  lemma {:induction false} PassKeepsRows<Row>(w: World<Row>, rule: Rule, p: Plan, stage: nat)
    requires Shape(p, stage) && (p.kind.Pipe? || stage >= 1)
    ensures var p' := Pass(rule, w.ops, p).result;
      && p'.kind == p.kind && Shape(p', 2) && Rows(w, Rewriting(rule), p') == Rows(w, Rewriting(rule), p)
    decreases PlanSize(p)
  {
    hide Pass, Passes, RulesAt, Rows, Shape;
    if p.kind.Pipe? {
      PassIsRulesThenChildren(rule, w.ops, p);
      RulesAtKeepRows(w, rule, p, stage);
      PipePassKeepsRows(w, rule, p, RulesAt(rule, w.ops, p).result, stage + 1);
    } else {
      LowPassKeepsRows(w, rule, p, stage);
    }
  }

  /** The same for predicates and sources. */
  lemma LowPassKeepsRows<Row>(w: World<Row>, rule: Rule, p: Plan, stage: nat)
    requires Shape(p, stage) && !p.kind.Pipe? && stage >= 1
    ensures var p' := Pass(rule, w.ops, p).result;
      && p'.kind == p.kind && Shape(p', 2) && Rows(w, Rewriting(rule), p') == Rows(w, Rewriting(rule), p)
  {
    if p.kind.Predicate? {
      FilteredPassKeepsRows(w, rule, p, stage);
    } else {
      SourcePass(rule, w.ops, p);
    }
    hide Pass, Rows;
  }

  lemma FilteredPassKeepsRows<Row>(w: World<Row>, rule: Rule, p: Plan, stage: nat)
    requires Filtered(p, stage) && stage >= 1
    ensures var p' := Pass(rule, w.ops, p).result;
      p'.kind == p.kind && Filtered(p', 2) && Rows(w, Rewriting(rule), p') == Rows(w, Rewriting(rule), p)
  {
    hide Pass, Passes, RulesAt, Rows, AtStage;
    PassIsRulesThenChildren(rule, w.ops, p);
    RulesAtKeepRows(w, rule, p, stage);
    var c := RulesAt(rule, w.ops, p).result;
    SourcePass(rule, w.ops, c.children[0]);
    PassesOne(rule, w.ops, c.children);
    assert c.children == [c.children[0]];
    assert c.(children := c.children) == c;
  }

  lemma {:induction false} PipePassKeepsRows<Row>(w: World<Row>, rule: Rule, p: Plan, c: Plan, stage: nat)
    requires c.kind.Pipe? && Shape(c, stage) && stage >= 1 && PlanSize(c) <= PlanSize(p)
    ensures var c' := c.(children := Passes(rule, w.ops, c.children).result);
      Shape(c', 2) && Rows(w, Rewriting(rule), c') == Rows(w, Rewriting(rule), c)
    decreases PlanSize(p), 0
  {
    PassesOne(rule, w.ops, c.children);
    hide Pass, Passes, Rows;
    if c.children != [] {
      assert c.children == [c.children[0]] + c.children[1..];
      PassKeepsRows(w, rule, c.children[0], stage);
      MoreSettled(c, stage, 0);
      ReplaceChild(w, Rewriting(rule), c, Pass(rule, w.ops, c.children[0]).result);
    } else {
      assert Passes(rule, w.ops, c.children).result == c.children;
    }
  }

  // ----- No filter is lost

  /** Somewhere in the pass, `set_predicates` is called on a table-get that has filters already. */
  ghost predicate Overwrites(rule: Rule, ops: Ops, p: Plan)
    decreases PlanSize(p), 1
  {
    var b := RemoveConstant(ops, ExpressionPass(rule, ops, p).result).result;
    || (PushFilters(b).changed && b.children[0].filters != [])
    || OverwritesBelow(rule, ops, PushFilters(b).result.children)
  }

  ghost predicate OverwritesBelow(rule: Rule, ops: Ops, ps: seq<Plan>)
    decreases PlanSizes(ps), 2
  {
    ps != [] && (Overwrites(rule, ops, ps[0]) || OverwritesBelow(rule, ops, ps[1..]))
  }

  lemma {:induction false} SourceOverwritesNothing(rule: Rule, ops: Ops, p: Plan)
    requires Source(p)
    ensures !Overwrites(rule, ops, p)
    decreases p
  {
    SourceUntouched(rule, ops, p);
    if p.kind.Join? {
      SourceOverwritesNothing(rule, ops, p.children[0]);
      SourceOverwritesNothing(rule, ops, p.children[1]);
      assert p.children[1..][0] == p.children[1] && p.children[1..][1..] == [];
      assert !OverwritesBelow(rule, ops, p.children[1..]);
    }
  }

  lemma OverwritesOne(rule: Rule, ops: Ops, ps: seq<Plan>)
    requires |ps| <= 1
    ensures OverwritesBelow(rule, ops, ps) == (ps != [] && Overwrites(rule, ops, ps[0]))
  {
    if ps != [] {
      assert ps[1..] == [];
      assert !OverwritesBelow(rule, ops, ps[1..]);
    }
  }

  lemma OverwritesIs(rule: Rule, ops: Ops, p: Plan, b: Plan)
    requires b == RemoveConstant(ops, ExpressionPass(rule, ops, p).result).result
    ensures var c := RulesAt(rule, ops, p).result;
      && c == PushFilters(b).result && PlanSize(c) <= PlanSize(p)
      && Overwrites(rule, ops, p) == ((PushFilters(b).changed && b.children[0].filters != [])
                                      || OverwritesBelow(rule, ops, c.children))
  {
  }

  /** A pass never replaces filters that were pushed down before. */
  lemma {:induction false} PassLosesNoFilter<Row>(w: World<Row>, rule: Rule, p: Plan, stage: nat)
    requires Shape(p, stage) && (p.kind.Pipe? || stage >= 1)
    ensures !Overwrites(rule, w.ops, p)
    decreases PlanSize(p)
  {
    hide Overwrites, OverwritesBelow, ExpressionPass, Rows;
    var a := ExpressionPass(rule, w.ops, p).result;
    match p.kind
    case Pipe(_) =>
      RulesAtKeepRows(w, rule, p, stage);
      ExpressionPassSettles(rule, w.ops, p, stage);
      RemoveConstantKeepsRows(w, Rewriting(rule), a, stage + 1);
      OverwritesIs(rule, w.ops, p, RemoveConstant(w.ops, a).result);
      var c := RulesAt(rule, w.ops, p).result;
      OverwritesOne(rule, w.ops, c.children);
      if c.children != [] {
        assert c.children == [c.children[0]] + c.children[1..];
        PassLosesNoFilter(w, rule, c.children[0], stage + 1);
      }
    case Predicate =>
      ExpressionPassSettles(rule, w.ops, p, stage);
      OverwritesIs(rule, w.ops, p, a);
      PushFiltersKeepsRows(w, rule, a);
      var c := RulesAt(rule, w.ops, p).result;
      OverwritesOne(rule, w.ops, c.children);
      SourceOverwritesNothing(rule, w.ops, c.children[0]);
    case _ =>
      SourceOverwritesNothing(rule, w.ops, p);
  }

  /** Some pass of the run overwrites filters. */
  ghost predicate RunOverwrites(rule: Rule, ops: Ops, p: Plan)
    decreases PlanSize(p)
  {
    var c := Pass(rule, ops, p);
    Overwrites(rule, ops, p) || (c.changed && RunOverwrites(rule, ops, c.result))
  }

  // ----- The whole run

  lemma {:induction false} SettledReads<Row>(w: World<Row>, rule: Rule, p: Plan)
    requires Shape(p, 2)
    ensures Rows(w, Plain, p) == Rows(w, Rewriting(rule), p)
    decreases p
  {
    match p.kind
    case Pipe(_) => if p.children != [] { SettledReads(w, rule, p.children[0]); }
    case Predicate =>
      SourceReads(w, rule, p.children[0]);
      SettledSelect(w, rule, p.expressions[0], Rows(w, Plain, p.children[0]));
    case _ => SourceReads(w, rule, p);
  }

  lemma {:induction false} SourceReads<Row>(w: World<Row>, rule: Rule, p: Plan)
    requires Source(p)
    ensures Rows(w, Plain, p) == Rows(w, Rewriting(rule), p)
    decreases p
  {
    if p.kind.Join? {
      SourceReads(w, rule, p.children[0]);
      SourceReads(w, rule, p.children[1]);
    }
  }

  /** The optimizer keeps the rows, in their order, with every filter read as what the rewriting
      makes of it, and no pass loses a filter. In the result that reading is the plain one. */
  lemma {:induction false} FixpointKeepsRows<Row>(w: World<Row>, rule: Rule, p: Plan, stage: nat)
    requires Shape(p, stage) && p.kind.Pipe?
    ensures Rows(w, Plain, Fixpoint(rule, w.ops, p)) == Rows(w, Rewriting(rule), p)
    ensures !RunOverwrites(rule, w.ops, p)
    decreases PlanSize(p)
  {
    PassKeepsRows(w, rule, p, stage);
    PassLosesNoFilter(w, rule, p, stage);
    var c := Pass(rule, w.ops, p);
    if c.changed {
      FixpointKeepsRows(w, rule, c.result, 2);
    } else {
      SettledReads(w, rule, c.result);
    }
  }
}
