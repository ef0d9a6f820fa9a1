/** Pull-based execution: src/observer/sql/operator/table_scan_physical_operator.cpp,
    predicate_physical_operator.cpp and join_physical_operator.cpp, and the part of
    src/observer/sql/optimizer/physical_plan_generator.cpp that builds these operators. */
module Operators {
  import opened Common
  import opened Expressions
  import opened Plans
  import opened OptimizerCorrectness

  datatype RC = SUCCESS | RECORD_EOF

  datatype OperatorKind = TableScan | PredicateFilter | NestedLoopJoin

  lemma {:induction false} CrossNothing<Row>(w: World<Row>, left: seq<Row>)
    ensures Cross(w, left, []) == []
  {
    if left != [] {
      CrossNothing(w, left[1..]);
    }
  }

  lemma SelectUnroll<Row>(w: World<Row>, e: Expr, rows: seq<Row>)
    ensures rows == [] ==> Select(w, Plain, e, rows) == []
    ensures rows != [] ==> Select(w, Plain, e, rows) == Select(w, Plain, e, [rows[0]] + rows[1..])
  {
    if rows != [] {
      assert [rows[0]] + rows[1..] == rows;
    }
  }

  /** The next pair of a round. */
  lemma RoundHead<Row>(w: World<Row>, l: Row, round: seq<Row>)
    requires round != []
    ensures PairWith(w, l, round) == [w.joined(l, round[0])] + PairWith(w, l, round[1..])
  {
  }

  /** What is left after the first of a concatenation. */
  lemma FirstOf<T>(x: T, a: seq<T>, b: seq<T>)
    ensures ([x] + a + b)[0] == x && ([x] + a + b)[1..] == a + b
  {
  }

  /** A physical operator: the fields of the three classes side by side. */
  class Operator<Row> {
    const w: World<Row>
    const kind: OperatorKind
    const rows: seq<Row>       // the table under a scan
    const filters: seq<Expr>   // predicates_ of a scan
    const condition: Expr      // expression_ of a predicate
    const left: Operator?<Row>
    const right: Operator?<Row>
    ghost const height: nat
    ghost const Repr: set<Operator<Row>>

    var isOpen: bool
    var pos: nat                   // of the record scanner
    var current: Option<Row>       // of a scan
    var leftTuple: Option<Row>
    var rightTuple: Option<Row>
    var roundDone: bool
    var rightClosed: bool

    /** The tree of operators, which never changes. */
    ghost predicate Built()
      decreases height
    {
      match kind
      case TableScan => Repr == {this}
      case PredicateFilter =>
        left != null && left.height < height && left.Built()
        && this !in left.Repr && Repr == {this} + left.Repr
      case NestedLoopJoin =>
        left != null && right != null && left.height < height && right.height < height
        && left.Built() && right.Built()
        && this !in left.Repr && this !in right.Repr && left.Repr !! right.Repr
        && Repr == {this} + left.Repr + right.Repr
    }

    /** The rows the operator yields between an `open` and the end. */
    ghost function Full(): seq<Row>
      requires Built()
      decreases height
    {
      match kind
      case TableScan => Scan(w, filters, rows)
      case PredicateFilter => Select(w, Plain, condition, left.Full())
      case NestedLoopJoin => Cross(w, left.Full(), right.Full())
    }

    /** The fields are consistent, here and below. */
    ghost predicate Valid()
      reads Repr
      decreases height
    {
      && Built() && this in Repr
      && match kind
         case TableScan => isOpen ==> pos <= |rows|
         case PredicateFilter => left.Valid() && (isOpen ==> left.isOpen)
         case NestedLoopJoin =>
           && left.Valid() && right.Valid() && left.w == w && right.w == w
           && (isOpen ==> left.isOpen && (!roundDone ==> right.isOpen && leftTuple.Some?))
    }

    /** The rows still to come. */
    ghost function Remaining(): seq<Row>
      requires Valid() && isOpen
      reads Repr
      decreases height
    {
      match kind
      case TableScan => Scan(w, filters, rows[pos..])
      case PredicateFilter => Select(w, Plain, condition, left.Remaining())
      case NestedLoopJoin =>
        if roundDone then Cross(w, left.Remaining(), right.Full())
        else PairWith(w, leftTuple.value, right.Remaining()) + Cross(w, left.Remaining(), right.Full())
    }

    /** `current_tuple`. */
    function CurrentTuple(): Option<Row>
      requires Valid()
      reads Repr
      decreases height
    {
      match kind
      case TableScan => current
      case PredicateFilter => left.CurrentTuple()
      case NestedLoopJoin =>
        if leftTuple.Some? && rightTuple.Some? then Some(w.joined(leftTuple.value, rightTuple.value)) else None
    }

    /** `next` returned `rc` when these rows were still to come: the first of them is the current
        tuple now and the others remain, or there was none and the end is reported. */
    ghost predicate Yielded(rc: RC, before: seq<Row>)
      requires Valid() && isOpen
      reads Repr
    {
      if before == [] then rc == RECORD_EOF && Remaining() == []
      else rc == SUCCESS && CurrentTuple() == Some(before[0]) && Remaining() == before[1..]
    }

    constructor Scanner(w: World<Row>, rows: seq<Row>, filters: seq<Expr>)
      ensures Valid() && fresh(Repr) && this.w == w && Full() == Scan(w, filters, rows)
    {
      this.w, kind, this.rows, this.filters := w, TableScan, rows, filters;
      condition, left, right, height := Value(Bool(true)), null, null, 0;
      Repr := {this};
      isOpen, pos, current, leftTuple, rightTuple, roundDone, rightClosed := false, 0, None, None, None, true, true;
    }

    constructor Filter(w: World<Row>, condition: Expr, child: Operator<Row>)
      requires child.Valid()
      ensures Valid() && fresh(Repr - child.Repr) && this.w == w
      ensures Full() == Select(w, Plain, condition, child.Full())
    {
      this.w, kind, this.condition, left := w, PredicateFilter, condition, child;
      rows, filters, right, height := [], [], null, child.height + 1;
      Repr := {this} + child.Repr;
      isOpen, pos, current, leftTuple, rightTuple, roundDone, rightClosed := false, 0, None, None, None, true, true;
    }

    constructor Join(w: World<Row>, left: Operator<Row>, right: Operator<Row>)
      requires left.Valid() && right.Valid() && left.Repr !! right.Repr && left.w == w && right.w == w
      ensures Valid() && fresh(Repr - left.Repr - right.Repr) && this.w == w
      ensures Full() == Cross(w, left.Full(), right.Full())
    {
      this.w, kind, this.left, this.right := w, NestedLoopJoin, left, right;
      rows, filters, condition := [], [], Value(Bool(true));
      height := left.height + right.height + 1;
      Repr := {this} + left.Repr + right.Repr;
      isOpen, pos, current, leftTuple, rightTuple, roundDone, rightClosed := false, 0, None, None, None, true, true;
    }

    /** `open`, in any state, whether or not the operator was closed. */
    method Open()
      requires Valid()
      modifies Repr
      ensures Valid() && isOpen && Remaining() == Full()
      decreases height
    {
      match kind {
        case TableScan =>
          pos := 0;
        case PredicateFilter =>
          left.Open();
        case NestedLoopJoin =>
          rightClosed := true;
          roundDone := true;
          left.Open();
      }
      isOpen := true;
    }

    /** `next`: the next remaining row becomes the current tuple, or there is none. */
    method Next() returns (rc: RC)
      requires Valid() && isOpen
      modifies Repr
      ensures Valid() && isOpen
      ensures Yielded(rc, old(Remaining()))
      decreases height, 4
    {
      match kind
      case TableScan => rc := ScanNext();
      case PredicateFilter => rc := FilterNext();
      case NestedLoopJoin => rc := JoinNext();
    }

    /** `TableScanPhysicalOperator::next`. */
    method ScanNext() returns (rc: RC)
      requires Valid() && isOpen && kind.TableScan?
      modifies Repr
      ensures Valid() && isOpen
      ensures Yielded(rc, old(Remaining()))
      decreases height, 0
    {
      if pos >= |rows| {
        return RECORD_EOF;
      }
      rc := SUCCESS;
      ghost var all := Remaining();
      while pos < |rows|
        invariant Valid() && isOpen && all == Remaining()
        invariant pos == |rows| ==> rc == RECORD_EOF
        decreases |rows| - pos
      {
        var record := rows[pos];
        assert rows[pos..][0] == record && rows[pos..][1..] == rows[pos + 1..];
        pos := pos + 1;
        var passes := Passes(record);
        if passes {
          current := Some(record);
          assert all == [record] + Remaining();
          return SUCCESS;
        }
        assert all == [] + Remaining();
        rc := RECORD_EOF;
      }
    }

    /** `TableScanPhysicalOperator::filter`. */
    method Passes(record: Row) returns (result: bool)
      ensures result == Holds(w, true, filters, record)
      ensures result <==> forall i :: 0 <= i < |filters| ==> True(w, filters[i], record)
    {
      HoldsMeaning(w, true, filters, record);
      for i := 0 to |filters|
        invariant forall k :: 0 <= k < i ==> True(w, filters[k], record)
      {
        if !Truth(w.ops, Eval(w, filters[i], record)) {
          assert !True(w, filters[i], record);
          return false;
        }
      }
      return true;
    }

    /** `PredicatePhysicalOperator::next`. */
    method FilterNext() returns (rc: RC)
      requires Valid() && isOpen && kind.PredicateFilter?
      modifies Repr
      ensures Valid() && isOpen
      ensures Yielded(rc, old(Remaining()))
      decreases height, 0
    {
      hide Cross, PairWith, Scan, Select;
      SelectUnroll(w, condition, left.Remaining());
      ghost var all := Remaining();
      rc := left.Next();
      while rc == SUCCESS
        invariant Valid() && isOpen
        invariant rc == SUCCESS ==>
          && left.CurrentTuple().Some?
          && all == Select(w, Plain, condition, [left.CurrentTuple().value] + left.Remaining())
        invariant rc == RECORD_EOF ==> all == [] == Remaining()
        decreases rc == SUCCESS, |left.Remaining()|
      {
        var tuple := left.CurrentTuple().value;
        SelectCons(w, Plain, condition, tuple, left.Remaining());
        if Truth(w.ops, Eval(w, condition, tuple)) {
          return;
        }
        SelectUnroll(w, condition, left.Remaining());
        rc := left.Next();
      }
    }

    /** `NestedLoopJoinPhysicalOperator::next`. */
    method JoinNext() returns (rc: RC)
      requires Valid() && isOpen && kind.NestedLoopJoin?
      modifies Repr
      ensures Valid() && isOpen
      ensures Yielded(rc, old(Remaining()))
      decreases height, 3
    {
      var leftNeedStep := leftTuple.None?;
      if roundDone {
        leftNeedStep := true;
      } else {
        ghost var round, later := right.Remaining(), Cross(w, left.Remaining(), right.Full());
        rc := RightNext();
        if rc == SUCCESS {
          RoundHead(w, leftTuple.value, round);
          FirstOf(w.joined(leftTuple.value, round[0]), PairWith(w, leftTuple.value, round[1..]), later);
          return;
        }
        assert PairWith(w, leftTuple.value, round) + later == later;
        leftNeedStep := true;
      }
      assert leftNeedStep && roundDone && Remaining() == old(Remaining());
      rc := NextRound();
    }

    /** The second half of `next`: a step to the left, then a round to the right. When the right
        child turns out to have no rows at all, the join ends at once. */
    method NextRound() returns (rc: RC)
      requires Valid() && isOpen && kind.NestedLoopJoin? && roundDone
      modifies Repr
      ensures Valid() && isOpen
      ensures Yielded(rc, old(Remaining()))
      decreases height, 2
    {
      ghost var lefts, all := left.Remaining(), right.Full();
      assert Remaining() == Cross(w, lefts, all);
      CrossNothing(w, lefts);
      rc := LeftNext();
      if rc != SUCCESS {
        return;
      }
      assert Cross(w, lefts, all) == PairWith(w, lefts[0], all) + Cross(w, lefts[1..], all);
      CrossNothing(w, lefts[1..]);
      hide Cross, PairWith, Select, Scan, CurrentTuple;
      rc := RightNext();
      if rc == SUCCESS {
        RoundHead(w, lefts[0], all);
        FirstOf(w.joined(lefts[0], all[0]), PairWith(w, lefts[0], all[1..]), Cross(w, lefts[1..], all));
        assert CurrentTuple() == Some(w.joined(lefts[0], all[0])) by { JoinedCurrent(); }
      }
    }

    lemma JoinedCurrent()
      requires Valid() && kind.NestedLoopJoin? && leftTuple.Some? && rightTuple.Some?
      ensures CurrentTuple() == Some(w.joined(leftTuple.value, rightTuple.value))
    {
    }

    /** `left_next`: the next left row is kept for the coming round. */
    method LeftNext() returns (rc: RC)
      requires Valid() && isOpen && kind.NestedLoopJoin?
      modifies this`leftTuple, left.Repr
      ensures Valid() && isOpen
      ensures old(left.Remaining()) == [] ==>
        rc == RECORD_EOF && left.Remaining() == [] && leftTuple == old(leftTuple)
      ensures old(left.Remaining()) != [] ==>
        && rc == SUCCESS && leftTuple == Some(old(left.Remaining())[0])
        && left.Remaining() == old(left.Remaining())[1..]
      decreases height, 0
    {
      rc := left.Next();
      if rc != SUCCESS {
        return;
      }
      leftTuple := left.CurrentTuple();
    }

    /** The first part of `right_next`: when the last round is over, the right child is closed, if
        need be, and opened again. */
    method StartRound()
      requires Valid() && isOpen && kind.NestedLoopJoin? && leftTuple.Some?
      modifies this`roundDone, this`rightClosed, right.Repr
      ensures Valid() && isOpen && !roundDone && left.Remaining() == old(left.Remaining())
      ensures right.Remaining() == if old(roundDone) then right.Full() else old(right.Remaining())
      decreases height, 0
    {
      hide Cross, PairWith, Select, Scan, CurrentTuple;
      if roundDone {
        if !rightClosed {
          right.Close();
          rightClosed := true;
        }
        right.Open();
        rightClosed := false;
        roundDone := false;
      }
    }

    /** `right_next`: the next right row of the round. */
    method RightNext() returns (rc: RC)
      requires Valid() && isOpen && kind.NestedLoopJoin? && leftTuple.Some?
      modifies this`roundDone, this`rightClosed, this`rightTuple, right.Repr
      ensures Valid() && isOpen && left.Remaining() == old(left.Remaining())
      ensures var todo := if old(roundDone) then right.Full() else old(right.Remaining());
        if todo == [] then rc == RECORD_EOF && roundDone
        else rc == SUCCESS && !roundDone && rightTuple == Some(todo[0]) && right.Remaining() == todo[1..]
      decreases height, 1
    {
      hide Cross, PairWith, Select, Scan;
      StartRound();
      rc := right.Next();
      if rc != SUCCESS {
        roundDone := true;
        return;
      }
      rightTuple := right.CurrentTuple();
    }

    method Close()
      requires Valid()
      modifies Repr
      ensures Valid() && !isOpen
      decreases height
    {
      match kind {
        case TableScan =>
        case PredicateFilter =>
          left.Close();
        case NestedLoopJoin =>
          left.Close();
          if !rightClosed {
            right.Close();
            rightClosed := true;
          }
      }
      isOpen := false;
    }
  }

  /** Opening an operator and calling `next` until the end yields all its rows in order, whatever
      state it was in before. */
  method Drain<Row>(op: Operator<Row>) returns (out: seq<Row>)
    requires op.Valid()
    modifies op.Repr
    ensures op.Valid() && out == op.Full()
  {
    hide Operator.Valid, Operator.Remaining, Operator.Full, Operator.CurrentTuple;
    op.Open();
    out := [];
    var rc := SUCCESS;
    while rc == SUCCESS
      invariant op.Valid() && op.isOpen && op.Full() == out + op.Remaining()
      invariant rc != SUCCESS ==> op.Remaining() == []
      decreases rc == SUCCESS, |op.Remaining()|
    {
      ghost var before := op.Remaining();
      rc := op.Next();
      if rc == SUCCESS {
        assert out + before == (out + [before[0]]) + before[1..];
        out := out + [op.CurrentTuple().value];
      }
    }
    op.Close();
  }

  // ----- Building operators from plans

  /** Plans made of table-gets, joins and predicates. */
  predicate Executable(p: Plan) {
    match p.kind
    case TableGet(_) => true
    case Predicate => |p.expressions| == 1 && |p.children| == 1 && Executable(p.children[0])
    case Join => |p.children| == 2 && Executable(p.children[0]) && Executable(p.children[1])
    case Pipe(_) => false
  }

  /** `PhysicalPlanGenerator::create`, with a table scan for every table-get. */
  method Create<Row>(w: World<Row>, p: Plan) returns (op: Operator<Row>)
    requires Executable(p)
    ensures op.Valid() && fresh(op.Repr) && op.w == w && op.Full() == Rows(w, Plain, p)
    decreases p
  {
    if p.kind.TableGet? {
      op := new Operator<Row>.Scanner(w, w.table(p.kind.table), p.filters);
    } else if p.kind.Predicate? {
      var child := Create(w, p.children[0]);
      op := new Operator<Row>.Filter(w, p.expressions[0], child);
    } else {
      var left := Create(w, p.children[0]);
      var right := Create(w, p.children[1]);
      op := new Operator<Row>.Join(w, left, right);
    }
  }

  /** Executing a plan of table-gets, joins of any depth and predicates yields its rows, and so
      does executing it again without closing it first. */
  method Execute<Row>(w: World<Row>, p: Plan) returns (out: seq<Row>, again: seq<Row>)
    requires Executable(p)
    ensures out == again == Rows(w, Plain, p)
  {
    var op := Create(w, p);
    op.Open();
    var rc := op.Next();
    out := Drain(op);
    again := Drain(op);
  }
}
