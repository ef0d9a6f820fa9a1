/** The comparison of ORDER BY: src/observer/sql/operator/order_physical_operator.h,
    src/observer/sql/parser/value.cpp and deps/common/lang/comparator.cpp. */
module OrderBy {
  /** A character of a string; there is no zero byte within a value. */
  type Char = x: int | 1 <= x < 256 witness 1

  type String = seq<Char>

  /** A `char` on a platform where it is signed. */
  function SignedChar(b: Char): int {
    if b < 128 then b as int else b as int - 256
  }

  function Sign(x: int): int {
    if x < 0 then -1 else if x > 0 then 1 else 0
  }

  // ----- deps/common/lang/comparator.cpp

  function CompareInt(a: int, b: int): int {
    if a > b then 1 else if a < b then -1 else 0
  }

  /** `strncmp` compares unsigned bytes. */
  function Strncmp(a: String, b: String, n: nat): int
    requires n <= |a| && n <= |b|
    decreases n
  {
    if n == 0 then 0
    else if a[0] != b[0] then a[0] as int - b[0] as int
    else Strncmp(a[1..], b[1..], n - 1)
  }

  function CompareString(a: String, b: String): int {
    var maxlen := if |a| < |b| then |a| else |b|;
    var result := Strncmp(a, b, maxlen);
    if 0 != result then result
    else if |a| > maxlen then SignedChar(a[maxlen]) - 0
    else if |b| > maxlen then 0 - SignedChar(b[maxlen])
    else 0
  }

  /** The reference: strings in the order of their bytes, a prefix first. */
  function Lexicographic(a: String, b: String): int {
    if a == [] then (if b == [] then 0 else -1)
    else if b == [] then 1
    else if a[0] != b[0] then CompareInt(a[0], b[0])
    else Lexicographic(a[1..], b[1..])
  }

  /** One string continues the other with a byte of 128 or more. */
  predicate ContinuedHigh(a: String, b: String) {
    || (|a| < |b| && a == b[..|a|] && b[|a|] >= 128)
    || (|b| < |a| && b == a[..|b|] && a[|b|] >= 128)
  }

  lemma TailContinued(a: String, b: String)
    requires a != [] && b != []
    ensures ContinuedHigh(a, b) <==> a[0] == b[0] && ContinuedHigh(a[1..], b[1..])
  {
    var c, d := a[1..], b[1..];
    assert a == [a[0]] + c && b == [b[0]] + d;
    if |a| < |b| {
      assert b[..|a|] == [b[0]] + d[..|c|] && b[|a|] == d[|c|];
    }
    if |b| < |a| {
      assert a[..|b|] == [a[0]] + c[..|d|] && a[|b|] == c[|d|];
    }
  }

  lemma TailCompared(a: String, b: String)
    requires a != [] && b != [] && a[0] == b[0]
    ensures CompareString(a, b) == CompareString(a[1..], b[1..])
  {
  }

  /** `compare_string` agrees with the order of the bytes exactly if neither string continues the other
      with a byte of 128 or more; there it says the opposite. */
  lemma {:induction false} CompareStringExact(a: String, b: String)
    ensures Sign(CompareString(a, b)) == if ContinuedHigh(a, b) then -Lexicographic(a, b) else Lexicographic(a, b)
    ensures ContinuedHigh(a, b) ==> Lexicographic(a, b) != 0
    decreases |a|
  {
    if a != [] && b != [] {
      TailContinued(a, b);
      if a[0] == b[0] {
        CompareStringExact(a[1..], b[1..]);
        TailCompared(a, b);
      }
    }
  }

  lemma {:induction false} LexicographicOrder(a: String, b: String, c: String)
    ensures Lexicographic(a, b) == -Lexicographic(b, a)
    ensures Lexicographic(a, b) == 0 <==> a == b
    ensures Lexicographic(a, b) <= 0 && Lexicographic(b, c) <= 0 ==> Lexicographic(a, c) <= 0
    decreases |a| + |b| + |c|
  {
    if a != [] && b != [] {
      assert a == [a[0]] + a[1..] && b == [b[0]] + b[1..];
      if c != [] {
        LexicographicOrder(a[1..], b[1..], c[1..]);
      } else {
        LexicographicOrder(a[1..], b[1..], c);
      }
    }
  }

  const EPSILON := 0.000001

  function CompareFloat(a: real, b: real): int {
    var cmp := a - b;
    if cmp > EPSILON then 1 else if cmp < -EPSILON then -1 else 0
  }

  /** Two floats are told apart exactly if they are more than a millionth apart. */
  lemma FloatsApart(a: real, b: real)
    ensures CompareFloat(a, b) < 0 <==> 1000000.0 * (b - a) > 1.0
    ensures CompareFloat(a, b) > 0 <==> 1000000.0 * (a - b) > 1.0
  {
  }

  // ----- Value::compare_value

  /** A boolean is compared by the four bytes that hold it. */
  datatype Value =
    | Null
    | Int(i: int)
    | Date(d: int)
    | Bool(raw: int)
    | Float(f: real)
    | Chars(s: String)
    | Texts(s: String)

  datatype CompOp = EqualTo | LessThan | GreatThan | NoOp

  predicate SameType(a: Value, b: Value) {
    match a
    case Null => b.Null?
    case Int(_) => b.Int?
    case Date(_) => b.Date?
    case Bool(_) => b.Bool?
    case Float(_) => b.Float?
    case Chars(_) => b.Chars?
    case Texts(_) => b.Texts?
  }

  function CompareValue(left: Value, right: Value): CompOp {
    if !SameType(left, right) then
      if !left.Null? && !right.Null? then NoOp
      else if left.Null? then LessThan
      else GreatThan
    else
      match left
      case Null => EqualTo
      case Int(i) => FromResult(CompareInt(i, right.i))
      case Date(d) => FromResult(CompareInt(d, right.d))
      case Bool(raw) => FromResult(CompareInt(raw, right.raw))
      case Float(f) => FromResult(CompareFloat(f, right.f))
      case Chars(s) => FromResult(CompareString(s, right.s))
      case Texts(s) => FromResult(CompareString(s, right.s))
  }

  function FromResult(result: int): CompOp {
    if result == 0 then EqualTo else if result < 0 then LessThan else GreatThan
  }

  predicate IsString(v: Value) {
    v.Chars? || v.Texts?
  }

  /** Two different numbers that the comparison takes for equal. */
  predicate Close(a: Value, b: Value) {
    a.Float? && b.Float? && a.f != b.f && -EPSILON <= a.f - b.f <= EPSILON
  }

  /** Values that are compared as they should be: of one type or null, numbers not too close to one another,
      and no string continues the other with a byte of 128 or more, as none does in ASCII. */
  predicate Sortable(a: Value, b: Value) {
    || a.Null? || b.Null?
    || (SameType(a, b) && !Close(a, b) && (IsString(a) ==> !ContinuedHigh(a.s, b.s)))
  }

  predicate Ascii(s: String) {
    forall i :: 0 <= i < |s| ==> s[i] < 128
  }

  lemma AsciiIsSortable(a: String, b: String)
    requires Ascii(a) && Ascii(b)
    ensures Sortable(Chars(a), Chars(b)) && Sortable(Texts(a), Texts(b))
  {
  }

  /** The reference: null first, then the order of the type; there is none between types. */
  function ValueOrder(a: Value, b: Value): int {
    if a.Null? then (if b.Null? then 0 else -1)
    else if b.Null? then 1
    else if !SameType(a, b) then 0
    else
      match a
      case Int(i) => Sign(i - b.i)
      case Date(d) => Sign(d - b.d)
      case Bool(raw) => Sign(raw - b.raw)
      case Float(f) => if f < b.f then -1 else if f > b.f then 1 else 0
      case Chars(s) => Lexicographic(s, b.s)
      case Texts(s) => Lexicographic(s, b.s)
  }

  lemma CompareValueExact(a: Value, b: Value)
    requires Sortable(a, b)
    ensures CompareValue(a, b) == FromResult(ValueOrder(a, b))
  {
    if IsString(a) && IsString(b) {
      CompareStringExact(a.s, b.s);
    }
  }

  /** Null, or of one type. */
  predicate Kindred(a: Value, b: Value) {
    a.Null? || b.Null? || SameType(a, b)
  }

  /** Values of order 0 are equal, the order of a pair is minus that of the turned pair, and "not
      after" is transitive. */
  lemma ValueOrderIsTotal(a: Value, b: Value, c: Value)
    requires Kindred(a, b) && Kindred(b, c) && Kindred(a, c)
    ensures ValueOrder(a, b) == -ValueOrder(b, a)
    ensures ValueOrder(a, b) == 0 <==> a == b
    ensures ValueOrder(a, b) <= 0 && ValueOrder(b, c) <= 0 ==> ValueOrder(a, c) <= 0
  {
    if IsString(a) && IsString(b) {
      LexicographicOrder(a.s, b.s, if IsString(c) then c.s else []);
    }
  }

  /** Adding 98, which is a "b", makes a string greater; a string that continues it with a high
      character is after both by its characters and before the first by `compare_string`. */
  lemma Between(x: String, y: String)
    requires |x| < |y| && x == y[..|x|] && y[|x|] >= 128
    ensures CompareString(x, x + [98]) < 0 && CompareString(x + [98], y) < 0 && CompareString(y, x) < 0
    ensures CompareString(x + [98], x) > 0 && CompareString(y, x + [98]) > 0 && CompareString(x, y) > 0
  {
    var z := x + [98];
    PrefixFirst(x, z);
    PrefixFirst(x, y);
    var rest := y[|x| + 1..];
    assert y == x + [y[|x|]] + rest && z == x + [98] + [];
    FirstDifference(x, 98, y[|x|], [], rest);
    Compared(x, z);
    Compared(z, y);
    Compared(x, y);
    hide CompareString, Lexicographic;
  }

  lemma Compared(x: String, y: String)
    ensures Lexicographic(x, y) == -1 ==>
      if ContinuedHigh(x, y) then CompareString(x, y) > 0 && CompareString(y, x) < 0
      else CompareString(x, y) < 0 && CompareString(y, x) > 0
  {
    CompareStringExact(x, y);
    CompareStringExact(y, x);
    LexicographicOrder(x, y, y);
  }

  lemma {:induction false} PrefixFirst(x: String, y: String)
    requires |x| < |y| && x == y[..|x|]
    ensures Lexicographic(x, y) == -1
    decreases |x|
  {
    if x != [] {
      assert x[1..] == y[1..][..|x| - 1];
      PrefixFirst(x[1..], y[1..]);
    }
  }

  lemma {:induction false} FirstDifference(x: String, c: Char, d: Char, p: String, q: String)
    requires c < d
    ensures Lexicographic(x + [c] + p, x + [d] + q) == -1
    decreases |x|
  {
    if x == [] {
      assert [] + [c] + p == [c] + p && [] + [d] + q == [d] + q;
    } else {
      FirstDifference(x[1..], c, d, p, q);
      assert (x + [c] + p)[1..] == x[1..] + [c] + p && (x + [d] + q)[1..] == x[1..] + [d] + q;
    }
  }

  // ----- comprule

  /** The cell to sort by, and whether ascending. */
  datatype Rule = Rule(cell: nat, asc: bool)

  type Row = seq<Value>

  predicate HasCells(rules: seq<Rule>, l: Row) {
    forall k :: 0 <= k < |rules| ==> rules[k].cell < |l|
  }

  /** What the comparator answers when every cell is found. */
  function RowLess(rules: seq<Rule>, l: Row, r: Row): bool
    requires HasCells(rules, l) && HasCells(rules, r)
  {
    rules != [] &&
    match CompareValue(l[rules[0].cell], r[rules[0].cell])
    case LessThan => rules[0].asc
    case GreatThan => !rules[0].asc
    case _ => RowLess(rules[1..], l, r)
  }

  /** `find_cell`: a cell that is not found leaves the value as it was. */
  function Found(row: Row, cell: nat, was: Value): Value {
    if cell < |row| then row[cell] else was
  }

  /** What the comparator answers in any case, from the values of the turn before. */
  function Answer(rules: seq<Rule>, l: Row, r: Row, vleft: Value, vright: Value): bool {
    rules != [] &&
    var a, b := Found(l, rules[0].cell, vleft), Found(r, rules[0].cell, vright);
    match CompareValue(a, b)
    case LessThan => rules[0].asc
    case GreatThan => !rules[0].asc
    case _ => Answer(rules[1..], l, r, a, b)
  }

  lemma {:induction false} AnswerIsRowLess(rules: seq<Rule>, l: Row, r: Row, vleft: Value, vright: Value)
    requires HasCells(rules, l) && HasCells(rules, r)
    ensures Answer(rules, l, r, vleft, vright) == RowLess(rules, l, r)
  {
    if rules != [] {
      AnswerIsRowLess(rules[1..], l, r, l[rules[0].cell], r[rules[0].cell]);
    }
  }

  /** The comparator that `std::sort` is given. */
  method CompRule(rules: seq<Rule>, left: Row, right: Row) returns (less: bool)
    ensures less == Answer(rules, left, right, Null, Null)
    ensures HasCells(rules, left) && HasCells(rules, right) ==> less == RowLess(rules, left, right)
  {
    if HasCells(rules, left) && HasCells(rules, right) {
      AnswerIsRowLess(rules, left, right, Null, Null);
    }
    hide CompareValue;
    var vleft, vright := Null, Null;
    var i := 0;
    assert rules[0..] == rules;
    while i < |rules|
      invariant i <= |rules|
      invariant Answer(rules, left, right, Null, Null) == Answer(rules[i..], left, right, vleft, vright)
    {
      var rule := rules[i];
      assert rules[i..][1..] == rules[i + 1..];
      vleft := Found(left, rule.cell, vleft);
      vright := Found(right, rule.cell, vright);
      match CompareValue(vleft, vright) {
        case EqualTo =>
        case LessThan => return rule.asc;
        case GreatThan => return !rule.asc;
        case NoOp =>
      }
      i := i + 1;
    }
    return false;
  }

  /** The cell of rule `k`, or if there is none the one of the last rule before that has one, or null. */
  function LastFound(rules: seq<Rule>, row: Row, k: nat): Value
    requires k < |rules|
  {
    if rules[k].cell < |row| then row[rules[k].cell]
    else if k == 0 then Null
    else LastFound(rules, row, k - 1)
  }

  function ComparedAt(rules: seq<Rule>, l: Row, r: Row, k: nat): CompOp
    requires k < |rules|
  {
    CompareValue(LastFound(rules, l, k), LastFound(rules, r, k))
  }

  /** Rule `k` is the first from rule `n` on whose values are told apart, and by it the left row comes first. */
  predicate DecidesFirst(rules: seq<Rule>, l: Row, r: Row, n: nat, k: int) {
    && n <= k < |rules|
    && (forall j :: n <= j < k ==> ComparedAt(rules, l, r, j) == EqualTo || ComparedAt(rules, l, r, j) == NoOp)
    && ComparedAt(rules, l, r, k) == if rules[k].asc then LessThan else GreatThan
  }

  ghost predicate ComesFirst(rules: seq<Rule>, l: Row, r: Row, n: nat) {
    exists k :: DecidesFirst(rules, l, r, n, k)
  }

  lemma NextDecides(rules: seq<Rule>, l: Row, r: Row, n: nat)
    requires n < |rules|
    ensures var op := ComparedAt(rules, l, r, n);
      ComesFirst(rules, l, r, n)
      <==> if op == EqualTo || op == NoOp then ComesFirst(rules, l, r, n + 1)
           else op == if rules[n].asc then LessThan else GreatThan
  {
    var op := ComparedAt(rules, l, r, n);
    if op == EqualTo || op == NoOp {
      var m := n + 1;
      if ComesFirst(rules, l, r, m) {
        var k :| DecidesFirst(rules, l, r, m, k);
        assert DecidesFirst(rules, l, r, n, k);
      }
      if ComesFirst(rules, l, r, n) {
        var k :| DecidesFirst(rules, l, r, n, k);
        assert DecidesFirst(rules, l, r, m, k);
      }
    } else if op == if rules[n].asc then LessThan else GreatThan {
      assert DecidesFirst(rules, l, r, n, n);
    }
  }

  /** From rule `n` on, with the values found so far. */
  lemma {:induction false} AnswerFrom(rules: seq<Rule>, l: Row, r: Row, n: nat, a: Value, b: Value)
    requires n <= |rules|
    requires a == if n == 0 then Null else LastFound(rules, l, n - 1)
    requires b == if n == 0 then Null else LastFound(rules, r, n - 1)
    ensures Answer(rules[n..], l, r, a, b) <==> ComesFirst(rules, l, r, n)
    decreases |rules| - n
  {
    if n < |rules| {
      assert rules[n..][1..] == rules[n + 1..] && rules[n..][0] == rules[n];
      var c, d := Found(l, rules[n].cell, a), Found(r, rules[n].cell, b);
      assert c == LastFound(rules, l, n) && d == LastFound(rules, r, n);
      NextDecides(rules, l, r, n);
      hide CompareValue, LastFound, ComesFirst;
      AnswerFrom(rules, l, r, n + 1, c, d);
    }
  }

  /** The comparator with cells that may be missing: the first rule whose values are told apart decides. */
  lemma AnswerExact(rules: seq<Rule>, l: Row, r: Row)
    ensures Answer(rules, l, r, Null, Null) <==> exists k :: DecidesFirst(rules, l, r, 0, k)
  {
    AnswerFrom(rules, l, r, 0, Null, Null);
    assert rules[0..] == rules;
  }

  /** The rows agree in the cells of the first `k` rules. */
  predicate SameBefore(rules: seq<Rule>, k: nat, l: Row, r: Row)
    requires k <= |rules| && HasCells(rules, l) && HasCells(rules, r)
  {
    forall j :: 0 <= j < k ==> l[rules[j].cell] == r[rules[j].cell]
  }

  lemma SameBeforeTail(rules: seq<Rule>, k: nat, l: Row, r: Row)
    requires 0 < k <= |rules| && HasCells(rules, l) && HasCells(rules, r)
    ensures SameBefore(rules, k, l, r)
            <==> l[rules[0].cell] == r[rules[0].cell] && SameBefore(rules[1..], k - 1, l, r)
  {
    assert forall j :: 0 < j < k ==> rules[1..][j - 1] == rules[j];
  }

  /** By the reference, value `x` comes before `y` under the rule. */
  predicate Before(rule: Rule, x: Value, y: Value) {
    if rule.asc then ValueOrder(x, y) < 0 else ValueOrder(x, y) > 0
  }

  /** At their first difference the rows have values that are compared as they should be, or numbers so
      close to one another that the later rules decide, and these happen to decide in their order. */
  predicate SortableRows(rules: seq<Rule>, l: Row, r: Row)
    requires HasCells(rules, l) && HasCells(rules, r)
  {
    rules != [] ==>
      var x, y := l[rules[0].cell], r[rules[0].cell];
      if x == y then SortableRows(rules[1..], l, r) else Sortable(x, y) || (Close(x, y) && LaterAgree(rules, l, r))
  }

  predicate LaterAgree(rules: seq<Rule>, l: Row, r: Row)
    requires rules != [] && HasCells(rules, l) && HasCells(rules, r)
  {
    var x, y := l[rules[0].cell], r[rules[0].cell];
    && RowLess(rules[1..], l, r) == Before(rules[0], x, y)
    && RowLess(rules[1..], r, l) == Before(rules[0], y, x)
  }

  /** The first rule decides if its values differ. */
  lemma HeadDecides(rules: seq<Rule>, l: Row, r: Row)
    requires rules != [] && HasCells(rules, l) && HasCells(rules, r) && SortableRows(rules, l, r)
    ensures var x, y := l[rules[0].cell], r[rules[0].cell];
      && Kindred(x, y)
      && (x != y ==>
            && RowLess(rules, l, r) == Before(rules[0], x, y) && RowLess(rules, r, l) == Before(rules[0], y, x)
            && Before(rules[0], x, y) != Before(rules[0], y, x))
      && (x == y ==>
            && RowLess(rules, l, r) == RowLess(rules[1..], l, r) && RowLess(rules, r, l) == RowLess(rules[1..], r, l)
            && SortableRows(rules[1..], l, r))
  {
    var x, y := l[rules[0].cell], r[rules[0].cell];
    CompareSame(x);
    if x != y {
      ValueOrderIsTotal(x, y, y);
      if Sortable(x, y) {
        SortableBack(x, y);
        CompareValueExact(x, y);
        CompareValueExact(y, x);
      }
    }
    hide ValueOrder;
  }

  lemma SortableBack(x: Value, y: Value)
    requires Sortable(x, y)
    ensures Sortable(y, x)
  {
  }

  lemma CompareSame(x: Value)
    ensures CompareValue(x, x) == EqualTo && Sortable(x, x)
  {
    ValueOrderIsTotal(x, x, x);
    CompareValueExact(x, x);
  }

  /** Rule `k` finds the first difference, and by it the left row comes first. */
  predicate DecidedBy(rules: seq<Rule>, k: nat, l: Row, r: Row)
    requires k < |rules| && HasCells(rules, l) && HasCells(rules, r)
  {
    SameBefore(rules, k, l, r) && Before(rules[k], l[rules[k].cell], r[rules[k].cell])
  }

  lemma DecidedTail(rules: seq<Rule>, k: nat, l: Row, r: Row)
    requires 0 < k < |rules| && HasCells(rules, l) && HasCells(rules, r)
    requires l[rules[0].cell] == r[rules[0].cell]
    ensures DecidedBy(rules, k, l, r) <==> DecidedBy(rules[1..], k - 1, l, r)
  {
    SameBeforeTail(rules, k, l, r);
    assert rules[1..][k - 1] == rules[k];
  }

  /** The comparator says less exactly if some rule finds the first difference, in its direction. */
  lemma {:induction false} FirstDifferenceDecides(rules: seq<Rule>, l: Row, r: Row)
    requires HasCells(rules, l) && HasCells(rules, r) && SortableRows(rules, l, r)
    ensures RowLess(rules, l, r) <==> exists k: nat :: k < |rules| && DecidedBy(rules, k, l, r)
  {
    if rules != [] {
      var a, b := l[rules[0].cell], r[rules[0].cell];
      HeadDecides(rules, l, r);
      ValueOrderIsTotal(a, b, b);
      assert DecidedBy(rules, 0, l, r) <==> Before(rules[0], a, b);
      if a == b {
        FirstDifferenceDecides(rules[1..], l, r);
        hide ValueOrder, CompareValue, SortableRows, DecidedBy, RowLess;
        if RowLess(rules, l, r) {
          var k: nat :| k < |rules[1..]| && DecidedBy(rules[1..], k, l, r);
          DecidedTail(rules, k + 1, l, r);
        }
        if k: nat :| 0 < k < |rules| && DecidedBy(rules, k, l, r) {
          DecidedTail(rules, k, l, r);
        }
      } else {
        forall k: nat | 0 < k < |rules| ensures !DecidedBy(rules, k, l, r) {
          SameBeforeTail(rules, k, l, r);
        }
      }
    }
  }

  predicate Tied(rules: seq<Rule>, a: Row, b: Row)
    requires HasCells(rules, a) && HasCells(rules, b)
  {
    !RowLess(rules, a, b) && !RowLess(rules, b, a)
  }

  predicate SameKeys(rules: seq<Rule>, a: Row, b: Row)
    requires HasCells(rules, a) && HasCells(rules, b)
  {
    SameBefore(rules, |rules|, a, b)
  }

  /** Of two sortable rows one is less, or they agree in all keys; never both. */
  lemma {:induction false} RowsCompared(rules: seq<Rule>, a: Row, b: Row)
    requires HasCells(rules, a) && HasCells(rules, b) && SortableRows(rules, a, b)
    ensures !(RowLess(rules, a, b) && RowLess(rules, b, a))
    ensures Tied(rules, a, b) <==> SameKeys(rules, a, b)
  {
    if rules != [] {
      SameBeforeTail(rules, |rules|, a, b);
      HeadDecides(rules, a, b);
      hide Before, SortableRows, SameBefore, RowLess;
      if a[rules[0].cell] == b[rules[0].cell] {
        RowsCompared(rules[1..], a, b);
      }
    }
  }

  lemma {:induction false} RowLessTransitive(rules: seq<Rule>, a: Row, b: Row, c: Row)
    requires HasCells(rules, a) && HasCells(rules, b) && HasCells(rules, c)
    requires SortableRows(rules, a, b) && SortableRows(rules, b, c) && SortableRows(rules, a, c)
    requires RowLess(rules, a, b) && RowLess(rules, b, c)
    ensures RowLess(rules, a, c)
  {
    HeadDecides(rules, a, b);
    HeadDecides(rules, b, c);
    HeadDecides(rules, a, c);
    BeforeTransitive(rules[0], a[rules[0].cell], b[rules[0].cell], c[rules[0].cell]);
    hide RowLess, Before, SortableRows, Kindred;
    if a[rules[0].cell] == b[rules[0].cell] == c[rules[0].cell] {
      RowLessTransitive(rules[1..], a, b, c);
    }
  }

  lemma BeforeTransitive(rule: Rule, x: Value, y: Value, z: Value)
    requires Kindred(x, y) && Kindred(y, z) && Kindred(x, z)
    ensures Before(rule, x, y) && Before(rule, y, z) ==> Before(rule, x, z) && x != z
  {
    ValueOrderIsTotal(x, y, z);
    ValueOrderIsTotal(z, y, x);
    ValueOrderIsTotal(x, z, y);
    ValueOrderIsTotal(y, z, x);
    hide ValueOrder, Kindred;
  }

  /** What `std::sort` demands: nothing is less than itself, less is asymmetric and transitive, and so
      is neither being less. */
  ghost predicate StrictWeakOrder(rules: seq<Rule>, rows: set<Row>)
    requires forall x <- rows :: HasCells(rules, x)
  {
    && (forall x <- rows :: !RowLess(rules, x, x))
    && (forall x <- rows, y <- rows :: RowLess(rules, x, y) ==> !RowLess(rules, y, x))
    && (forall x <- rows, y <- rows, z <- rows ::
          RowLess(rules, x, y) && RowLess(rules, y, z) ==> RowLess(rules, x, z))
    && (forall x <- rows, y <- rows, z <- rows :: Tied(rules, x, y) && Tied(rules, y, z) ==> Tied(rules, x, z))
  }

  /** The comparator is a strict weak order on every set of rows that are sortable in pairs. */
  lemma RowLessIsStrictWeakOrder(rules: seq<Rule>, rows: set<Row>)
    requires forall x <- rows :: HasCells(rules, x)
    requires forall x <- rows, y <- rows :: SortableRows(rules, x, y)
    ensures StrictWeakOrder(rules, rows)
  {
    hide SortableRows;
    forall x <- rows, y <- rows
      ensures !RowLess(rules, x, x) && (RowLess(rules, x, y) ==> !RowLess(rules, y, x))
      ensures Tied(rules, x, y) <==> SameKeys(rules, x, y)
    {
      RowsCompared(rules, x, y);
      RowsCompared(rules, x, x);
    }
    forall x <- rows, y <- rows, z <- rows | RowLess(rules, x, y) && RowLess(rules, y, z)
      ensures RowLess(rules, x, z)
    {
      RowLessTransitive(rules, x, y, z);
    }
  }

  // ----- Rows that are not sortable

  /** The first difference decides, whatever the other values. */
  lemma {:induction false} DecidedAt(rules: seq<Rule>, k: nat, l: Row, r: Row)
    requires k < |rules| && HasCells(rules, l) && HasCells(rules, r) && SameBefore(rules, k, l, r)
    ensures CompareValue(l[rules[k].cell], r[rules[k].cell]) == LessThan ==> RowLess(rules, l, r) == rules[k].asc
    ensures CompareValue(l[rules[k].cell], r[rules[k].cell]) == GreatThan ==> RowLess(rules, l, r) != rules[k].asc
  {
    if k > 0 {
      SameBeforeTail(rules, k, l, r);
      CompareSame(l[rules[0].cell]);
      DecidedAt(rules[1..], k - 1, l, r);
      assert rules[1..][k - 1] == rules[k];
    }
  }

  /** Without a difference that counts, neither row is less. */
  lemma {:induction false} NeverDecided(rules: seq<Rule>, l: Row, r: Row)
    requires HasCells(rules, l) && HasCells(rules, r)
    requires forall k :: 0 <= k < |rules| ==>
      CompareValue(l[rules[k].cell], r[rules[k].cell]) in {EqualTo, NoOp}
    ensures !RowLess(rules, l, r)
  {
    if rules != [] {
      assert forall k :: 0 <= k < |rules| - 1 ==> rules[1..][k] == rules[k + 1];
      NeverDecided(rules[1..], l, r);
    }
  }

  /** A row that has the value `v` in the cell of rule `k` and is like `l` else; an earlier rule does not look at
      that cell when it is the first difference of `l` and `r`. */
  lemma OtherCells(rules: seq<Rule>, k: nat, l: Row, r: Row, v: Value)
    requires k < |rules| && HasCells(rules, l) && HasCells(rules, r) && SameBefore(rules, k, l, r)
    requires l[rules[k].cell] != r[rules[k].cell]
    ensures HasCells(rules, l[rules[k].cell := v])
    ensures SameBefore(rules, k, l, l[rules[k].cell := v]) && SameBefore(rules, k, r, l[rules[k].cell := v])
    ensures SameBefore(rules, k, l[rules[k].cell := v], r) && SameBefore(rules, k, r, l)
    ensures SameBefore(rules, k, l[rules[k].cell := v], l)
  {
  }

  /** Changing a cell to a value that is not told from the old one makes a tie. */
  lemma ChangedTies(rules: seq<Rule>, cell: nat, b: Row, v: Value)
    requires HasCells(rules, b) && cell < |b|
    requires CompareValue(b[cell], v) in {EqualTo, NoOp} && CompareValue(v, b[cell]) in {EqualTo, NoOp}
    ensures HasCells(rules, b[cell := v]) && Tied(rules, b, b[cell := v])
  {
    var c := b[cell := v];
    forall j | 0 <= j < |rules|
      ensures CompareValue(b[rules[j].cell], c[rules[j].cell]) in {EqualTo, NoOp}
      ensures CompareValue(c[rules[j].cell], b[rules[j].cell]) in {EqualTo, NoOp}
    {
      CompareSame(b[rules[j].cell]);
    }
    NeverDecided(rules, b, c);
    NeverDecided(rules, c, b);
  }

  /** A row that is tied with `b` and on another side of `a` than `b` is. */
  lemma TieBreaks(rules: seq<Rule>, a: Row, b: Row, c: Row)
    requires HasCells(rules, a) && HasCells(rules, b) && HasCells(rules, c) && Tied(rules, b, c)
    requires (RowLess(rules, a, c) && !RowLess(rules, a, b)) || (RowLess(rules, c, a) && !RowLess(rules, b, a))
    ensures !StrictWeakOrder(rules, {a, b, c})
  {
    assert a in {a, b, c} && b in {a, b, c} && c in {a, b, c};
    hide RowLess;
  }

  /** A string that is continued with a high character: a third row closes a circle. */
  lemma HighCircle(rules: seq<Rule>, k: nat, a: Row, b: Row) returns (c: Row)
    requires k < |rules| && HasCells(rules, a) && HasCells(rules, b) && SameBefore(rules, k, a, b)
    requires var x, y := a[rules[k].cell], b[rules[k].cell];
      SameType(x, y) && IsString(x) && |x.s| < |y.s| && x.s == y.s[..|x.s|] && y.s[|x.s|] >= 128
    ensures HasCells(rules, c) && !StrictWeakOrder(rules, {a, b, c})
    ensures if rules[k].asc then RowLess(rules, a, c) && RowLess(rules, c, b) && RowLess(rules, b, a)
            else RowLess(rules, c, a) && RowLess(rules, b, c) && RowLess(rules, a, b)
  {
    var x, y := a[rules[k].cell], b[rules[k].cell];
    var v := if x.Chars? then Chars(x.s + [98]) else Texts(x.s + [98]);
    c := a[rules[k].cell := v];
    Between(x.s, y.s);
    OtherCells(rules, k, a, b, v);
    assert CompareValue(x, v) == LessThan && CompareValue(v, x) == GreatThan;
    assert CompareValue(v, y) == LessThan && CompareValue(y, v) == GreatThan;
    assert CompareValue(y, x) == LessThan && CompareValue(x, y) == GreatThan;
    hide CompareValue, RowLess, Tied;
    DecidedAt(rules, k, a, c);
    DecidedAt(rules, k, c, a);
    DecidedAt(rules, k, c, b);
    DecidedAt(rules, k, b, c);
    DecidedAt(rules, k, b, a);
    DecidedAt(rules, k, a, b);
    assert a in {a, b, c} && b in {a, b, c} && c in {a, b, c};
  }

  /** A greater value of the same type. */
  function Above(x: Value): Value
    requires !x.Null?
  {
    match x
    case Int(i) => Int(i + 1)
    case Date(d) => Date(d + 1)
    case Bool(raw) => Bool(raw + 1)
    case Float(f) => Float(f + 1.0)
    case Chars(s) => Chars(s + [98])
    case Texts(s) => Texts(s + [98])
  }

  lemma AboveIsGreater(x: Value)
    requires !x.Null?
    ensures SameType(Above(x), x)
    ensures CompareValue(x, Above(x)) == LessThan && CompareValue(Above(x), x) == GreatThan
  {
    if IsString(x) {
      PrefixFirst(x.s, x.s + [98]);
      Compared(x.s, x.s + [98]);
    }
  }

  /** Values of two types, the rows not in the direction of the rule: a third row is tied with the second and
      after the first. */
  lemma MixedTypesTie(rules: seq<Rule>, k: nat, a: Row, b: Row) returns (c: Row)
    requires k < |rules| && HasCells(rules, a) && HasCells(rules, b) && SameBefore(rules, k, a, b)
    requires var x, y := a[rules[k].cell], b[rules[k].cell]; !Kindred(x, y)
    requires if rules[k].asc then !RowLess(rules, a, b) else !RowLess(rules, b, a)
    ensures HasCells(rules, c) && !StrictWeakOrder(rules, {a, b, c})
  {
    var cell, x := rules[k].cell, a[rules[k].cell];
    c := b[cell := Above(x)];
    AboveIsGreater(x);
    OtherCells(rules, k, b, a, Above(x));
    ChangedTies(rules, cell, b, Above(x));
    hide RowLess, Above;
    DecidedAt(rules, k, a, c);
    DecidedAt(rules, k, c, a);
    TieBreaks(rules, a, b, c);
  }

  lemma BothLessBreaks(rules: seq<Rule>, a: Row, b: Row)
    requires HasCells(rules, a) && HasCells(rules, b) && RowLess(rules, a, b) && RowLess(rules, b, a)
    ensures !StrictWeakOrder(rules, {a, b, a})
  {
    assert a in {a, b, a} && b in {a, b, a};
    hide RowLess;
  }

  /** Values of two types, which no stored column has; this is about the comparator as a function. */
  lemma MixedTypesBreak(rules: seq<Rule>, k: nat, a: Row, b: Row) returns (c: Row)
    requires k < |rules| && HasCells(rules, a) && HasCells(rules, b) && SameBefore(rules, k, a, b)
    requires !Kindred(a[rules[k].cell], b[rules[k].cell])
    ensures HasCells(rules, c) && !StrictWeakOrder(rules, {a, b, c})
  {
    hide RowLess, StrictWeakOrder, Kindred;
    assert SameBefore(rules, k, b, a) && !Kindred(b[rules[k].cell], a[rules[k].cell]) by {
      KindredBack(b[rules[k].cell], a[rules[k].cell]);
    }
    if RowLess(rules, a, b) && RowLess(rules, b, a) {
      c := a;
      BothLessBreaks(rules, a, b);
    } else if RowLess(rules, a, b) == rules[k].asc && RowLess(rules, b, a) != rules[k].asc {
      c := MixedTypesTie(rules, k, b, a);
      assert {b, a, c} == {a, b, c};
    } else {
      c := MixedTypesTie(rules, k, a, b);
    }
  }

  lemma KindredBack(x: Value, y: Value)
    ensures Kindred(x, y) <==> Kindred(y, x)
  {
  }

  /** Two numbers that are taken for equal although they are not, and the later rules do not put them in their
      order: a third row is tied with the second, and the first is told from it. */
  lemma CloseNumbersBreak(rules: seq<Rule>, k: nat, a: Row, b: Row) returns (c: Row)
    requires k < |rules| && HasCells(rules, a) && HasCells(rules, b) && SameBefore(rules, k, a, b)
    requires Close(a[rules[k].cell], b[rules[k].cell])
    requires var x, y := a[rules[k].cell], b[rules[k].cell];
      RowLess(rules, a, b) != Before(rules[k], x, y) || RowLess(rules, b, a) != Before(rules[k], y, x)
    ensures HasCells(rules, c) && !StrictWeakOrder(rules, {a, b, c})
  {
    if RowLess(rules, a, b) && RowLess(rules, b, a) {
      c := a;
      BothLessBreaks(rules, a, b);
    } else {
      var cell, x, y := rules[k].cell, a[rules[k].cell], b[rules[k].cell];
      var v := Float(if x.f < y.f then y.f + EPSILON else y.f - EPSILON);
      c := b[cell := v];
      OtherCells(rules, k, b, a, v);
      ChangedTies(rules, cell, b, v);
      hide RowLess;
      DecidedAt(rules, k, a, c);
      DecidedAt(rules, k, c, a);
      TieBreaks(rules, a, b, c);
    }
  }

  /** Where rows that are not sortable differ first. */
  lemma {:induction false} FirstUnsortable(rules: seq<Rule>, a: Row, b: Row) returns (k: nat)
    requires HasCells(rules, a) && HasCells(rules, b) && !SortableRows(rules, a, b)
    ensures k < |rules| && SameBefore(rules, k, a, b)
    ensures var x, y := a[rules[k].cell], b[rules[k].cell];
      && x != y && !Sortable(x, y)
      && (Close(x, y) ==>
            RowLess(rules, a, b) != Before(rules[k], x, y) || RowLess(rules, b, a) != Before(rules[k], y, x))
  {
    if a[rules[0].cell] != b[rules[0].cell] {
      k := 0;
    } else {
      CompareSame(a[rules[0].cell]);
      k := FirstUnsortable(rules[1..], a, b);
      hide SortableRows, Sortable;
      k := k + 1;
      SameBeforeTail(rules, k, a, b);
      assert rules[1..][k - 1] == rules[k];
    }
  }

  /** Every two rows that are not sortable stand in a set of three on which the comparator is no
      strict weak order. */
  lemma UnsortableRowsBreak(rules: seq<Rule>, a: Row, b: Row) returns (c: Row)
    requires HasCells(rules, a) && HasCells(rules, b) && !SortableRows(rules, a, b)
    ensures HasCells(rules, c) && !StrictWeakOrder(rules, {a, b, c})
  {
    var k := FirstUnsortable(rules, a, b);
    var x, y := a[rules[k].cell], b[rules[k].cell];
    hide SortableRows, RowLess, StrictWeakOrder, Before;
    if !Kindred(x, y) {
      c := MixedTypesBreak(rules, k, a, b);
    } else if Close(x, y) {
      c := CloseNumbersBreak(rules, k, a, b);
    } else if |x.s| < |y.s| {
      c := HighCircle(rules, k, a, b);
    } else {
      c := HighCircle(rules, k, b, a);
      assert {b, a, c} == {a, b, c};
    }
  }

  /** For example: "a" before "ab" before "a" with the byte 195 before "a". */
  lemma HighBytesGoRound()
    ensures
      var a, ab, ac3 := Chars([97]), Chars([97, 98]), Chars([97, 195]);
      && CompareValue(a, ab) == LessThan && CompareValue(ab, ac3) == LessThan && CompareValue(ac3, a) == LessThan
  {
    assert [97, 195][..1] == [97] && [97] + [98] == [97, 98];
    Between([97], [97, 195]);
  }

  /** For example: the number i and the number after it both tie with any string. */
  lemma MixedTypesDoNotTie(i: int, s: String)
    ensures
      var rules := [Rule(0, true)];
      && Tied(rules, [Int(i)], [Chars(s)]) && Tied(rules, [Chars(s)], [Int(i + 1)])
      && RowLess(rules, [Int(i)], [Int(i + 1)])
  {
    assert [Rule(0, true)][1..] == [];
  }

  /** For example: a float ties with those that are EPSILON before and after it, and these do not tie. */
  lemma FloatsDoNotTie(f: real)
    ensures
      var rules, less, more := [Rule(0, true)], [Float(f - EPSILON)], [Float(f + EPSILON)];
      Tied(rules, less, [Float(f)]) && Tied(rules, [Float(f)], more) && RowLess(rules, less, more)
  {
    assert [Rule(0, true)][1..] == [];
  }
}
