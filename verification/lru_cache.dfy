/** deps/common/lang/lru_cache.h: a map whose entries are linked by recency of use. */
module LruCaches {
  import opened Common

  // ----- What the cache is, as a list of entries, the most recent first

  function Without<K(==), V>(c: seq<(K, V)>, k: K): seq<(K, V)> {
    if c == [] then []
    else if c[0].0 == k then Without(c[1..], k)
    else [c[0]] + Without(c[1..], k)
  }

  function Lookup<K(==), V>(c: seq<(K, V)>, k: K): Option<V> {
    if c == [] then None
    else if c[0].0 == k then Some(c[0].1)
    else Lookup(c[1..], k)
  }

  predicate DistinctKeys<K(==), V>(c: seq<(K, V)>) {
    forall i, j :: 0 <= i < j < |c| ==> c[i].0 != c[j].0
  }

  lemma {:induction false} WithoutAt<K, V>(c: seq<(K, V)>, i: nat)
    requires DistinctKeys(c) && i < |c|
    ensures Without(c, c[i].0) == c[..i] + c[i + 1..] && Lookup(c, c[i].0) == Some(c[i].1)
  {
    if i == 0 {
      WithoutAbsent(c[1..], c[0].0);
    } else {
      WithoutAt(c[1..], i - 1);
      assert c[..i] == [c[0]] + c[1..][..i - 1];
    }
  }

  lemma {:induction false} WithoutAbsent<K, V>(c: seq<(K, V)>, k: K)
    requires forall i :: 0 <= i < |c| ==> c[i].0 != k
    ensures Without(c, k) == c && Lookup(c, k) == None
  {
    if c != [] {
      WithoutAbsent(c[1..], k);
    }
  }

  predicate Distinct<T(==)>(s: seq<T>) {
    forall i, j :: 0 <= i < j < |s| ==> s[i] != s[j]
  }

  function ToFront<T>(s: seq<T>, i: nat): (t: seq<T>)
    requires i < |s|
    ensures |t| == |s| && t[0] == s[i]
    ensures forall j :: 1 <= j <= i ==> t[j] == s[j - 1]
    ensures forall j :: i < j < |s| ==> t[j] == s[j]
  {
    [s[i]] + s[..i] + s[i + 1..]
  }

  lemma ToFrontOfFirst<T>(s: seq<T>)
    requires s != []
    ensures ToFront(s, 0) == s
  {
  }

  lemma ToFrontMembers<T>(s: seq<T>, i: nat)
    requires i < |s| && Distinct(s)
    ensures Distinct(ToFront(s, i))
    ensures forall x :: x in ToFront(s, i) <==> x in s
  {
    forall x | x in s ensures x in ToFront(s, i) {
      var j :| 0 <= j < |s| && s[j] == x;
      assert ToFront(s, i)[if j < i then j + 1 else if j == i then 0 else j] == x;
    }
    forall x | x in ToFront(s, i) ensures x in s {
      var j :| 0 <= j < |s| && ToFront(s, i)[j] == x;
      assert s[if j == 0 then i else if j <= i then j - 1 else j] == x;
    }
  }

  function Dropped<T>(s: seq<T>, i: nat): (t: seq<T>)
    requires i < |s|
    ensures |t| == |s| - 1
    ensures forall j :: 0 <= j < i ==> t[j] == s[j]
    ensures forall j :: i <= j < |s| - 1 ==> t[j] == s[j + 1]
  {
    s[..i] + s[i + 1..]
  }

  lemma DroppedMembers<T>(s: seq<T>, i: nat)
    requires i < |s| && Distinct(s)
    ensures Distinct(Dropped(s, i))
    ensures forall x :: x in Dropped(s, i) <==> x in s && x != s[i]
  {
    forall x | x in s && x != s[i] ensures x in Dropped(s, i) {
      var j :| 0 <= j < |s| && s[j] == x;
      assert Dropped(s, i)[if j < i then j else j - 1] == x;
    }
    forall x | x in Dropped(s, i) ensures x in s && x != s[i] {
      var j :| 0 <= j < |s| - 1 && Dropped(s, i)[j] == x;
      assert s[if j < i then j else j + 1] == x;
    }
  }

  class ListNode<K, V> {
    const key: K
    var value: V
    var prev: ListNode?<K, V>
    var next: ListNode?<K, V>

    constructor (key: K, value: V)
      ensures this.key == key && this.value == value && prev == null && next == null
    {
      this.key, this.value, prev, next := key, value, null, null;
    }
  }

  ghost predicate Ends<K, V>(nodes: seq<ListNode<K, V>>, front: ListNode?<K, V>, tail: ListNode?<K, V>) {
    if nodes == [] then front == null && tail == null else front == nodes[0] && tail == nodes[|nodes| - 1]
  }

  ghost predicate Prevs<K, V>(nodes: seq<ListNode<K, V>>)
    reads nodes`prev
  {
    forall i {:trigger nodes[i].prev} :: 0 <= i < |nodes| ==>
      nodes[i].prev == if i == 0 then null else nodes[i - 1]
  }

  ghost predicate Nexts<K, V>(nodes: seq<ListNode<K, V>>)
    reads nodes`next
  {
    forall i {:trigger nodes[i].next} :: 0 <= i < |nodes| ==>
      nodes[i].next == if i == |nodes| - 1 then null else nodes[i + 1]
  }

  /** The lookup set holds exactly the nodes of the list. */
  ghost predicate Indexed<K, V>(nodes: seq<ListNode<K, V>>, searcher: map<K, ListNode<K, V>>) {
    && (forall n <- nodes :: n.key in searcher && searcher[n.key] == n)
    && (forall k <- searcher :: searcher[k] in nodes && searcher[k].key == k)
  }

  lemma ToFrontIndexed<K, V>(nodes: seq<ListNode<K, V>>, searcher: map<K, ListNode<K, V>>, i: nat)
    requires i < |nodes| && Distinct(nodes) && Indexed(nodes, searcher)
    ensures Distinct(ToFront(nodes, i)) && Indexed(ToFront(nodes, i), searcher)
  {
    ToFrontMembers(nodes, i);
  }

  lemma Split<K, V>(nodes: seq<ListNode<K, V>>, searcher: map<K, ListNode<K, V>>, i: nat)
    returns (rest: seq<ListNode<K, V>>)
    requires 0 < i < |nodes| && Distinct(nodes) && Indexed(nodes, searcher)
    ensures rest == Dropped(nodes, i) && [nodes[i]] + rest == ToFront(nodes, i)
    ensures Distinct([nodes[i]] + rest) && Indexed([nodes[i]] + rest, searcher)
    ensures nodes[i] in nodes && forall n <- rest :: n in nodes
  {
    ToFrontIndexed(nodes, searcher, i);
    DroppedMembers(nodes, i);
    rest := Dropped(nodes, i);
    assert [nodes[i]] + rest == ToFront(nodes, i);
  }

  lemma DroppedIndexed<K, V>(nodes: seq<ListNode<K, V>>, searcher: map<K, ListNode<K, V>>, i: nat)
    requires i < |nodes| && Distinct(nodes) && Indexed(nodes, searcher)
    ensures Distinct(Dropped(nodes, i)) && Indexed(Dropped(nodes, i), searcher - {nodes[i].key})
  {
    DroppedMembers(nodes, i);
    assert nodes[i] in nodes;
  }

  ghost function Entries<K, V>(nodes: seq<ListNode<K, V>>): (c: seq<(K, V)>)
    reads nodes`value
    ensures |c| == |nodes|
    ensures forall i :: 0 <= i < |c| ==> c[i] == (nodes[i].key, nodes[i].value)
  {
    if nodes == [] then [] else [(nodes[0].key, nodes[0].value)] + Entries(nodes[1..])
  }

  lemma Apart<T>(x: T, rest: seq<T>)
    requires Distinct([x] + rest)
    ensures Distinct(rest)
    ensures forall i :: 0 <= i < |rest| ==> rest[i] != x
    ensures forall i :: 0 < i < |rest| ==> rest[i] != rest[0]
  {
    var all := [x] + rest;
    assert all[0] == x && forall i :: 0 <= i < |rest| ==> all[i + 1] == rest[i];
  }

  /** `searcher_` finds the node of a key. `nodes` is the list, front first (ghost). */
  class LruCache<K(==), V> {
    var searcher: map<K, ListNode<K, V>>
    var front: ListNode?<K, V>
    var tail: ListNode?<K, V>
    ghost var nodes: seq<ListNode<K, V>>

    ghost predicate Valid()
      reads this, nodes
    {
      && Distinct(nodes) && Indexed(nodes, searcher) && Ends(nodes, front, tail)
      && Prevs(nodes) && Nexts(nodes)
    }

    /** The entries, the most recently used first. */
    ghost function Contents(): (c: seq<(K, V)>)
      reads this, nodes`value
    {
      Entries(nodes)
    }

    lemma KeysAreDistinct()
      requires Valid()
      ensures DistinctKeys(Contents())
      ensures forall k :: k in searcher <==> Lookup(Contents(), k).Some?
    {
      var c := Contents();
      forall k ensures k in searcher <==> Lookup(c, k).Some? {
        if k in searcher {
          var i :| 0 <= i < |nodes| && nodes[i] == searcher[k];
          WithoutAt(c, i);
        } else {
          WithoutAbsent(c, k);
        }
      }
    }

    lemma NotFound(k: K)
      requires Valid() && k !in searcher
      ensures Without(Contents(), k) == Contents() && Lookup(Contents(), k) == None
    {
      WithoutAbsent(Contents(), k);
    }

    constructor ()
      ensures Valid() && Contents() == [] && nodes == []
    {
      searcher, front, tail, nodes := map[], null, null, [];
    }

    /** The first half of `lru_touch`: the neighbours of the node are linked to each other. */
    method Bypass(node: ListNode<K, V>, ghost i: nat)
      requires Valid() && 0 < i < |nodes| && nodes[i] == node
      modifies this`tail, nodes`prev, nodes`next
      ensures var rest := Dropped(nodes, i); Ends(rest, front, tail) && Prevs(rest) && Nexts(rest)
    {
      hide Indexed;
      assert node.prev == nodes[i - 1];
      assert node.next == if i == |nodes| - 1 then null else nodes[i + 1];
      node.prev.next := node.next;
      if node.next != null {
        node.next.prev := node.prev;
      } else {
        tail := node.prev;
      }
      assert Nexts(Dropped(nodes, i));
      assert Prevs(Dropped(nodes, i));
    }

    /** The second half of `lru_touch` and most of `lru_push`: the node is linked before the rest of
        the list. */
    method LinkFront(node: ListNode<K, V>, ghost rest: seq<ListNode<K, V>>)
      requires Distinct([node] + rest) && Prevs(rest) && Nexts(rest)
      requires if rest == [] then front == null && tail == node else Ends(rest, front, tail)
      modifies this`front, node`prev, node`next, (if front == null then {node} else {front})`prev
      ensures Ends([node] + rest, front, tail) && Prevs([node] + rest) && Nexts([node] + rest)
    {
      hide Distinct;
      assert forall i :: 0 <= i < |rest| ==> rest[i] != node by {
        Apart(node, rest);
      }
      node.prev := null;
      node.next := front;
      if front != null {
        front.prev := node;
      }
      front := node;
      assert forall i :: 0 < i < |rest| ==> rest[i] != rest[0] by {
        Apart(node, rest);
      }
    }

    /** `lru_touch`: the node moves to the front. */
    method Touch(node: ListNode<K, V>, ghost i: nat)
      requires Valid() && i < |nodes| && nodes[i] == node
      modifies this`front, this`tail, this`nodes, nodes`prev, nodes`next
      ensures Valid() && nodes == ToFront(old(nodes), i)
    {
      OnlyFirstHasNoPrev(i);
      if node.prev == null {
        ToFrontOfFirst(nodes);
        return;
      }
      ghost var rest := Split(nodes, searcher, i);
      hide Valid, Indexed, Distinct, Nexts, Prevs, Ends, ToFront, Dropped;
      Bypass(node, i);
      Relink(node, rest);
    }

    lemma OnlyFirstHasNoPrev(i: nat)
      requires Valid() && i < |nodes|
      ensures nodes[i].prev == null <==> i == 0
      ensures front == nodes[0]
    {
    }

    method Relink(node: ListNode<K, V>, ghost rest: seq<ListNode<K, V>>)
      requires rest != [] && Distinct([node] + rest) && Indexed([node] + rest, searcher)
      requires Ends(rest, front, tail) && Prevs(rest) && Nexts(rest)
      modifies this`front, this`nodes, node`prev, node`next, front`prev
      ensures Valid() && nodes == [node] + rest
    {
      hide Distinct, Indexed, Prevs, Nexts;
      nodes := [node] + rest;
      LinkFront(node, rest);
    }

    /** `lru_push`: a new node goes to the front. */
    method Push(node: ListNode<K, V>)
      requires Valid() && node !in nodes && node.key !in searcher
      modifies this, nodes`prev, nodes`next, node`prev, node`next
      ensures Valid() && nodes == [node] + old(nodes)
    {
      if tail == null {
        tail := node;
      }
      LinkFront(node, nodes);
      searcher := searcher[node.key := node];
      nodes := [node] + nodes;
    }

    /** The list part of `lru_remove`. */
    method Detach(node: ListNode<K, V>, ghost i: nat)
      requires Distinct(nodes) && Ends(nodes, front, tail) && Prevs(nodes) && Nexts(nodes)
      requires i < |nodes| && nodes[i] == node
      modifies this`front, this`tail, nodes`prev, nodes`next
      ensures var rest := Dropped(nodes, i); Ends(rest, front, tail) && Prevs(rest) && Nexts(rest)
    {
      assert node.prev == if i == 0 then null else nodes[i - 1];
      assert node.next == if i == |nodes| - 1 then null else nodes[i + 1];
      if node.prev != null {
        node.prev.next := node.next;
      }
      if node.next != null {
        node.next.prev := node.prev;
      }
      if front == node {
        front := node.next;
      }
      if tail == node {
        tail := node.prev;
      }
      assert Nexts(Dropped(nodes, i));
      assert Prevs(Dropped(nodes, i));
    }

    /** `lru_remove`: the node leaves the list and the lookup set. */
    method Unlink(node: ListNode<K, V>, ghost i: nat)
      requires Valid() && i < |nodes| && nodes[i] == node
      modifies this, nodes`prev, nodes`next
      ensures Valid() && nodes == Dropped(old(nodes), i)
    {
      hide Indexed, Distinct, Ends, Prevs, Nexts;
      DroppedIndexed(nodes, searcher, i);
      Detach(node, i);
      searcher := searcher - {node.key};
      nodes := Dropped(nodes, i);
    }

    /** The list holds the entries of the key's node at its index, if there is one. */
    lemma Found(k: K) returns (i: nat)
      requires Valid() && k in searcher
      ensures i < |nodes| && nodes[i] == searcher[k] && Contents()[i].0 == k
      ensures Lookup(Contents(), k) == Some(nodes[i].value)
      ensures Without(Contents(), k) == Dropped(Contents(), i)
    {
      i :| 0 <= i < |nodes| && nodes[i] == searcher[k];
      KeysAreDistinct();
      WithoutAt(Contents(), i);
    }

    /** `get`: the entry of the key becomes the most recent one. */
    method Get(k: K) returns (found: bool, value: Option<V>)
      requires Valid()
      modifies this, nodes
      ensures Valid() && value == Lookup(old(Contents()), k) && found == value.Some?
      ensures Contents() == After(old(Contents()), Op.Get(k))
    {
      hide Distinct, Indexed, Ends, Prevs, Nexts, Without, Lookup, Entries;
      KeysAreDistinct();
      if k !in searcher {
        return false, None;
      }
      ghost var i := Found(k);
      ghost var before := Contents();
      var node := searcher[k];
      Touch(node, i);
      value := Some(node.value);
      assert Contents() == ToFront(before, i) by {
        assert forall j :: 0 <= j < |nodes| ==> Contents()[j] == ToFront(before, i)[j];
      }
      return true, value;
    }

    /** `put`: the key is bound to the value in the most recent entry. */
    method Put(k: K, v: V)
      requires Valid()
      modifies this, nodes
      ensures Valid() && Contents() == After(old(Contents()), Op.Put(k, v))
    {
      hide Distinct, Indexed, Ends, Prevs, Nexts, Without, Lookup;
      KeysAreDistinct();
      if k in searcher {
        ghost var i := Found(k);
        var node := searcher[k];
        node.value := v;
        Touch(node, i);
        assert Contents() == [(k, v)] + Dropped(old(Contents()), i);
      } else {
        NotFound(k);
        var node := new ListNode(k, v);
        Push(node);
      }
    }

    /** `remove`: the entry of the key goes away. */
    method Remove(k: K)
      requires Valid()
      modifies this, nodes
      ensures Valid() && Contents() == After(old(Contents()), Op.Remove(k))
    {
      hide Distinct, Indexed, Ends, Prevs, Nexts, Without, Lookup;
      KeysAreDistinct();
      if k in searcher {
        ghost var i := Found(k);
        Unlink(searcher[k], i);
        assert Contents() == Dropped(old(Contents()), i);
      } else {
        NotFound(k);
      }
    }

    /** `foreach`: the entries the visitor is called with, up to and including the first one it
        answers with false. */
    method Foreach(func: (K, V) -> bool) returns (visited: seq<(K, V)>)
      requires Valid()
      ensures visited == UpTo(func, Contents())
    {
      hide Distinct, Indexed, Prevs, UpTo;
      visited := [];
      var node := front;
      ghost var c, rest := Contents(), Contents();
      while node != null
        invariant |rest| <= |c| && rest == c[|c| - |rest|..]
        invariant node == if rest == [] then null else nodes[|c| - |rest|]
        invariant UpTo(func, c) == visited + UpTo(func, rest)
        decreases |rest|
      {
        UpToStep(func, visited, rest);
        visited := visited + [(node.key, node.value)];
        if !func(node.key, node.value) {
          return;
        }
        assert nodes[|c| - |rest|].next == node.next;
        node, rest := node.next, rest[1..];
      }
      UpToStep(func, visited, rest);
    }

    /** `foreach_reverse`: the same from the tail. */
    method ForeachReverse(func: (K, V) -> bool) returns (visited: seq<(K, V)>)
      requires Valid()
      ensures visited == UpTo(func, Reverse(Contents()))
    {
      hide Distinct, Indexed, Nexts, UpTo;
      visited := [];
      var node := tail;
      ghost var c, rest := Contents(), Contents();
      while node != null
        invariant |rest| <= |c| && rest == c[..|rest|]
        invariant node == if rest == [] then null else nodes[|rest| - 1]
        invariant UpTo(func, Reverse(c)) == visited + UpTo(func, Reverse(rest))
        decreases |rest|
      {
        UpToStep(func, visited, Reverse(rest));
        visited := visited + [(node.key, node.value)];
        if !func(node.key, node.value) {
          return;
        }
        assert nodes[|rest| - 1].prev == node.prev;
        node, rest := node.prev, rest[..|rest| - 1];
      }
      UpToStep(func, visited, Reverse(rest));
    }
  }

  lemma UpToStep<K, V>(func: (K, V) -> bool, visited: seq<(K, V)>, c: seq<(K, V)>)
    ensures c == [] ==> visited + UpTo(func, c) == visited
    ensures c != [] ==>
      visited + UpTo(func, c) == visited + [c[0]] + (if func(c[0].0, c[0].1) then UpTo(func, c[1..]) else [])
  {
  }

  function Reverse<T>(s: seq<T>): seq<T> {
    if s == [] then [] else [s[|s| - 1]] + Reverse(s[..|s| - 1])
  }

  lemma {:induction false} ReverseAt<T>(s: seq<T>, i: nat)
    requires i < |s|
    ensures |Reverse(s)| == |s| && Reverse(s)[i] == s[|s| - 1 - i]
  {
    var n := |s| - 1;
    if n > 0 {
      ReverseAt(s[..n], if i > 0 then i - 1 else 0);
    }
  }

  /** The visitor is called with the entries up to the first that it refuses, or all of them. */
  lemma {:induction false} UpToFirstRefused<K, V>(func: (K, V) -> bool, c: seq<(K, V)>)
    ensures var v := UpTo(func, c);
      && |v| <= |c| && v == c[..|v|]
      && (forall i :: 0 <= i < |v| - 1 ==> func(v[i].0, v[i].1))
      && (v != c ==> v != [] && !func(v[|v| - 1].0, v[|v| - 1].1))
  {
    if c != [] && func(c[0].0, c[0].1) {
      UpToFirstRefused(func, c[1..]);
      var rest := UpTo(func, c[1..]);
      assert c == [c[0]] + c[1..];
      assert forall i :: 0 < i < |rest| + 1 ==> ([c[0]] + rest)[i] == rest[i - 1];
    }
  }

  function UpTo<K, V>(func: (K, V) -> bool, c: seq<(K, V)>): seq<(K, V)> {
    if c == [] then []
    else if !func(c[0].0, c[0].1) then [c[0]]
    else [c[0]] + UpTo(func, c[1..])
  }

  // ----- What a history of operations makes of the cache

  datatype Op<K, V> = Get(k: K) | Put(k: K, v: V) | Remove(k: K)

  /** The contents after one operation, as the contracts of the methods state them. */
  function After<K(==), V>(c: seq<(K, V)>, op: Op<K, V>): seq<(K, V)> {
    match op
    case Get(k) => if Lookup(c, k).Some? then [(k, Lookup(c, k).value)] + Without(c, k) else c
    case Put(k, v) => [(k, v)] + Without(c, k)
    case Remove(k) => Without(c, k)
  }

  function Run<K(==), V>(ops: seq<Op<K, V>>): seq<(K, V)> {
    if ops == [] then [] else After(Run(ops[..|ops| - 1]), ops[|ops| - 1])
  }

  /** The value last put under the key and not removed since. */
  function LastPut<K(==), V>(ops: seq<Op<K, V>>, k: K): Option<V> {
    if ops == [] then None
    else
      match ops[|ops| - 1]
      case Put(k', v) => if k' == k then Some(v) else LastPut(ops[..|ops| - 1], k)
      case Remove(k') => if k' == k then None else LastPut(ops[..|ops| - 1], k)
      case Get(_) => LastPut(ops[..|ops| - 1], k)
  }

  /** The number of operations up to the last get or put of the key. */
  function LastUse<K(==), V>(ops: seq<Op<K, V>>, k: K): nat {
    if ops == [] then 0
    else if !ops[|ops| - 1].Remove? && ops[|ops| - 1].k == k then |ops|
    else LastUse(ops[..|ops| - 1], k)
  }

  lemma {:induction false} WithoutKeeps<K, V>(c: seq<(K, V)>, k: K)
    ensures forall j <- Without(c, k) :: j in c && j.0 != k
    ensures DistinctKeys(c) ==> DistinctKeys(Without(c, k))
    ensures forall x: K {:trigger Lookup(Without(c, k), x)} ::
      Lookup(Without(c, k), x) == if x == k then None else Lookup(c, x)
  {
    if c != [] {
      WithoutKeeps(c[1..], k);
      assert forall i :: 0 <= i < |c| - 1 ==> c[1..][i] == c[i + 1];
      assert forall j <- c[1..] :: j in c;
      if DistinctKeys(c) {
        forall j <- Without(c[1..], k) ensures j.0 != c[0].0 {
          var i :| 0 <= i < |c| - 1 && c[1..][i] == j;
          assert c[i + 1] == j;
        }
      }
      if c[0].0 != k {
        var rest := Without(c[1..], k);
        assert Without(c, k) == [c[0]] + rest && ([c[0]] + rest)[1..] == rest;
      }
    }
  }

  /** The entries are in order of last use. */
  ghost predicate ByRecency<K, V>(ops: seq<Op<K, V>>, c: seq<(K, V)>) {
    forall i, j :: 0 <= i < j < |c| ==> LastUse(ops, c[i].0) > LastUse(ops, c[j].0)
  }

  lemma {:induction false} WithoutOrdered<K, V>(ops: seq<Op<K, V>>, c: seq<(K, V)>, k: K)
    requires ByRecency(ops, c)
    ensures ByRecency(ops, Without(c, k))
  {
    if c != [] {
      assert forall i :: 0 <= i < |c| - 1 ==> c[1..][i] == c[i + 1];
      WithoutOrdered(ops, c[1..], k);
      WithoutKeeps(c[1..], k);
      if c[0].0 != k {
        var rest := Without(c[1..], k);
        forall j | 0 <= j < |rest| ensures LastUse(ops, c[0].0) > LastUse(ops, rest[j].0) {
          assert rest[j] in rest;
          var i :| 0 <= i < |c| - 1 && c[1..][i] == rest[j];
          assert c[i + 1] == rest[j];
        }
      }
    }
  }

  lemma {:induction false} LastUseBound<K, V>(ops: seq<Op<K, V>>, k: K)
    ensures LastUse(ops, k) <= |ops|
  {
    if ops != [] {
      LastUseBound(ops[..|ops| - 1], k);
    }
  }

  /** One more operation keeps the entries in order. */
  lemma AfterOrdered<K, V>(ops: seq<Op<K, V>>, c: seq<(K, V)>)
    requires ops != [] && ByRecency(ops[..|ops| - 1], c) && DistinctKeys(c)
    ensures ByRecency(ops, After(c, ops[|ops| - 1]))
  {
    var before, op := ops[..|ops| - 1], ops[|ops| - 1];
    WithoutKeeps(c, op.k);
    WithoutOrdered(before, c, op.k);
    var rest, c' := Without(c, op.k), After(c, op);
    if op.Get? && Lookup(c, op.k).None? {
      LookupNone(c, op.k);
      assert forall i :: 0 <= i < |c| ==> LastUse(ops, c[i].0) == LastUse(before, c[i].0);
    } else {
      forall i | 0 <= i < |rest|
        ensures LastUse(ops, rest[i].0) == LastUse(before, rest[i].0) < |ops|
      {
        assert rest[i] in rest;
        LastUseBound(before, rest[i].0);
      }
    }
  }

  lemma {:induction false} LookupNone<K, V>(c: seq<(K, V)>, k: K)
    requires Lookup(c, k).None?
    ensures forall i :: 0 <= i < |c| ==> c[i].0 != k
  {
    if c != [] {
      LookupNone(c[1..], k);
      assert forall i :: 1 <= i < |c| ==> c[i] == c[1..][i - 1];
    }
  }

  /** After any history: one entry a key, `get` finds the value last put and not removed, and the
      list reads from the most recently to the least recently used key. */
  lemma {:induction false} CacheHistory<K, V>(ops: seq<Op<K, V>>, k: K)
    ensures DistinctKeys(Run(ops))
    ensures Lookup(Run(ops), k) == LastPut(ops, k)
    ensures ByRecency(ops, Run(ops))
    decreases |ops|
  {
    if ops != [] {
      var before, op := ops[..|ops| - 1], ops[|ops| - 1];
      CacheHistory(before, k);
      WithoutKeeps(Run(before), op.k);
      AfterOrdered(ops, Run(before));
      hide ByRecency, LastUse, Without;
      ConsDistinct(op.k, Without(Run(before), op.k));
    }
  }

  lemma ConsDistinct<K, V>(k: K, rest: seq<(K, V)>)
    requires DistinctKeys(rest) && forall e <- rest :: e.0 != k
    ensures forall v: V {:trigger (k, v)} ::
      DistinctKeys([(k, v)] + rest) && ([(k, v)] + rest)[1..] == rest
  {
    assert forall i :: 0 <= i < |rest| ==> rest[i] in rest;
  }
}
