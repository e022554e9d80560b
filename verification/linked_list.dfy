/** What ListDemo.c does to the list of its values, without the heap. */
module ListSpec {
  import opened Sequences

  /** The sentinel's data; a stored -1 cannot be found, printed or deleted. */
  const SENTINEL := -1

  function Insert(s: seq<int>, value: int): seq<int> {
    s + [value]
  }

  /** The position of the last occurrence, or -1. */
  function LastIndex(s: seq<int>, value: int): (k: int)
    ensures -1 <= k < |s|
    ensures k >= 0 ==> s[k] == value
    ensures forall i :: k < i < |s| ==> s[i] != value
  {
    if s == [] then -1
    else if s[|s| - 1] == value then |s| - 1
    else LastIndex(s[..|s| - 1], value)
  }

  predicate Found(s: seq<int>, value: int) {
    value != SENTINEL && LastIndex(s, value) >= 0
  }

  /** What `search` looks for. */
  lemma FoundMeansMember(s: seq<int>, value: int)
    ensures Found(s, value) <==> value != -1 && value in s
  {
  }

  function Delete(s: seq<int>, value: int): seq<int> {
    var k := LastIndex(s, value);
    if Found(s, value) then s[..k] + s[k + 1..] else s
  }

  /** The values `printList` prints, from the tail back. */
  function Printed(s: seq<int>): seq<int> {
    if s == [] then []
    else (if s[|s| - 1] != SENTINEL then [s[|s| - 1]] else []) + Printed(s[..|s| - 1])
  }

  /** What is printed already, and what is still to come from the first k values. */
  ghost predicate PrintedUpTo(printed: seq<int>, s: seq<int>, k: nat)
    requires k <= |s|
  {
    printed + Printed(s[..k]) == Printed(s)
  }

  lemma PrintOneMore(printed: seq<int>, s: seq<int>, k: nat)
    requires 0 < k <= |s| && PrintedUpTo(printed, s, k)
    ensures PrintedUpTo(if s[k - 1] != SENTINEL then printed + [s[k - 1]] else printed, s, k - 1)
  {
    assert s[..k][..k - 1] == s[..k - 1];
  }

  // ---------------------------------------------------------------- laws

  lemma LastIndexUnique(s: seq<int>, value: int, k: nat)
    requires k < |s| && s[k] == value && forall i :: k < i < |s| ==> s[i] != value
    ensures LastIndex(s, value) == k
  {
  }

  /** Deleting takes out one occurrence, namely the last one, and leaves everything else in place. */
  lemma DeleteRemovesLast(a: seq<int>, value: int, b: seq<int>)
    requires value != -1 && value !in b
    ensures Delete(a + [value] + b, value) == a + b
  {
    var s := a + [value] + b;
    forall i | |a| < i < |s| ensures s[i] != value {
      assert s[i] == b[i - |a| - 1];
    }
    LastIndexUnique(s, value, |a|);
    assert s[..|a|] == a && s[|a| + 1..] == b;
  }

  /** A delete undoes the insert of the same value exactly when the value is not the sentinel's. */
  lemma InsertThenDelete(s: seq<int>, value: int)
    ensures Delete(Insert(s, value), value) == s <==> value != -1
  {
    if value != SENTINEL {
      DeleteRemovesLast(s, value, []);
      assert s + [value] + [] == Insert(s, value);
      assert s + [] == s;
    } else {
      assert |Insert(s, value)| != |s|;
    }
  }

  /** Inserting and deleting different values can be exchanged. */
  lemma InsertDeleteCommute(s: seq<int>, w: int, v: int)
    requires v != w
    ensures Delete(Insert(s, w), v) == Insert(Delete(s, v), w)
  {
    if Found(s, v) {
      var k := LastIndex(s, v);
      assert s == s[..k] + [v] + s[k + 1..];
      DeleteRemovesLast(s[..k], v, s[k + 1..] + [w]);
      assert Insert(s, w) == s[..k] + [v] + (s[k + 1..] + [w]);
      assert Insert(Delete(s, v), w) == s[..k] + (s[k + 1..] + [w]);
    }
  }

  /** Deletes can be exchanged, whatever their values. */
  lemma {:induction false} DeletesCommute(s: seq<int>, v: int, w: int)
    ensures Delete(Delete(s, v), w) == Delete(Delete(s, w), v)
  {
    if s != [] && v != w {
      var t := s[..|s| - 1];
      var x := s[|s| - 1];
      assert s == Insert(t, x);
      DeletesCommute(t, v, w);
      if x == v && v != SENTINEL {
        InsertThenDelete(t, v);
        InsertDeleteCommute(t, v, w);
        InsertThenDelete(Delete(t, w), v);
      } else if x == w && w != SENTINEL {
        InsertThenDelete(t, w);
        InsertDeleteCommute(t, w, v);
        InsertThenDelete(Delete(t, v), w);
      } else {
        DeleteEarlier(t, x, v);
        DeleteEarlier(t, x, w);
        DeleteEarlier(Delete(t, v), x, w);
        DeleteEarlier(Delete(t, w), x, v);
      }
    }
  }

  lemma DeleteEarlier(t: seq<int>, x: int, v: int)
    requires x != v || v == SENTINEL
    ensures Delete(Insert(t, x), v) == Insert(Delete(t, v), x)
  {
    if x != v {
      InsertDeleteCommute(t, x, v);
    }
  }

  lemma DeleteCounts(s: seq<int>, value: int)
    ensures multiset(Delete(s, value)) ==
            multiset(s) - (if Found(s, value) then multiset{value} else multiset{})
  {
    if Found(s, value) {
      var k := LastIndex(s, value);
      assert s == s[..k] + [s[k]] + s[k + 1..];
    }
  }

  /** The list without its -1 entries. */
  function WithoutSentinels(s: seq<int>): seq<int> {
    if s == [] then []
    else (if s[0] != -1 then [s[0]] else []) + WithoutSentinels(s[1..])
  }

  lemma {:induction false} WithoutSentinelsConcat(a: seq<int>, b: seq<int>)
    ensures WithoutSentinels(a + b) == WithoutSentinels(a) + WithoutSentinels(b)
  {
    if a == [] {
      assert a + b == b;
    } else {
      assert (a + b)[1..] == a[1..] + b;
      WithoutSentinelsConcat(a[1..], b);
    }
  }

  /** `printList` prints the list backwards, without its -1 entries. */
  lemma {:induction false} PrintedIsReverse(s: seq<int>)
    ensures Printed(s) == Reverse(WithoutSentinels(s))
  {
    if s != [] {
      var t := s[..|s| - 1];
      var x := s[|s| - 1];
      assert s == t + [x];
      WithoutSentinelsConcat(t, [x]);
      assert [x][1..] == [];
      PrintedIsReverse(t);
    }
  }
}

/** The doubly linked list of ListDemo.c: a sentinel, a global tail pointer, links both ways. */
module LinkedList {
  import opened ListSpec

  class Node {
    var data: int
    var prev: Node?
    var next: Node?

    constructor () {
    }
  }

  class List {
    var head: Node
    var currentNode: Node
    ghost var nodes: seq<Node>  // from the sentinel to the tail

    ghost predicate Valid()
      reads this, nodes
    {
      && |nodes| > 0
      && nodes[0] == head && nodes[|nodes| - 1] == currentNode
      && head.data == SENTINEL
      && (forall i, j :: 0 <= i < j < |nodes| ==> nodes[i] != nodes[j])
      && nodes[0].prev == null
      && (forall i {:trigger nodes[i].prev} :: 1 <= i < |nodes| ==> nodes[i].prev == nodes[i - 1])
      && (forall i {:trigger nodes[i].next} :: 0 <= i < |nodes| - 1 ==> nodes[i].next == nodes[i + 1])
      && nodes[|nodes| - 1].next == null
    }

    /** The values in the list, oldest first. */
    ghost function Contents(): (s: seq<int>)
      requires Valid()
      reads this, nodes
      ensures |s| == |nodes| - 1
    {
      seq(|nodes| - 1, i requires 0 <= i < |nodes| - 1 reads this, nodes => nodes[i + 1].data)
    }

    /** `initilizeList` */
    constructor ()
      ensures Valid() && Contents() == [] && fresh(nodes)
    {
      head := new Node();
      currentNode := head;
      nodes := [head];
      new;
      head.data := SENTINEL;
      head.prev := null;
      head.next := null;
    }

    /** `insert`: the new node goes behind the tail. */
    method Insert(value: int)
      requires Valid()
      modifies this, nodes
      ensures Valid() && Contents() == ListSpec.Insert(old(Contents()), value)
      ensures head == old(head)
      ensures nodes == old(nodes) + [currentNode] && fresh(currentNode)
    {
      var newNode := new Node();
      currentNode.next := newNode;
      newNode.prev := currentNode;
      newNode.data := value;
      newNode.next := null;
      currentNode := newNode;
      nodes := nodes + [newNode];
    }

    /** `search`: the node of the last occurrence; never the sentinel. */
    method Search(value: int) returns (r: Node?)
      requires Valid()
      ensures r == null <==> !Found(Contents(), value)
      ensures r != null ==> r == nodes[LastIndex(Contents(), value) + 1] && r != head && r.prev != null
    {
      var latest: Node? := currentNode;
      ghost var k := |nodes| - 1;
      while latest != null
        invariant -1 <= k < |nodes|
        invariant latest == if k == -1 then null else nodes[k]
        invariant value != SENTINEL ==> forall i :: k < i < |nodes| ==> nodes[i].data != value
        decreases k
      {
        if latest.data != SENTINEL && latest.data == value {
          LastIndexUnique(Contents(), value, k - 1);
          return latest;
        }
        latest := latest.prev;
        k := k - 1;
      }
      return null;
    }

    /** `deleteNode`: unlinks the last occurrence; the result is the node it frees. */
    method DeleteNode(value: int) returns (freed: Node?)
      requires Valid()
      modifies this, nodes
      ensures Valid() && Contents() == Delete(old(Contents()), value)
      ensures head == old(head)
      ensures freed == null <==> !Found(old(Contents()), value)
      ensures freed == null ==> nodes == old(nodes)
      ensures freed != null ==>
                var k := LastIndex(old(Contents()), value) + 1;
                freed == old(nodes)[k] && nodes == old(nodes)[..k] + old(nodes)[k + 1..] && freed !in nodes
    {
      freed := Search(value);
      if freed != null {
        if freed.prev != null {
          Unlink(freed, LastIndex(Contents(), value) + 1);
        } else {
          assert false;  // only the sentinel has no predecessor, and `search` never returns it
        }
      }
    }

    /** The relinking inside `deleteNode`. */
    method Unlink(node: Node, ghost k: nat)
      requires Valid() && 1 <= k < |nodes| && node == nodes[k]
      modifies this, nodes[k - 1], nodes[if k + 1 < |nodes| then k + 1 else k]
      ensures Valid() && nodes == old(nodes)[..k] + old(nodes)[k + 1..]
      ensures Contents() == old(Contents())[..k - 1] + old(Contents())[k..]
      ensures head == old(head)
    {
      ghost var was, values := nodes, Contents();
      var nodeAfter := node.next;
      var nodeBefore := node.prev;
      assert nodeBefore == was[k - 1] && nodeAfter == if k + 1 < |was| then was[k + 1] else null;
      nodeBefore.next := nodeAfter;
      if nodeAfter != null {
        nodeAfter.prev := nodeBefore;
      } else {
        currentNode := nodeBefore;
      }
      nodes := nodes[..k] + nodes[k + 1..];
      assert forall i :: 0 <= i < |nodes| ==> nodes[i] == if i < k then was[i] else was[i + 1];
      assert forall i {:trigger nodes[i].prev} :: 1 <= i < |nodes| ==> nodes[i].prev == nodes[i - 1];
      assert forall i {:trigger nodes[i].next} :: 0 <= i < |nodes| - 1 ==> nodes[i].next == nodes[i + 1];
      ContentsWithout(was, k, values);
    }

    /** The values of the nodes that are left. */
    lemma ContentsWithout(was: seq<Node>, k: nat, values: seq<int>)
      requires Valid() && 1 <= k < |was| && nodes == was[..k] + was[k + 1..]
      requires |values| == |was| - 1 && forall i :: 0 <= i < |values| ==> values[i] == was[i + 1].data
      ensures Contents() == values[..k - 1] + values[k..]
    {
    }

    /** `printList`, with the printed values as its result. */
    method PrintList() returns (printed: seq<int>)
      requires Valid()
      ensures printed == Printed(Contents())
    {
      printed := [];
      var node: Node? := currentNode;
      ghost var k := |nodes| - 1;
      ghost var values := Contents();
      assert values[..|values|] == values;
      while node != null
        invariant -1 <= k < |nodes|
        invariant node == if k == -1 then null else nodes[k]
        invariant PrintedUpTo(printed, values, if k > 0 then k else 0)
        decreases k
      {
        if k > 0 {
          assert node.data == values[k - 1];
          PrintOneMore(printed, values, k);
        }
        if node.data != SENTINEL {
          printed := printed + [node.data];
        }
        node := node.prev;
        k := k - 1;
      }
    }
  }

  // ---------------------------------------------------------------- whole programs

  datatype Op = Ins(value: int) | Del(value: int)

  function Effect(s: seq<int>, ops: seq<Op>): seq<int>
    decreases ops
  {
    if ops == [] then s
    else Effect(match ops[0] case Ins(v) => ListSpec.Insert(s, v) case Del(v) => Delete(s, v), ops[1..])
  }

  /** The calls take effect one after the other: an insert appends, a delete deletes. */
  lemma EffectGrows(s: seq<int>, ops: seq<Op>, v: int)
    ensures Effect(s, []) == s
    ensures Effect(s, ops + [Ins(v)]) == Effect(s, ops) + [v]
    ensures Effect(s, ops + [Del(v)]) == Delete(Effect(s, ops), v)
  {
    EffectSplit(s, ops, [Ins(v)]);
    EffectSplit(s, ops, [Del(v)]);
    assert [Ins(v)][1..] == [] && [Del(v)][1..] == [];
  }

  function Inserts(ops: seq<Op>): nat {
    if ops == [] then 0 else Inserts(ops[..|ops| - 1]) + if ops[|ops| - 1].Ins? then 1 else 0
  }

  /** The freed nodes are out of the chain, and none was freed twice. */
  ghost predicate FreedOnce(freed: seq<Node>, nodes: seq<Node>) {
    && (forall i, j :: 0 <= i < j < |freed| ==> freed[i] != freed[j])
    && (forall i :: 0 <= i < |freed| ==> freed[i] !in nodes)
  }

  lemma FreedOneMore(freed: seq<Node>, nodes: seq<Node>, k: nat)
    requires FreedOnce(freed, nodes) && k < |nodes|
    requires forall i, j :: 0 <= i < j < |nodes| ==> nodes[i] != nodes[j]
    ensures FreedOnce(freed + [nodes[k]], nodes[..k] + nodes[k + 1..])
  {
  }

  /** One call of the program. */
  method Call(list: List, op: Op, freed0: seq<Node>) returns (freed: seq<Node>)
    requires list.Valid() && FreedOnce(freed0, list.nodes)
    modifies list, list.nodes
    ensures list.Valid() && FreedOnce(freed, list.nodes)
    ensures list.Contents() == Effect(old(list.Contents()), [op])
    ensures |list.nodes| + |freed| == old(|list.nodes|) + |freed0| + if op.Ins? then 1 else 0
    ensures forall i :: 0 <= i < |list.nodes| ==> list.nodes[i] in old(list.nodes) || fresh(list.nodes[i])
  {
    freed := freed0;
    assert [op][1..] == [];
    match op
    case Ins(v) =>
      list.Insert(v);
    case Del(v) =>
      var node := list.DeleteNode(v);
      if node != null {
        FreedOneMore(freed, old(list.nodes), LastIndex(old(list.Contents()), v) + 1);
        freed := freed + [node];
      }
  }

  lemma {:induction false} EffectSplit(s: seq<int>, a: seq<Op>, b: seq<Op>)
    ensures Effect(s, a + b) == Effect(Effect(s, a), b)
    decreases a
  {
    if a == [] {
      assert a + b == b;
    } else {
      assert (a + b)[1..] == a[1..] + b;
      EffectSplit(match a[0] case Ins(v) => ListSpec.Insert(s, v) case Del(v) => Delete(s, v), a[1..], b);
    }
  }

  lemma OneMoreCall(ops: seq<Op>, i: nat)
    requires i < |ops|
    ensures Effect([], ops[..i + 1]) == Effect(Effect([], ops[..i]), [ops[i]])
    ensures Inserts(ops[..i + 1]) == Inserts(ops[..i]) + if ops[i].Ins? then 1 else 0
  {
    EffectSplit([], ops[..i], [ops[i]]);
    assert ops[..i + 1] == ops[..i] + [ops[i]];
  }

  /**
   Any sequence of calls after `initilizeList` leaves a chain that holds what the calls say.  The nodes it has freed
   are no longer in the chain, none was freed twice, and every inserted node is in one of the two places.
   */
  method RunProgram(ops: seq<Op>) returns (list: List, freed: seq<Node>)
    ensures fresh(list) && list.Valid() && list.Contents() == Effect([], ops)
    ensures FreedOnce(freed, list.nodes) && |list.nodes| - 1 + |freed| == Inserts(ops)
  {
    list := new List();
    freed := [];
    for i := 0 to |ops|
      invariant fresh(list) && fresh(list.nodes) && list.Valid()
      invariant list.Contents() == Effect([], ops[..i])
      invariant FreedOnce(freed, list.nodes) && |list.nodes| - 1 + |freed| == Inserts(ops[..i])
    {
      OneMoreCall(ops, i);
      freed := Call(list, ops[i], freed);
    }
    assert ops[..|ops|] == ops;
  }
}
