/** The append-only singly linked list of src/linked_list.c.

    The heap is an arena: `nodes[i]` is the node at address `i`, and a
    pointer is an `Option<nat>` index into it (`None` is NULL).  A list
    holds its `head`, `tail` and `size` fields; its abstract contents are
    the data met walking the `next` pointers from `head`. */
module LinkedList {
  import opened Base

  /** A node: the stored datum and the `next` pointer. */
  datatype Node<T> = Node(data: T, next: Option<nat>)

  /** The list header over the arena `nodes`. */
  datatype List<T> = List(nodes: seq<Node<T>>, head: Option<nat>, tail: Option<nat>, size: nat)

  /** The addresses visited walking exactly `n` nodes from `cur`, provided
      the walk stays in the arena and the `n`-th node has a NULL `next`. */
  function Chain<T>(nodes: seq<Node<T>>, cur: Option<nat>, n: nat): (r: Option<seq<nat>>)
    ensures r.Some? ==> |r.value| == n
    ensures r.Some? ==> forall j :: 0 <= j < n ==> r.value[j] < |nodes|
    ensures r.Some? && n > 0 ==> cur == Some(r.value[0]) && nodes[r.value[n - 1]].next.None?
    ensures r.Some? && n == 0 ==> cur.None?
    decreases n
  {
    match cur
    case None => if n == 0 then Some([]) else None
    case Some(i) =>
      if n == 0 || i >= |nodes| then None
      else match Chain(nodes, nodes[i].next, n - 1)
        case None => None
        case Some(rest) => Some([i] + rest)
  }

  /** The list invariant: `size` nodes are reachable from `head`, the last
      of them ends the chain, and `tail` points at it. */
  predicate Valid<T>(l: List<T>) {
    match Chain(l.nodes, l.head, l.size)
    case None => false
    case Some(addrs) => l.tail == (if l.size == 0 then None else Some(addrs[l.size - 1]))
  }

  /** The data stored at the given addresses, in order. */
  function Data<T>(nodes: seq<Node<T>>, addrs: seq<nat>): (d: seq<T>)
    requires forall j :: 0 <= j < |addrs| ==> addrs[j] < |nodes|
    ensures |d| == |addrs|
    ensures forall j :: 0 <= j < |addrs| ==> d[j] == nodes[addrs[j]].data
  {
    seq(|addrs|, j requires 0 <= j < |addrs| => nodes[addrs[j]].data)
  }

  /** The abstract contents of a valid list. */
  function Contents<T>(l: List<T>): (s: seq<T>)
    requires Valid(l)
    ensures |s| == l.size
  {
    Data(l.nodes, Chain(l.nodes, l.head, l.size).value)
  }

  /** head is NULL iff tail is NULL iff size is 0. */
  predicate EndsAgree<T>(l: List<T>) {
    && (l.head.None? <==> l.tail.None?)
    && (l.head.None? <==> l.size == 0)
  }

  /** Every valid list satisfies the head/tail/size agreement. */
  lemma ValidEndsAgree<T>(l: List<T>)
    requires Valid(l)
    ensures EndsAgree(l)
  {
    var addrs := Chain(l.nodes, l.head, l.size).value;
    if l.size > 0 {
      assert l.head == Some(addrs[0]);
    }
  }

  /** `linked_list_create`: an empty list with NULL ends and size 0. */
  function Create<T>(): (l: List<T>)
    ensures Valid(l) && EndsAgree(l)
    ensures Contents(l) == []
  {
    List([], None, None, 0)
  }

  /** `linked_list_append`: a fresh node holding `x` becomes the tail. */
  function Append<T>(l: List<T>, x: T): (l': List<T>)
    requires Valid(l)
    ensures Valid(l') && EndsAgree(l')
    // the contents grow by exactly `x` at the end; nothing else moves
    ensures Contents(l') == Contents(l) + [x]
    ensures l'.size == l.size + 1
    // the new node is the tail and ends the chain
    ensures l'.tail.Some? && l'.tail.value < |l'.nodes|
    ensures l'.nodes[l'.tail.value] == Node(x, None)
    // head moves only when the list was empty, and then head == tail
    ensures l.size > 0 ==> l'.head == l.head
    ensures l.size == 0 ==> l'.head == l'.tail
  {
    ValidEndsAgree(l);
    AppendPreservesChain(l, x);
    var k := |l.nodes|;
    List(Linked(l.nodes, l.tail, x), if l.size == 0 then Some(k) else l.head, Some(k), l.size + 1)
  }

  /** The arena after `Append` has linked a fresh node holding `x`. */
  function Linked<T>(nodes: seq<Node<T>>, tail: Option<nat>, x: T): (nodes': seq<Node<T>>)
    requires tail.Some? ==> tail.value < |nodes|
  {
    match tail
    case None => nodes + [Node(x, None)]
    case Some(t) => nodes[t := nodes[t].(next := Some(|nodes|))] + [Node(x, None)]
  }

  /** Linking a fresh node after the last node of a chain extends the chain
      by that node and keeps every earlier node's datum. */
  lemma {:induction false} ChainExtend<T>(nodes: seq<Node<T>>, cur: Option<nat>, n: nat, x: T)
    requires n > 0 && Chain(nodes, cur, n).Some?
    ensures var addrs := Chain(nodes, cur, n).value;
            var nodes' := Linked(nodes, Some(addrs[n - 1]), x);
            && Chain(nodes', cur, n + 1) == Some(addrs + [|nodes|])
            && Data(nodes', addrs + [|nodes|]) == Data(nodes, addrs) + [x]
    decreases n
  {
    var addrs := Chain(nodes, cur, n).value;
    var t := addrs[n - 1];
    var k := |nodes|;
    var nodes' := Linked(nodes, Some(t), x);
    var i := cur.value;
    assert nodes'[k] == Node(x, None);
    ChainOne(nodes', k);
    if n == 1 {
      assert i == t;
      assert addrs == [i];
      var r := Chain(nodes', Some(i), 2);
      assert r.Some?;
      assert r.value == [i] + [k];
    } else {
      var rest := Chain(nodes, nodes[i].next, n - 1).value;
      assert addrs == [i] + rest;
      assert i != t;
      assert rest[n - 2] == t;
      ChainExtend(nodes, nodes[i].next, n - 1, x);
      assert nodes'[i] == nodes[i];
      assert Chain(nodes', cur, n + 1) == Some([i] + (rest + [k]));
      assert [i] + (rest + [k]) == addrs + [k];
    }
    var d' := Data(nodes', addrs + [k]);
    var d := Data(nodes, addrs) + [x];
    assert |d'| == |d|;
    forall j | 0 <= j < |d| ensures d'[j] == d[j] {
      if j < n {
        assert nodes'[addrs[j]].data == nodes[addrs[j]].data;
      }
    }
  }

  /** A one-node chain. */
  lemma ChainOne<T>(nodes: seq<Node<T>>, k: nat)
    requires k < |nodes| && nodes[k].next.None?
    ensures Chain(nodes, Some(k), 1) == Some([k])
  {
    assert Chain(nodes, None, 0) == Some([]);
    var r := Chain(nodes, Some(k), 1);
    assert r.Some?;
    assert r.value == [k] + [];
    assert [k] + [] == [k];
  }

  /** The chain part of `Append`'s contract. */
  lemma AppendPreservesChain<T>(l: List<T>, x: T)
    requires Valid(l)
    ensures l.tail.Some? ==> l.tail.value < |l.nodes|
    ensures var k := |l.nodes|;
            var nodes' := Linked(l.nodes, l.tail, x);
            var head' := if l.size == 0 then Some(k) else l.head;
            && Chain(nodes', head', l.size + 1).Some?
            && Chain(nodes', head', l.size + 1).value == Chain(l.nodes, l.head, l.size).value + [k]
            && Data(nodes', Chain(nodes', head', l.size + 1).value)
               == Data(l.nodes, Chain(l.nodes, l.head, l.size).value) + [x]
  {
    var k := |l.nodes|;
    if l.size == 0 {
      var nodes' := Linked(l.nodes, l.tail, x);
      assert nodes'[k] == Node(x, None);
      ChainOne(nodes', k);
      assert Chain(l.nodes, l.head, 0).value == [];
    } else {
      ChainExtend(l.nodes, l.head, l.size, x);
    }
  }
}
