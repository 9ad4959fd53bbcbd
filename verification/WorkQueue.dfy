/** The singly linked work queue of the thread pool, appended to by walking to its last node. */
module WorkQueue {

  class Node<T> {
    const work: T
    var next: Node?<T>

    constructor (work: T)
      ensures this.work == work && next == null
    {
      this.work := work;
      next := null;
    }
  }

  /** What the link of node i must be. */
  ghost function NextOf<T>(nodes: seq<Node<T>>, i: nat): Node?<T>
    requires i < |nodes|
  {
    if i + 1 < |nodes| then nodes[i + 1] else null
  }

  ghost function WorksOf<T>(nodes: seq<Node<T>>): (works: seq<T>)
    ensures |works| == |nodes|
    ensures forall i :: 0 <= i < |nodes| ==> works[i] == nodes[i].work
  {
    seq(|nodes|, i requires 0 <= i < |nodes| => nodes[i].work)
  }

  class Queue<T> {
    var head: Node?<T>
    ghost var nodes: seq<Node<T>>

    /** The nodes are exactly the ones reached from head, without repetition. */
    ghost predicate Valid()
      reads this, nodes
    {
      && head == (if nodes == [] then null else nodes[0])
      && (forall i :: 0 <= i < |nodes| ==> nodes[i].next == NextOf(nodes, i))
      && (forall i, j :: 0 <= i < j < |nodes| ==> nodes[i] != nodes[j])
    }

    ghost function Works(): seq<T>
      reads this
    {
      WorksOf(nodes)
    }

    constructor ()
      ensures Valid() && Works() == []
    {
      head := null;
      nodes := [];
    }

    /** The locked part of add_task_2_tpool. */
    method Append(work: T)
      requires Valid()
      modifies this, nodes
      ensures Valid() && Works() == old(Works()) + [work]
      ensures |nodes| == |old(nodes)| + 1 && nodes[..|old(nodes)|] == old(nodes) && fresh(nodes[|old(nodes)|])
    {
      var node := new Node<T>(work);
      var last := head;
      if last == null {
        head := node;
        nodes := [node];
      } else {
        ghost var k := 0;
        while last.next != null
          invariant 0 <= k < |nodes| && last == nodes[k]
          decreases |nodes| - k
        {
          last := last.next;
          k := k + 1;
        }
        assert k == |nodes| - 1;
        last.next := node;
        nodes := nodes + [node];
      }
    }

    /** The locked part of a worker, and one round of the discarding loop of destroy_tpool. */
    method Take() returns (work: T)
      requires Valid() && head != null
      modifies this
      ensures Valid() && [work] + Works() == old(Works())
      ensures nodes == old(nodes)[1..]
    {
      work := head.work;
      head := head.next;
      nodes := nodes[1..];
    }
  }

  lemma TakenFirst<T>(w: T, rest: seq<T>, works: seq<T>, i: nat)
    requires i < |works| && [w] + rest == works[i..]
    ensures rest == works[i + 1..] && works[..i] + [w] == works[..i + 1]
  {
    assert works[i..][0] == works[i] && works[i..][1..] == works[i + 1..];
    assert ([w] + rest)[1..] == rest;
  }

  method AppendAll<T>(q: Queue<T>, works: seq<T>)
    requires q.Valid() && q.Works() == []
    modifies q, q.nodes
    ensures q.Valid() && q.Works() == works && fresh(q.nodes)
  {
    for i := 0 to |works|
      invariant q.Valid() && q.Works() == works[..i]
      invariant fresh(q.nodes)
    {
      q.Append(works[i]);
      assert works[..i] + [works[i]] == works[..i + 1];
    }
    assert works[..|works|] == works;
  }

  method TakeAll<T>(q: Queue<T>, ghost works: seq<T>) returns (taken: seq<T>)
    requires q.Valid() && q.Works() == works
    modifies q
    ensures taken == works && q.Valid() && q.Works() == []
  {
    taken := [];
    ghost var i: nat := 0;
    assert works[0..] == works;
    while q.head != null
      invariant i <= |works| && q.Valid() && taken == works[..i] && q.Works() == works[i..]
      decreases |works| - i
    {
      assert |q.Works()| == |q.nodes|;
      var w := q.Take();
      TakenFirst(w, q.Works(), works, i);
      taken := taken + [w];
      i := i + 1;
    }
    assert |q.Works()| == |q.nodes| == 0;
    assert i == |works|;
  }

  /** Work comes out in the order in which it went in. */
  method InOrder<T>(q: Queue<T>, works: seq<T>) returns (taken: seq<T>)
    requires q.Valid() && q.Works() == []
    modifies q, q.nodes
    ensures taken == works && q.Valid() && q.Works() == []
  {
    AppendAll(q, works);
    taken := TakeAll(q, works);
  }
}
