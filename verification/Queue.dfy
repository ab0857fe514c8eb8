/** A queue as a singly linked list (samples/sample3-inl.h). */
module Queue {
  import opened CStrings

  class QueueNode<E> {
    const element: E
    /** Its place in the order of all nodes of the queue. */
    ghost const index: nat
    var next: QueueNode?<E>

    constructor (element: E, ghost index: nat)
      ensures this.element == element && this.index == index && next == null
    {
      this.element, this.index, next := element, index, null;
    }
  }

  /** `t` has the values of `f` on `s`. */
  ghost predicate IsImage<E, F>(t: seq<F>, s: seq<E>, f: E -> F) {
    |t| == |s| && forall k :: 0 <= k < |s| ==> t[k] == f(s[k])
  }

  lemma ImageGrows<E, F>(t: seq<F>, s: seq<E>, k: nat, f: E -> F)
    requires k < |s| && IsImage(t, s[..k], f)
    ensures IsImage(t + [f(s[k])], s[..k + 1], f)
  {
  }

  /** The links of the nodes from the `from`-th on form a chain that ends after the last one. */
  ghost predicate Chain<E>(nodes: seq<QueueNode<E>>, from: nat)
    reads nodes
  {
    forall k {:trigger nodes[k].next} :: from <= k < |nodes| ==> nodes[k].next == if k + 1 < |nodes| then nodes[k + 1] else null
  }

  ghost predicate Numbered<E>(nodes: seq<QueueNode<E>>, added: seq<E>) {
    |nodes| == |added| && forall k :: 0 <= k < |nodes| ==> nodes[k].element == added[k] && nodes[k].index == k
  }

  /** A last node is linked in. */
  lemma Extended<E>(nodes: seq<QueueNode<E>>, added: seq<E>, from: nat, node: QueueNode<E>)
    requires Numbered(nodes, added) && node.index == |nodes| && node.next == null
    requires forall k {:trigger nodes[k].next} :: from <= k < |nodes| ==>
      nodes[k].next == if k + 1 < |nodes| then nodes[k + 1] else node
    ensures Chain(nodes + [node], from) && Numbered(nodes + [node], added + [node.element])
  {
  }

  class Queue<E> {
    var head: QueueNode?<E>
    var last: QueueNode?<E>
    var size: nat
    /** All nodes and elements that were ever added, in order; the first `gone` of them have been deleted. */
    ghost var nodes: seq<QueueNode<E>>
    ghost var added: seq<E>
    ghost var gone: nat
    ghost var repr: set<QueueNode<E>>

    ghost predicate Valid()
      reads this, repr
    {
      && (forall k :: 0 <= k < |nodes| ==> nodes[k] in repr)
      && gone + size == |nodes|
      && Chain(nodes, gone) && Numbered(nodes, added)
      && head == (if size == 0 then null else nodes[gone])
      && last == (if size == 0 then null else nodes[|nodes| - 1])
    }

    ghost function Contents(): seq<E>
      requires gone <= |added|
      reads this
    {
      added[gone..]
    }

    constructor ()
      ensures Valid() && added == [] && repr == {}
    {
      head, last, size := null, null, 0;
      nodes, added, gone, repr := [], [], 0, {};
    }

    method Enqueue(element: E)
      requires Valid()
      modifies this, repr
      ensures Valid() && Contents() == old(Contents()) + [element]
      ensures added == old(added) + [element] && gone == old(gone) && fresh(repr - old(repr))
    {
      var newNode := new QueueNode<E>(element, |nodes|);
      if size == 0 {
        head, last := newNode, newNode;
        size := 1;
      } else {
        last.next := newNode;
        last := newNode;
        size := size + 1;
      }
      Extended(nodes, added, gone, newNode);
      nodes, added, repr := nodes + [newNode], added + [element], repr + {newNode};
    }

    method Dequeue() returns (element: Option<E>)
      requires Valid()
      modifies this
      ensures Valid() && added == old(added) && repr == old(repr)
      ensures if old(Contents()) == [] then element == None && Contents() == []
              else element == Some(old(Contents())[0]) && Contents() == old(Contents())[1..]
      ensures gone == if element.Some? then old(gone) + 1 else old(gone)
    {
      if size == 0 {
        return None;
      }
      var oldHead := head;
      head := head.next;
      size := size - 1;
      if size == 0 {
        last := null;
      }
      element := Some(oldHead.element);
      gone := gone + 1;
    }

    /** Deletes each node once; the next one is read before. */
    method Clear()
      requires Valid()
      modifies this
      ensures Valid() && Contents() == [] && added == old(added) && repr == old(repr)
    {
      if size > 0 {
        var node := head;
        var next := node.next;
        while true
          invariant gone < |nodes| && node == nodes[gone] && next == (if gone + 1 < |nodes| then nodes[gone + 1] else null)
          invariant repr == old(repr) && nodes == old(nodes) && added == old(added) && Chain(nodes, gone)
          decreases |nodes| - gone
        {
          gone := gone + 1;
          node := next;
          if node == null {
            break;
          }
          next := node.next;
        }
        head, last := null, null;
        size := 0;
      }
    }

    method Map<F>(f: E -> F) returns (newQueue: Queue<F>)
      requires Valid()
      ensures fresh(newQueue) && fresh(newQueue.repr) && newQueue.Valid() && IsImage(newQueue.Contents(), Contents(), f)
    {
      newQueue := new Queue<F>();
      ghost var rest, s := nodes[gone..], Contents();
      assert Chain(rest, 0) && forall j :: 0 <= j < |rest| ==> rest[j].element == s[j];
      var node := head;
      ghost var k := 0;
      while node != null
        invariant k <= |rest| && node == (if k < |rest| then rest[k] else null) && Chain(rest, 0)
        invariant fresh(newQueue) && fresh(newQueue.repr) && newQueue.Valid()
        invariant IsImage(newQueue.Contents(), s[..k], f)
        decreases |rest| - k
      {
        newQueue.EnqueueImage(node, f, rest, s, k);
        node := node.next;
        k := k + 1;
      }
    }

    /** Adds the value of `f` for the `k`-th node of another queue's chain, whose elements are `s`. */
    method EnqueueImage<D>(node: QueueNode<D>, f: D -> E, ghost rest: seq<QueueNode<D>>, ghost s: seq<D>, ghost k: nat)
      requires Valid() && Chain(rest, 0) && k < |rest| == |s| && node == rest[k] && node.element == s[k]
      requires IsImage(Contents(), s[..k], f)
      requires forall n: object :: n in rest ==> n !in repr
      modifies this, repr
      ensures Valid() && fresh(repr - old(repr)) && Chain(rest, 0) && IsImage(Contents(), s[..k + 1], f)
    {
      ImageGrows(Contents(), s, k, f);
      Enqueue(f(node.element));
    }
  }

  // ----- runs -----

  /** An operation of a run; a queue that is mapped is replaced by the new one. */
  datatype Op<!E> = Add(element: E) | Take | Empty | Apply(f: E -> E)

  /** What a run leaves in the queue, and what its `Take`s return. */
  datatype Outcome<E> = Outcome(contents: seq<E>, taken: seq<Option<E>>)

  ghost function Mapped<E>(s: seq<E>, f: E -> E): seq<E> {
    seq(|s|, k requires 0 <= k < |s| => f(s[k]))
  }

  /** The contents after an operation on contents `s`. */
  ghost function After<E>(s: seq<E>, op: Op<E>): seq<E> {
    match op
    case Add(element) => s + [element]
    case Take => if s == [] then s else s[1..]
    case Empty => []
    case Apply(f) => Mapped(s, f)
  }

  /** What an operation returns. */
  ghost function Returned<E>(s: seq<E>, op: Op<E>): seq<Option<E>> {
    if !op.Take? then [] else if s == [] then [None] else [Some(s[0])]
  }

  /** A run on contents `s`. */
  ghost function Play<E>(s: seq<E>, ops: seq<Op<E>>): Outcome<E>
    decreases |ops|
  {
    if ops == [] then Outcome(s, [])
    else
      var rest := Play(After(s, ops[0]), ops[1..]);
      Outcome(rest.contents, Returned(s, ops[0]) + rest.taken)
  }

  method Perform<E>(q: Queue<E>, op: Op<E>) returns (r: Queue<E>, taken: seq<Option<E>>)
    requires q.Valid()
    modifies q, q.repr
    ensures r.Valid() && (r == q || fresh(r)) && fresh(r.repr - old(q.repr))
    ensures r.Contents() == After(old(q.Contents()), op) && taken == Returned(old(q.Contents()), op)
  {
    r, taken := q, [];
    match op {
      case Add(element) => q.Enqueue(element);
      case Take =>
        var element := q.Dequeue();
        taken := [element];
      case Empty => q.Clear();
      case Apply(f) =>
        r := q.Map(f);
        assert r.Contents() == Mapped(q.Contents(), f);
    }
  }

  lemma PlayNext<E>(s: seq<E>, ops: seq<Op<E>>, k: nat, taken: seq<Option<E>>)
    requires k < |ops|
    ensures var here, next := Play(s, ops[k..]), Play(After(s, ops[k]), ops[k + 1..]);
      here.contents == next.contents && taken + here.taken == taken + Returned(s, ops[k]) + next.taken
  {
    assert ops[k..][1..] == ops[k + 1..];
  }

  /** Every run of operations on a queue is a run on a sequence. */
  method PerformAll<E>(q: Queue<E>, ops: seq<Op<E>>) returns (r: Queue<E>, taken: seq<Option<E>>)
    requires q.Valid()
    modifies q, q.repr
    ensures r.Valid() && (r == q || fresh(r)) && fresh(r.repr - old(q.repr))
    ensures Outcome(r.Contents(), taken) == Play(old(q.Contents()), ops)
  {
    ghost var all := Play(q.Contents(), ops);
    r, taken := q, [];
    assert ops[0..] == ops;
    for k := 0 to |ops|
      invariant r.Valid() && (r == q || fresh(r)) && fresh(r.repr - old(q.repr))
      invariant Play(r.Contents(), ops[k..]).contents == all.contents
      invariant taken + Play(r.Contents(), ops[k..]).taken == all.taken
    {
      PlayNext(r.Contents(), ops, k, taken);
      var more;
      r, more := Perform(r, ops[k]);
      taken := taken + more;
    }
  }

  function Added<E>(ops: seq<Op<E>>): seq<E> {
    if ops == [] then [] else (if ops[0].Add? then [ops[0].element] else []) + Added(ops[1..])
  }

  function Values<E>(taken: seq<Option<E>>): seq<E> {
    if taken == [] then [] else (if taken[0].Some? then [taken[0].value] else []) + Values(taken[1..])
  }

  lemma ValuesCons<E>(x: Option<E>, taken: seq<Option<E>>)
    ensures Values([x] + taken) == (if x.Some? then [x.value] else []) + Values(taken)
  {
    assert ([x] + taken)[1..] == taken;
  }

  /** First in, first out: what was taken, followed by what is left, is what was there and was added, in order. */
  lemma {:induction false} FirstInFirstOut<E>(s: seq<E>, ops: seq<Op<E>>)
    requires forall k :: 0 <= k < |ops| ==> ops[k].Add? || ops[k].Take?
    ensures Values(Play(s, ops).taken) + Play(s, ops).contents == s + Added(ops)
    decreases |ops|
  {
    if ops != [] {
      var op, rest := ops[0], ops[1..];
      FirstInFirstOut(After(s, op), rest);
      var r := Play(After(s, op), rest);
      if op.Add? {
        Associates(s, [op.element], Added(rest));
        assert Returned(s, op) + r.taken == r.taken;
      } else {
        TakeFirst(s, op, r, Added(rest));
      }
    }
  }

  lemma TakeFirst<E>(s: seq<E>, op: Op<E>, r: Outcome<E>, added: seq<E>)
    requires op.Take? && Values(r.taken) + r.contents == After(s, op) + added
    ensures Values(Returned(s, op) + r.taken) + r.contents == s + ([] + added)
  {
    var x: Option<E> := if s == [] then None else Some(s[0]);
    var first := if x.Some? then [x.value] else [];
    ValuesCons(x, r.taken);
    Associates(first, Values(r.taken), r.contents);
    Associates(first, After(s, op), added);
    assert s == first + After(s, op);
  }

  lemma Associates<E>(a: seq<E>, b: seq<E>, c: seq<E>)
    ensures a + b + c == a + (b + c)
  {
  }
}
