/**
 * The two FIFO queues of code.cpp: the circular-buffer `QueueArray`
 * (lines 162-203) and `QueueLinkedList` (lines 205-271). Both are related to
 * one abstract queue, a sequence listed front first.
 */
module Queues {
  import opened Limits
  import opened Chains

  /**
   * Circular buffer: `size` values starting at slot `front`, the newest at
   * slot `rear`. `rear` starts at -1; `(rear + 1) % MaxNodes` never sees a
   * negative dividend, so C++ and Dafny remainders agree on it.
   */
  datatype QueueArray = QueueArray(arr: seq<int>, front: int, rear: int, size: int) {

    ghost predicate Valid() {
      && |arr| == MaxNodes
      && 0 <= front < MaxNodes
      && -1 <= rear < MaxNodes
      && 0 <= size <= MaxNodes
      && (rear + 1) % MaxNodes == (front + size) % MaxNodes
    }

    /** The abstract queue, front first. */
    function Contents(): (q: seq<int>)
      requires Valid()
      ensures |q| == size
    {
      seq(size, k requires 0 <= k < size => arr[(front + k) % MaxNodes])
    }

    /** Appends `v` at the rear; when all MaxNodes slots are used the value is dropped. */
    function Enqueue(v: int): (q: QueueArray)
      requires Valid()
      ensures q.Valid()
      ensures size < MaxNodes ==> q.Contents() == Contents() + [v]
      ensures size == MaxNodes ==> q == this
    {
      if size < MaxNodes then
        var r := (rear + 1) % MaxNodes;
        var q := QueueArray(arr[r := v], front, r, size + 1);
        EnqueueKeepsOrder(this, v);
        q
      else this
    }

    /** Removes and returns the front value; -1 and no change when empty. */
    function Dequeue(): (res: (QueueArray, int))
      requires Valid()
      ensures res.0.Valid()
      ensures Contents() == [] ==> res == (this, -1)
      ensures Contents() != [] ==> res.1 == Contents()[0] && res.0.Contents() == Contents()[1..]
    {
      if size == 0 then (this, -1)
      else
        var q := QueueArray(arr, (front + 1) % MaxNodes, rear, size - 1);
        DequeueKeepsOrder(this);
        (q, arr[front])
    }

    predicate IsEmpty()
      requires Valid()
      ensures IsEmpty() <==> Contents() == []
    {
      size == 0
    }
  }

  lemma ModAdd(x: int, y: int)
    ensures (x % MaxNodes + y) % MaxNodes == (x + y) % MaxNodes
  {
  }

  /** Slots of two positions less than MaxNodes apart are different. */
  lemma ModDistinct(a: int, b: int)
    requires a < b < a + MaxNodes
    ensures a % MaxNodes != b % MaxNodes
  {
  }

  lemma EnqueueKeepsOrder(q: QueueArray, v: int)
    requires q.Valid() && q.size < MaxNodes
    ensures
      var r := (q.rear + 1) % MaxNodes;
      var q' := QueueArray(q.arr[r := v], q.front, r, q.size + 1);
      q'.Valid() && q'.Contents() == q.Contents() + [v]
  {
    var r := (q.rear + 1) % MaxNodes;
    var q' := QueueArray(q.arr[r := v], q.front, r, q.size + 1);
    ModAdd(q.rear + 1, 1);
    ModAdd(q.front + q.size, 1);
    forall k | 0 <= k < q.size
      ensures q'.Contents()[k] == q.Contents()[k]
    {
      ModDistinct(q.front + k, q.front + q.size);
    }
  }

  lemma DequeueKeepsOrder(q: QueueArray)
    requires q.Valid() && q.size > 0
    ensures
      var q' := QueueArray(q.arr, (q.front + 1) % MaxNodes, q.rear, q.size - 1);
      q'.Valid() && q'.Contents() == q.Contents()[1..]
  {
    var q' := QueueArray(q.arr, (q.front + 1) % MaxNodes, q.rear, q.size - 1);
    ModAdd(q.front + 1, q.size - 1);
    forall k | 0 <= k < q.size - 1
      ensures q'.Contents()[k] == q.Contents()[k + 1]
    {
      ModAdd(q.front + 1, k);
    }
  }

  /** A fresh circular queue (front 0, rear -1, size 0); slots are zero here. */
  function NewQueueArray(): (q: QueueArray)
    ensures q.Valid() && q.Contents() == []
  {
    QueueArray(seq(MaxNodes, _ => 0), 0, -1, 0)
  }

  /**
   * Linked queue: the chain runs from the front node to the rear node; the
   * source's `rear` pointer is the last node of the chain.
   */
  datatype QueueLinkedList = QueueLinkedList(front: Chain) {

    /** The abstract queue, front first. */
    function Contents(): seq<int> {
      Elements(front)
    }

    function Enqueue(v: int): (q: QueueLinkedList)
      ensures q.Contents() == Contents() + [v]
    {
      QueueLinkedList(Append(front, v))
    }

    function Dequeue(): (res: (QueueLinkedList, int))
      ensures Contents() == [] ==> res == (this, -1)
      ensures Contents() != [] ==> res.1 == Contents()[0] && res.0.Contents() == Contents()[1..]
    {
      match front
      case Nil => (this, -1)
      case Link(d, n) => (QueueLinkedList(n), d)
    }

    predicate IsEmpty()
      ensures IsEmpty() <==> Contents() == []
    {
      front.Nil?
    }
  }

  function NewQueueLinkedList(): (q: QueueLinkedList)
    ensures q.Contents() == []
  {
    QueueLinkedList(Nil)
  }

  /** A call of the queue interface, and what the call answers. */
  datatype QueueOp = EnqueueOp(v: int) | DequeueOp | IsEmptyOp
  datatype Reply = Ack | Value(v: int) | Answer(b: bool)

  /** The abstract FIFO queue: the answers a sequence of calls gets, starting from contents `q`. */
  function SpecRun(q: seq<int>, ops: seq<QueueOp>): seq<Reply>
    decreases |ops|
  {
    if ops == [] then []
    else
      match ops[0]
      case EnqueueOp(v) => [Ack] + SpecRun(q + [v], ops[1..])
      case DequeueOp =>
        if q == [] then [Value(-1)] + SpecRun(q, ops[1..])
        else [Value(q[0])] + SpecRun(q[1..], ops[1..])
      case IsEmptyOp => [Answer(q == [])] + SpecRun(q, ops[1..])
  }

  /** The calls never enqueue onto a queue that already holds MaxNodes values. */
  predicate Fits(size: nat, ops: seq<QueueOp>)
    decreases |ops|
  {
    ops == [] ||
    match ops[0]
    case EnqueueOp(_) => size < MaxNodes && Fits(size + 1, ops[1..])
    case DequeueOp => Fits(if size == 0 then 0 else size - 1, ops[1..])
    case IsEmptyOp => Fits(size, ops[1..])
  }

  function ArrayRun(q: QueueArray, ops: seq<QueueOp>): seq<Reply>
    requires q.Valid()
    decreases |ops|
  {
    if ops == [] then []
    else
      match ops[0]
      case EnqueueOp(v) => [Ack] + ArrayRun(q.Enqueue(v), ops[1..])
      case DequeueOp => var (q', v) := q.Dequeue(); [Value(v)] + ArrayRun(q', ops[1..])
      case IsEmptyOp => [Answer(q.IsEmpty())] + ArrayRun(q, ops[1..])
  }

  function LinkedRun(q: QueueLinkedList, ops: seq<QueueOp>): seq<Reply>
    decreases |ops|
  {
    if ops == [] then []
    else
      match ops[0]
      case EnqueueOp(v) => [Ack] + LinkedRun(q.Enqueue(v), ops[1..])
      case DequeueOp => var (q', v) := q.Dequeue(); [Value(v)] + LinkedRun(q', ops[1..])
      case IsEmptyOp => [Answer(q.IsEmpty())] + LinkedRun(q, ops[1..])
  }

  /** The circular queue answers like the abstract queue as long as it never overflows. */
  lemma {:induction false} ArrayRefinesSpec(q: QueueArray, ops: seq<QueueOp>)
    requires q.Valid()
    requires Fits(q.size, ops)
    ensures ArrayRun(q, ops) == SpecRun(q.Contents(), ops)
    decreases |ops|
  {
    if ops != [] {
      match ops[0]
      case EnqueueOp(v) => ArrayRefinesSpec(q.Enqueue(v), ops[1..]);
      case DequeueOp => ArrayRefinesSpec(q.Dequeue().0, ops[1..]);
      case IsEmptyOp => ArrayRefinesSpec(q, ops[1..]);
    }
  }

  /** The linked queue answers like the abstract queue, with no capacity bound. */
  lemma {:induction false} LinkedRefinesSpec(q: QueueLinkedList, ops: seq<QueueOp>)
    ensures LinkedRun(q, ops) == SpecRun(q.Contents(), ops)
    decreases |ops|
  {
    if ops != [] {
      match ops[0]
      case EnqueueOp(v) => LinkedRefinesSpec(q.Enqueue(v), ops[1..]);
      case DequeueOp => LinkedRefinesSpec(q.Dequeue().0, ops[1..]);
      case IsEmptyOp => LinkedRefinesSpec(q, ops[1..]);
    }
  }

  /** Started empty, the two queues give the same answers to any calls that fit. */
  lemma QueuesAgree(ops: seq<QueueOp>)
    requires Fits(0, ops)
    ensures ArrayRun(NewQueueArray(), ops) == LinkedRun(NewQueueLinkedList(), ops)
  {
    ArrayRefinesSpec(NewQueueArray(), ops);
    LinkedRefinesSpec(NewQueueLinkedList(), ops);
  }
}
