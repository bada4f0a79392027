/**
 * The two LIFO stacks of code.cpp: `StackArray` (lines 54-99) and
 * `StackLinkedList` (lines 102-157). Both are related to one abstract stack,
 * a sequence listed bottom first, so that the two storage strategies are
 * shown to answer every sequence of calls alike.
 */
module Stacks {
  import opened Limits
  import opened Chains

  /** Array-backed stack: slots arr[0..top] hold the contents, bottom first. */
  datatype StackArray = StackArray(arr: seq<int>, top: int) {

    ghost predicate Valid() {
      |arr| == MaxNodes && -1 <= top < MaxNodes
    }

    /** The abstract stack, bottom first: its last element is the top. */
    function Contents(): seq<int>
      requires Valid()
    {
      arr[..top + 1]
    }

    /** Pushes `v`; once all MaxNodes slots are used the push is dropped. */
    function Push(v: int): (s: StackArray)
      requires Valid()
      ensures s.Valid()
      ensures |Contents()| < MaxNodes ==> s.Contents() == Contents() + [v]
      ensures |Contents()| == MaxNodes ==> s == this
    {
      if top < MaxNodes - 1 then StackArray(arr[top + 1 := v], top + 1) else this
    }

    /** Removes and returns the top value; -1 and no change when empty. */
    function Pop(): (res: (StackArray, int))
      requires Valid()
      ensures res.0.Valid()
      ensures Contents() == [] ==> res == (this, -1)
      ensures Contents() != [] ==>
                res.1 == Contents()[|Contents()| - 1] &&
                res.0.Contents() == Contents()[..|Contents()| - 1]
    {
      if top >= 0 then (StackArray(arr, top - 1), arr[top]) else (this, -1)
    }

    function Peek(): (v: int)
      requires Valid()
      ensures Contents() == [] ==> v == -1
      ensures Contents() != [] ==> v == Contents()[|Contents()| - 1]
    {
      if top >= 0 then arr[top] else -1
    }

    predicate IsEmpty()
      requires Valid()
      ensures IsEmpty() <==> Contents() == []
    {
      top == -1
    }
  }

  /** A fresh array stack; the slots are uninitialised in the source and zero here. */
  function NewStackArray(): (s: StackArray)
    ensures s.Valid() && s.Contents() == []
  {
    StackArray(seq(MaxNodes, _ => 0), -1)
  }

  /** Linked stack: the head node of the chain is the top. */
  datatype StackLinkedList = StackLinkedList(top: Chain) {

    /** The abstract stack, bottom first. */
    function Contents(): seq<int> {
      ElementsReversed(top)
    }

    function Push(v: int): (s: StackLinkedList)
      ensures s.Contents() == Contents() + [v]
    {
      StackLinkedList(Link(v, top))
    }

    function Pop(): (res: (StackLinkedList, int))
      ensures Contents() == [] ==> res == (this, -1)
      ensures Contents() != [] ==>
                res.1 == Contents()[|Contents()| - 1] &&
                res.0.Contents() == Contents()[..|Contents()| - 1]
    {
      match top
      case Nil => (this, -1)
      case Link(d, n) => (StackLinkedList(n), d)
    }

    predicate IsEmpty()
      ensures IsEmpty() <==> Contents() == []
    {
      top.Nil?
    }
  }

  function NewStackLinkedList(): (s: StackLinkedList)
    ensures s.Contents() == []
  {
    StackLinkedList(Nil)
  }

  /** A call of the interface both stacks offer, and what the call answers. */
  datatype StackOp = PushOp(v: int) | PopOp | IsEmptyOp
  datatype Reply = Ack | Value(v: int) | Answer(b: bool)

  /** The abstract LIFO stack: the answers a sequence of calls gets, starting from contents `st`. */
  function SpecRun(st: seq<int>, ops: seq<StackOp>): seq<Reply>
    decreases |ops|
  {
    if ops == [] then []
    else
      match ops[0]
      case PushOp(v) => [Ack] + SpecRun(st + [v], ops[1..])
      case PopOp =>
        if st == [] then [Value(-1)] + SpecRun(st, ops[1..])
        else [Value(st[|st| - 1])] + SpecRun(st[..|st| - 1], ops[1..])
      case IsEmptyOp => [Answer(st == [])] + SpecRun(st, ops[1..])
  }

  /** The calls never push onto a stack that already holds MaxNodes values. */
  predicate Fits(depth: nat, ops: seq<StackOp>)
    decreases |ops|
  {
    ops == [] ||
    match ops[0]
    case PushOp(_) => depth < MaxNodes && Fits(depth + 1, ops[1..])
    case PopOp => Fits(if depth == 0 then 0 else depth - 1, ops[1..])
    case _ => Fits(depth, ops[1..])
  }

  function ArrayRun(s: StackArray, ops: seq<StackOp>): seq<Reply>
    requires s.Valid()
    decreases |ops|
  {
    if ops == [] then []
    else
      match ops[0]
      case PushOp(v) => [Ack] + ArrayRun(s.Push(v), ops[1..])
      case PopOp => var (s', v) := s.Pop(); [Value(v)] + ArrayRun(s', ops[1..])
      case IsEmptyOp => [Answer(s.IsEmpty())] + ArrayRun(s, ops[1..])
  }

  function LinkedRun(s: StackLinkedList, ops: seq<StackOp>): seq<Reply>
    decreases |ops|
  {
    if ops == [] then []
    else
      match ops[0]
      case PushOp(v) => [Ack] + LinkedRun(s.Push(v), ops[1..])
      case PopOp => var (s', v) := s.Pop(); [Value(v)] + LinkedRun(s', ops[1..])
      case IsEmptyOp => [Answer(s.IsEmpty())] + LinkedRun(s, ops[1..])
  }

  /** The array stack answers like the abstract stack as long as it never overflows. */
  lemma {:induction false} ArrayRefinesSpec(s: StackArray, ops: seq<StackOp>)
    requires s.Valid()
    requires Fits(|s.Contents()|, ops)
    ensures ArrayRun(s, ops) == SpecRun(s.Contents(), ops)
    decreases |ops|
  {
    if ops != [] {
      match ops[0]
      case PushOp(v) => ArrayRefinesSpec(s.Push(v), ops[1..]);
      case PopOp => ArrayRefinesSpec(s.Pop().0, ops[1..]);
      case IsEmptyOp => ArrayRefinesSpec(s, ops[1..]);
    }
  }

  /** The linked stack answers like the abstract stack, with no capacity bound. */
  lemma {:induction false} LinkedRefinesSpec(s: StackLinkedList, ops: seq<StackOp>)
    ensures LinkedRun(s, ops) == SpecRun(s.Contents(), ops)
    decreases |ops|
  {
    if ops != [] {
      match ops[0]
      case PushOp(v) => LinkedRefinesSpec(s.Push(v), ops[1..]);
      case PopOp => LinkedRefinesSpec(s.Pop().0, ops[1..]);
      case IsEmptyOp => LinkedRefinesSpec(s, ops[1..]);
    }
  }

  /** Started empty, the two stacks give the same answers to any calls that fit. */
  lemma StacksAgree(ops: seq<StackOp>)
    requires Fits(0, ops)
    ensures ArrayRun(NewStackArray(), ops) == LinkedRun(NewStackLinkedList(), ops)
  {
    ArrayRefinesSpec(NewStackArray(), ops);
    LinkedRefinesSpec(NewStackLinkedList(), ops);
  }
}
