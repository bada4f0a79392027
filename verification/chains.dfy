/** The singly linked `ListNode` chain behind the linked stack and queue (code.cpp lines 20-27). */
module Chains {

  datatype Chain = Nil | Link(data: int, next: Chain)

  /** Values from the head node to the last node. */
  function Elements(c: Chain): seq<int> {
    match c
    case Nil => []
    case Link(d, n) => [d] + Elements(n)
  }

  /** Values from the last node back to the head node. */
  function ElementsReversed(c: Chain): seq<int> {
    match c
    case Nil => []
    case Link(d, n) => ElementsReversed(n) + [d]
  }

  /** Links a new node after the last one, as a rear pointer does in one step. */
  function Append(c: Chain, v: int): (r: Chain)
    ensures Elements(r) == Elements(c) + [v]
  {
    match c
    case Nil => Link(v, Nil)
    case Link(d, n) => Link(d, Append(n, v))
  }
}
