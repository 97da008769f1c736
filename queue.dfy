// The FIFO `Queue` of queue.go: a slice of items that `Push` appends to and
// `Pop` takes from the front. `Pop`, `Peek`, `Size` and `IsEmpty` follow the
// behaviour queue_test.go asserts; an empty queue answers `nil`, here `None`.
module Queues {

  datatype Option<T> = None | Some(value: T)

  class Queue<T> {
    var items: seq<T>

    /** `New`: an empty queue. */
    constructor ()
      ensures items == []
    {
      items := [];
    }

    /** Appends to the back; earlier items keep their places. */
    method Push(value: T)
      modifies this
      ensures items == old(items) + [value]
    {
      items := items + [value];
    }

    /** Removes and returns the front item; `None` and no change when empty. */
    method Pop() returns (front: Option<T>)
      modifies this
      ensures old(items) == [] ==> front == None && items == []
      ensures old(items) != [] ==> front == Some(old(items)[0]) && items == old(items)[1..]
    {
      if items == [] {
        front := None;
      } else {
        front := Some(items[0]);
        items := items[1..];
      }
    }

    /** The front item without removing it; `None` when empty. */
    function Peek(): (front: Option<T>)
      reads this
      ensures front.None? <==> items == []
      ensures front.Some? ==> front.value == items[0]
    {
      if items == [] then None else Some(items[0])
    }

    function Size(): (n: nat)
      reads this
      ensures n == |items|
    {
      |items|
    }

    function IsEmpty(): (empty: bool)
      reads this
      ensures empty <==> Size() == 0
    {
      items == []
    }
  }
}
