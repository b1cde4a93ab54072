/** The appointment queue (dsapro/data_structures/queue.py): a FIFO of patient ids. */
module AppointmentQueues {
  import opened Wrappers

  class AppointmentQueue {
    /** The deque, head first. */
    var q: seq<int>

    constructor ()
      ensures q == []
    {
      q := [];
    }

    /** Appends at the tail. */
    method Enqueue(patientId: int)
      modifies this
      ensures q == old(q) + [patientId]
    {
      q := q + [patientId];
    }

    /** Removes and returns the head; on an empty queue returns None and changes nothing. */
    method Dequeue() returns (r: Option<int>)
      modifies this
      ensures old(q) == [] ==> r == None && q == []
      ensures old(q) != [] ==> r == Some(old(q)[0]) && q == old(q)[1..]
      ensures old(q) == (if r.Some? then [r.value] else []) + q
    {
      if |q| > 0 {
        r := Some(q[0]);
        q := q[1..];
      } else {
        r := None;
      }
    }

    /** The head, without removing it. */
    method Peek() returns (r: Option<int>)
      ensures r.None? <==> q == []
      ensures r.Some? ==> r.value == q[0]
    {
      r := if |q| > 0 then Some(q[0]) else None;
    }

    method IsEmpty() returns (b: bool)
      ensures b <==> |q| == 0
    {
      b := |q| == 0;
    }

    /** A copy of the contents, head first. */
    method ToList() returns (arr: seq<int>)
      ensures arr == q
    {
      arr := q;
    }

    /** Replaces the contents wholesale. */
    method LoadFromList(arr: seq<int>)
      modifies this
      ensures q == arr
    {
      q := arr;
    }
  }

  /** FIFO: on a fresh queue, enqueueing a then b and dequeueing twice yields a, then b,
      and a third dequeue finds the queue empty. */
  method FifoOrder(a: int, b: int) returns (x: Option<int>, y: Option<int>, z: Option<int>)
    ensures x == Some(a) && y == Some(b) && z == None
  {
    var queue := new AppointmentQueue();
    queue.Enqueue(a);
    queue.Enqueue(b);
    x := queue.Dequeue();
    y := queue.Dequeue();
    z := queue.Dequeue();
  }

  /** `load_from_list(arr)` followed by `to_list()` gives back arr. */
  method LoadThenList(arr: seq<int>) returns (r: seq<int>, empty: bool)
    ensures r == arr
    ensures empty <==> arr == []
  {
    var queue := new AppointmentQueue();
    queue.LoadFromList(arr);
    r := queue.ToList();
    empty := queue.IsEmpty();
  }
}
