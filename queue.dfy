/** The work queue of the quicksort test: a stack of pending items together
    with two counters, how many items were ever sent and how many of them
    have been reported done. The mutex around the state is not modelled
    (operations are taken one at a time), and the condition-variable wait of
    `recv` becomes the outcome `WouldBlock`. */
module WorkQueue {

  /** What one call of `recv` yields: an item, the end of all work
      (`None` in the source), or the case where the source would wait for
      another worker to send or finish. */
  datatype Received<T> = Item(value: T) | Finished | WouldBlock

  class Queue<T> {
    /** Items sent and not yet received; the end of the sequence is the
        top of the stack. */
    var items: seq<T>
    /** How many items were ever sent. */
    var sent: nat
    /** How many received items were reported finished. */
    var done: nat

    /** `Queue::new`: no items, both counters zero. */
    constructor ()
      ensures items == [] && sent == 0 && done == 0
    {
      items := [];
      sent := 0;
      done := 0;
    }

    /** There is no work left, now or later: nothing is queued and every
        item sent has been reported done. */
    predicate Idle()
      reads this
    {
      items == [] && sent == done
    }

    /** `send`: counts the item as sent and pushes it on top of the stack. */
    method Send(value: T)
      modifies this
      ensures items == old(items) + [value]
      ensures sent == old(sent) + 1
      ensures done == old(done)
    {
      sent := sent + 1;
      items := items + [value];
    }

    /** `done`: counts one more received item as finished; the items are
        untouched. */
    method Done()
      modifies this
      ensures done == old(done) + 1
      ensures items == old(items) && sent == old(sent)
    {
      done := done + 1;
    }

    /** `recv`: pops the most recently sent item when there is one; with
        nothing queued it reports the end of the work once every sent item
        is done, and otherwise it is the point where the source waits. */
    method Recv() returns (r: Received<T>)
      modifies this
      ensures old(items) != [] ==> r == Item(old(items)[|old(items)| - 1]) && items == old(items)[..|old(items)| - 1]
      ensures old(items) == [] ==> items == [] && r == (if old(sent) == old(done) then Finished else WouldBlock)
      ensures r == Finished <==> old(Idle())
      ensures sent == old(sent) && done == old(done)
    {
      if items != [] {
        r := Item(items[|items| - 1]);
        items := items[..|items| - 1];
      } else if sent == done {
        r := Finished;
      } else {
        r := WouldBlock;
      }
    }
  }

  /** A single client of a fresh queue. Two items are received in the
      reverse of the order they were sent; with both items out and only one
      of them done, `recv` would wait; once both are done it reports the end
      of the work. */
  method LastInFirstOut<T>(x: T, y: T) returns (first: Received<T>, second: Received<T>, early: Received<T>, last: Received<T>)
    ensures first == Item(y) && second == Item(x)
    ensures early == WouldBlock
    ensures last == Finished
  {
    var queue := new Queue<T>();
    queue.Send(x);
    queue.Send(y);
    first := queue.Recv();
    second := queue.Recv();
    queue.Done();
    early := queue.Recv();
    queue.Done();
    last := queue.Recv();
  }
}
