/**
 A "latest-wins" mailbox. Senders append to an ordered sequence of pending
 messages; a receiver takes the most recently sent one and throws away every
 older message still pending. The lock and the condition variable are not
 modelled: the receiver's wait for a non-empty queue becomes a precondition.
 */
module MessageQueues {

  /** The last element of a non-empty sequence. */
  function Last<T>(s: seq<T>): T
    requires s != []
  {
    s[|s| - 1]
  }

  class MessageQueue<T> {
    /** The pending messages, oldest first (the `std::deque<T> _queue`). */
    var pending: seq<T>

    /** A new queue holds no messages. */
    constructor ()
      ensures pending == []
    {
      pending := [];
    }

    /** `send`: appends one message at the back; everything already pending stays as it was. */
    method Send(msg: T)
      modifies this
      ensures pending == old(pending) + [msg]
      ensures |pending| == |old(pending)| + 1 && Last(pending) == msg
      ensures pending[..|old(pending)|] == old(pending)
    {
      pending := pending + [msg];
    }

    /** `receive`, once its wait for a non-empty queue is over: returns the most
        recently sent message and clears the queue. */
    method Receive() returns (msg: T)
      requires pending != []
      modifies this
      ensures msg == Last(old(pending))
      ensures pending == []
    {
      msg := pending[|pending| - 1];
      pending := [];
    }
  }

  /**
   The messages that successive `receive` calls return from a queue that starts
   out holding `pending`, when the sends in `arrivals[i]` reach the queue while
   the `i`-th call waits. The list ends at the first call that would still find
   the queue empty, a wait that the finite supply of arrivals does not cover.
   */
  function Receipts<T>(pending: seq<T>, arrivals: seq<seq<T>>): (r: seq<T>)
    ensures |r| <= |arrivals|
    decreases |arrivals|
  {
    if arrivals == [] || pending + arrivals[0] == [] then []
    else [Last(pending + arrivals[0])] + Receipts([], arrivals[1..])
  }

  /** What the `i`-th receive sees: the initial backlog and the first batch for
      the first call, only its own batch for every later call, since each
      receive clears the queue. */
  function Available<T>(pending: seq<T>, arrivals: seq<seq<T>>, i: nat): seq<T>
    requires i < |arrivals|
  {
    if i == 0 then pending + arrivals[0] else arrivals[i]
  }

  /** Latest wins: each receive returns the newest message it found, and finds
      at least one. */
  lemma {:induction false} ReceiptIsLatest<T>(pending: seq<T>, arrivals: seq<seq<T>>, i: nat)
    requires i < |Receipts(pending, arrivals)|
    ensures Available(pending, arrivals, i) != []
    ensures Receipts(pending, arrivals)[i] == Last(Available(pending, arrivals, i))
    decreases |arrivals|
  {
    if i > 0 {
      var rest := arrivals[1..];
      ReceiptIsLatest([], rest, i - 1);
      assert Available([], rest, i - 1) == arrivals[i] by {
        if i - 1 == 0 {
          assert [] + rest[0] == rest[0];
        }
      }
    }
  }

  /** The receipts stop short of the supply only at a receive that would find
      nothing to take. */
  lemma {:induction false} ReceiptsStopAtEmptyQueue<T>(pending: seq<T>, arrivals: seq<seq<T>>)
    ensures var n := |Receipts(pending, arrivals)|;
      n == |arrivals| || Available(pending, arrivals, n) == []
    decreases |arrivals|
  {
    if arrivals != [] && pending + arrivals[0] != [] {
      var rest := arrivals[1..];
      ReceiptsStopAtEmptyQueue([], rest);
      var m := |Receipts([], rest)|;
      if m < |rest| {
        assert Available([], rest, m) == arrivals[m + 1] by {
          if m == 0 {
            assert [] + rest[0] == rest[0];
          }
        }
      }
    }
  }

  /** Once the `k`-th receive has succeeded, everything older is gone for good:
      the later receives return exactly what the later batches alone give. */
  lemma {:induction false} StaleMessagesDiscarded<T>(pending: seq<T>, arrivals: seq<seq<T>>, k: nat)
    requires k < |Receipts(pending, arrivals)|
    ensures Receipts(pending, arrivals)[k + 1..] == Receipts([], arrivals[k + 1..])
    decreases k
  {
    var rest := arrivals[1..];
    assert Receipts(pending, arrivals)[1..] == Receipts([], rest);
    if k > 0 {
      StaleMessagesDiscarded([], rest, k - 1);
      assert rest[k..] == arrivals[k + 1..];
      assert Receipts(pending, arrivals)[k + 1..] == Receipts([], rest)[k..];
    }
  }

  /** `send(a); send(b)` on an empty queue, then `receive()`: the result is `b`
      and `a` is no longer pending. */
  method LatestWins<T>(a: T, b: T) returns (got: T, left: seq<T>)
    ensures got == b
    ensures left == []
  {
    var q := new MessageQueue<T>();
    q.Send(a);
    q.Send(b);
    got := q.Receive();
    left := q.pending;
  }
}
