/**
 * The QueueWorker of internal/workers/queue_worker.go: a buffered channel of
 * fixed capacity, and a spill list ("fallback") for the messages that found
 * the channel full. The channel is modelled by the messages buffered in it,
 * oldest first; the mutex and the consumer goroutines are left out, so every
 * operation is one sequential step.
 */
module Workers {
  import opened ByteStrings

  // ---------------------------------------------------------------------------
  // The two steps as functions of the state

  /**
   * A non-blocking send: into the channel while it has room, otherwise onto
   * the end of the spill list. Nothing is lost: the combined contents grow by
   * exactly msg, and nothing but the one list it joins changes.
   */
  function Sent(channel: seq<Bytes>, spill: seq<Bytes>, capacity: nat, msg: Bytes): (r: (seq<Bytes>, seq<Bytes>))
    requires |channel| <= capacity
    ensures |r.0| <= capacity
    ensures multiset(r.0 + r.1) == multiset(channel + spill) + multiset{msg}
    ensures (r.0 == channel + [msg] && r.1 == spill) || (r.0 == channel && r.1 == spill + [msg])
    ensures r.0 == channel + [msg] <==> |channel| < capacity
  {
    if |channel| < capacity then (channel + [msg], spill)
    else
      assert channel + (spill + [msg]) == (channel + spill) + [msg];
      (channel, spill + [msg])
  }

  /** How many spilled messages fit in the channel: the free slots, or all of them. */
  function Fits(buffered: nat, spilled: nat, capacity: nat): (k: nat)
    requires buffered <= capacity
    ensures k <= spilled && buffered + k <= capacity
    ensures k == spilled || buffered + k == capacity
  {
    if capacity - buffered < spilled then capacity - buffered else spilled
  }

  /**
   * The state after a retry: the longest prefix of the spill list that fits
   * moves, in order, to the end of the channel; the rest stays spilled, in
   * order.
   */
  function Retried(channel: seq<Bytes>, spill: seq<Bytes>, capacity: nat): (r: (seq<Bytes>, seq<Bytes>))
    requires |channel| <= capacity
    ensures r.0 + r.1 == channel + spill
    ensures |r.0| <= capacity && (r.1 == [] || |r.0| == capacity)
    ensures channel <= r.0 && r.1 == spill[|r.0| - |channel|..]
  {
    var k := Fits(|channel|, |spill|, capacity);
    assert spill == spill[..k] + spill[k..];
    (channel + spill[..k], spill[k..])
  }

  /** A retry with nothing spilled, or with the channel full, changes nothing. */
  lemma RetriedNothingToDo(channel: seq<Bytes>, spill: seq<Bytes>, capacity: nat)
    requires |channel| <= capacity
    requires spill == [] || |channel| == capacity
    ensures Retried(channel, spill, capacity) == (channel, spill)
  {
    assert spill[..0] == [] && spill[0..] == spill;
    assert channel + [] == channel;
  }

  /** Retrying twice in a row is retrying once. */
  lemma RetriedIdempotent(channel: seq<Bytes>, spill: seq<Bytes>, capacity: nat)
    requires |channel| <= capacity
    ensures var r := Retried(channel, spill, capacity);
      Retried(r.0, r.1, capacity) == r
  {
    var r := Retried(channel, spill, capacity);
    RetriedNothingToDo(r.0, r.1, capacity);
  }

  /**
   * Sending and then retrying keeps every message: the combined contents are
   * the old ones plus msg, whichever list msg joined.
   */
  lemma SentThenRetried(channel: seq<Bytes>, spill: seq<Bytes>, capacity: nat, msg: Bytes)
    requires |channel| <= capacity
    ensures var s := Sent(channel, spill, capacity, msg);
      var r := Retried(s.0, s.1, capacity);
      multiset(r.0 + r.1) == multiset(channel + spill) + multiset{msg}
  {
  }

  /**
   * A message sent while the channel has room goes ahead of every spilled
   * message: spilling does not keep the order of sending.
   */
  lemma SendOvertakesSpill(channel: seq<Bytes>, spill: seq<Bytes>, capacity: nat, msg: Bytes)
    requires |channel| < capacity && spill != []
    ensures var s := Sent(channel, spill, capacity, msg);
      var r := Retried(s.0, s.1, capacity);
      r.0[|channel|] == msg && (r.0 + r.1)[|channel| + 1..] == spill
  {
    var s := Sent(channel, spill, capacity, msg);
    var r := Retried(s.0, s.1, capacity);
    assert (channel + [msg]) + spill == channel + ([msg] + spill);
    assert (r.0 + r.1)[|channel|..] == [msg] + spill;
  }

  // ---------------------------------------------------------------------------
  // The worker

  class QueueWorker {
    /** The channel's buffer size, fixed by NewQueueWorker. */
    const capacity: nat
    /** The messages buffered in the channel, oldest first. */
    var channel: seq<Bytes>
    /** The spill list, oldest first. */
    var fallback: seq<Bytes>

    /** A channel never holds more than its buffer size. */
    ghost predicate Valid()
      reads this
    {
      |channel| <= capacity
    }

    /** Every message held, the channel's first. */
    function Contents(): seq<Bytes>
      reads this
    {
      channel + fallback
    }

    /** NewQueueWorker(buffer): an empty channel of that size and an empty spill list. */
    constructor (buffer: nat)
      ensures Valid() && capacity == buffer && channel == [] && fallback == []
    {
      capacity := buffer;
      channel := [];
      fallback := [];
    }

    /** Send: a non-blocking send, spilling when the channel is full. */
    method Send(msg: Bytes)
      requires Valid()
      modifies this
      ensures Valid()
      ensures (channel, fallback) == Sent(old(channel), old(fallback), capacity, msg)
      ensures multiset(Contents()) == multiset(old(Contents())) + multiset{msg}
    {
      if |channel| < capacity {
        channel := channel + [msg];
      } else {
        fallback := fallback + [msg];
      }
    }

    /**
     * RetryFallback: offer every spilled message to the channel in turn,
     * keeping those that do not fit, in order.
     */
    method RetryFallback()
      requires Valid()
      modifies this
      ensures Valid()
      ensures (channel, fallback) == Retried(old(channel), old(fallback), capacity)
      ensures Contents() == old(Contents())
    {
      var spill := fallback;
      var kept: seq<Bytes> := [];
      var moved := 0;
      for i := 0 to |spill|
        invariant moved <= i && |channel| <= capacity
        invariant moved == Fits(|old(channel)|, i, capacity)
        invariant channel == old(channel) + spill[..moved]
        invariant kept == spill[moved..i]
      {
        if |channel| < capacity {
          assert spill[..moved + 1] == spill[..moved] + [spill[i]];
          channel := channel + [spill[i]];
          moved := moved + 1;
        } else {
          kept := kept + [spill[i]];
        }
      }
      assert kept == spill[moved..];
      fallback := kept;
    }

    /** CountFallback: the number of spilled messages. */
    method CountFallback() returns (n: nat)
      ensures n == |fallback|
    {
      n := |fallback|;
    }

    /** One receive from the channel by a consumer: the oldest buffered message. */
    method Receive() returns (msg: Bytes)
      requires Valid() && channel != []
      modifies this
      ensures Valid()
      ensures [msg] + channel == old(channel) && fallback == old(fallback)
    {
      msg := channel[0];
      channel := channel[1..];
    }

    /** The retry worker's tick: retry only when something is spilled. */
    method Tick()
      requires Valid()
      modifies this
      ensures Valid()
      ensures (channel, fallback) == Retried(old(channel), old(fallback), capacity)
      ensures fallback == [] || |channel| == capacity
    {
      var n := CountFallback();
      if n > 0 {
        RetryFallback();
      } else {
        RetriedNothingToDo(channel, fallback, capacity);
      }
    }
  }
}
