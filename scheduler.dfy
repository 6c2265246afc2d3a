/** The hand-off between `copyRepository` and its workers: a buffered channel
    of tags that one producer fills with the whole plan and then closes, and
    one worker's receive loop run on its own. Several workers draining it
    concurrently are not part of this model. */
module Scheduler {
  import opened Types

  /** `make(chan string, capacity)`. */
  class TagQueue {
    const capacity: nat
    var buffer: seq<Tag>
    var closed: bool

    ghost predicate Valid()
      reads this
    {
      |buffer| <= capacity
    }

    constructor (capacity: nat)
      ensures Valid() && this.capacity == capacity
      ensures buffer == [] && !closed
    {
      this.capacity := capacity;
      buffer := [];
      closed := false;
    }

    /** `ch <- t` when the buffer has room; sending on a closed channel
        panics and a full buffer blocks, so neither is allowed here. */
    method Send(t: Tag)
      requires Valid() && !closed && |buffer| < capacity
      modifies this
      ensures Valid() && !closed
      ensures buffer == old(buffer) + [t]
    {
      buffer := buffer + [t];
    }

    /** `close(ch)`; closing twice panics. */
    method Close()
      requires Valid() && !closed
      modifies this
      ensures Valid() && closed
      ensures buffer == old(buffer)
    {
      closed := true;
    }

    /** `t, ok := <-ch` when it does not block: the oldest buffered tag, or
        the zero value and `ok == false` once the channel is closed and empty. */
    method Receive() returns (t: Tag, ok: bool)
      requires Valid() && (buffer != [] || closed)
      modifies this
      ensures Valid() && closed == old(closed)
      ensures ok == (old(buffer) != [])
      ensures ok ==> t == old(buffer)[0] && buffer == old(buffer)[1..]
      ensures !ok ==> t == "" && buffer == []
    {
      if buffer != [] {
        t, ok := buffer[0], true;
        buffer := buffer[1..];
      } else {
        t, ok := "", false;
      }
    }
  }

  /** The channel sized to the plan and the producer that enqueues every plan
      tag once, in plan order, and closes it. Because the capacity equals the
      plan length, no send ever blocks. */
  method EnqueuePlan(tags: seq<Tag>) returns (ch: TagQueue)
    ensures fresh(ch) && ch.Valid()
    ensures ch.capacity == |tags| && ch.buffer == tags && ch.closed
  {
    ch := new TagQueue(|tags|);
    for i := 0 to |tags|
      invariant ch.Valid() && !ch.closed && ch.capacity == |tags|
      invariant ch.buffer == tags[..i]
    {
      ch.Send(tags[i]);
      assert tags[..i + 1] == tags[..i] + [tags[i]];
    }
    ch.Close();
    assert tags[..|tags|] == tags;
  }

  /** One worker's receive loop, run alone: `tag, ok := <-ch` until `!ok`.
      Each buffered tag is received once, oldest first, and the buffer ends
      empty. The per-tag parsing and copying are not part of this model. */
  method Drain(ch: TagQueue) returns (received: seq<Tag>)
    requires ch.Valid() && ch.closed
    modifies ch
    ensures ch.Valid() && ch.closed
    ensures received == old(ch.buffer) && ch.buffer == []
  {
    received := [];
    while true
      invariant ch.Valid() && ch.closed
      invariant received + ch.buffer == old(ch.buffer)
      decreases |ch.buffer|
    {
      var tag, ok := ch.Receive();
      if !ok {
        return;
      }
      received := received + [tag];
    }
  }

  /** The producer and one worker in sequence: the worker receives exactly
      the plan, in plan order. */
  method EnqueueThenDrain(tags: seq<Tag>) returns (received: seq<Tag>)
    ensures received == tags
  {
    var ch := EnqueuePlan(tags);
    received := Drain(ch);
  }
}
