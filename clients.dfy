/**
 * One consumer connection (`Client` in stream-server.go): its bounded send
 * channel, the channel on which it asks the hub to unregister it, and its two
 * I/O loops. The transport is not modelled: the inbound loop is given the
 * sequence of read results the transport would deliver, and the outbound loop
 * returns the sequence of frames it writes.
 */
module Clients {
  import opened Wire

  /** Capacity of every client's send channel (`make(chan *[]byte, 512)`). */
  const SendBufferSize: nat := 512

  /**
   * A buffered Go channel of buffers: a FIFO of at most `capacity` entries
   * that can be closed once. Sending blocks when it is full and panics when it
   * is closed; receiving blocks when it is empty and open, and reports "no more
   * values" once it is empty and closed.
   */
  class SendQueue {
    const capacity: nat
    var items: seq<Bytes>
    var closed: bool

    /** The channel never holds more than its capacity. */
    ghost predicate Valid()
      reads this
    {
      |items| <= capacity
    }

    constructor (capacity: nat)
      ensures Valid()
      ensures this.capacity == capacity && items == [] && !closed
    {
      this.capacity := capacity;
      items := [];
      closed := false;
    }

    /** `ch <- data`: only completes when there is room, and only on an open channel. */
    method Send(data: Bytes)
      requires Valid()
      requires !closed && |items| < capacity
      modifies this
      ensures Valid()
      ensures items == old(items) + [data] && closed == old(closed)
    {
      items := items + [data];
    }

    /** `data, ok := <-ch`: the oldest buffer, or `ok == false` once closed and drained. */
    method Receive() returns (data: Bytes, ok: bool)
      requires Valid()
      requires items != [] || closed
      modifies this
      ensures Valid() && closed == old(closed)
      ensures ok <==> old(items) != []
      ensures ok ==> data == old(items)[0] && items == old(items)[1..]
      ensures !ok ==> data == [] && items == []
    {
      if items != [] {
        data, ok := items[0], true;
        items := items[1..];
      } else {
        data, ok := [], false;
      }
    }

    /** `close(ch)`: closing a closed channel panics, so it must be open. */
    method Close()
      requires Valid() && !closed
      modifies this
      ensures Valid()
      ensures closed && items == old(items)
    {
      closed := true;
    }
  }

  /**
   * The hub's unregister channel as its clients see it: the clients whose
   * unregister request has been sent and not yet taken by the hub.
   */
  class ClientChannel {
    var pending: seq<Client>

    constructor ()
      ensures pending == []
    {
      pending := [];
    }

    /** `unregisterChan <- c`. */
    method Send(c: Client)
      modifies this
      ensures pending == old(pending) + [c]
    {
      pending := pending + [c];
    }
  }

  class Client {
    const sendChan: SendQueue
    const unregisterChan: ClientChannel

    /** `NewClient`: a fresh, empty, open send channel of capacity 512. */
    constructor (unregisterChan: ClientChannel)
      ensures this.unregisterChan == unregisterChan
      ensures fresh(sendChan) && sendChan.Valid()
      ensures sendChan.capacity == SendBufferSize && sendChan.items == [] && !sendChan.closed
    {
      this.unregisterChan := unregisterChan;
      sendChan := new SendQueue(SendBufferSize);
    }

    /** `Close`: closes the send channel, which must still be open. */
    method Close()
      requires sendChan.Valid() && !sendChan.closed
      modifies sendChan
      ensures sendChan.Valid()
      ensures sendChan.closed && sendChan.items == old(sendChan.items)
    {
      sendChan.Close();
    }

    /**
     * `ReadHandler`: reads until the first read error or close message,
     * discarding every other payload, and on leaving sends one unregister
     * request for itself. If no result in `inbound` ends the session, the loop
     * is still blocked on the transport (`exited == false`) and has sent
     * nothing. `consumed` is the number of read results taken.
     */
    method ReadHandler(inbound: seq<ReadResult>) returns (consumed: nat, exited: bool)
      modifies unregisterChan
      ensures consumed <= |inbound|
      ensures exited <==> exists k :: 0 <= k < |inbound| && EndsSession(inbound[k])
      ensures exited ==> 0 < consumed && EndsSession(inbound[consumed - 1])
      ensures !exited ==> consumed == |inbound|
      ensures forall k :: 0 <= k < consumed && !(exited && k == consumed - 1) ==> !EndsSession(inbound[k])
      ensures unregisterChan.pending == old(unregisterChan.pending) + if exited then [this] else []
    {
      consumed, exited := 0, false;
      while consumed < |inbound|
        invariant consumed <= |inbound|
        invariant forall k :: 0 <= k < consumed ==> !EndsSession(inbound[k])
      {
        var r := inbound[consumed];
        consumed := consumed + 1;
        if r.ReadFailed? {
          exited := true;
          break;
        }
        if r.msgType == CloseMessage {
          exited := true;
          break;
        }
        // any other message is only logged
      }
      if exited {
        unregisterChan.Send(this);
      }
    }

    /**
     * `WriteHandler`: writes every buffered entry as one binary frame, in
     * queue order. When the channel is closed and drained it writes one close
     * frame with an empty payload, stops, and sends one unregister request
     * for itself. If the channel is drained but still open, the loop is
     * blocked on it (`exited == false`).
     */
    method WriteHandler() returns (written: seq<Frame>, exited: bool)
      requires sendChan.Valid()
      modifies sendChan, unregisterChan
      ensures exited == old(sendChan.closed)
      ensures |written| == |old(sendChan.items)| + if exited then 1 else 0
      ensures forall k :: 0 <= k < |old(sendChan.items)| ==> written[k] == Frame(BinaryMessage, old(sendChan.items)[k])
      ensures exited ==> written[|written| - 1] == Frame(CloseMessage, [])
      ensures sendChan.Valid() && sendChan.items == [] && sendChan.closed == old(sendChan.closed)
      ensures unregisterChan.pending == old(unregisterChan.pending) + if exited then [this] else []
    {
      written := [];
      while true
        invariant sendChan.Valid() && sendChan.closed == old(sendChan.closed)
        invariant |written| <= |old(sendChan.items)|
        invariant sendChan.items == old(sendChan.items)[|written|..]
        invariant forall k :: 0 <= k < |written| ==> written[k] == Frame(BinaryMessage, old(sendChan.items)[k])
        invariant unregisterChan.pending == old(unregisterChan.pending)
        decreases |sendChan.items|
      {
        if sendChan.items == [] && !sendChan.closed {
          // blocked on an empty, open channel
          exited := false;
          return;
        }
        var data, ok := sendChan.Receive();
        if !ok {
          written := written + [Frame(CloseMessage, [])];
          exited := true;
          unregisterChan.Send(this);
          return;
        }
        written := written + [Frame(BinaryMessage, data)];
      }
    }
  }
}
