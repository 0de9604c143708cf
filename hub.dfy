/**
 * The hub (`WebSocketHandler` in stream-server.go): the registry of live
 * clients and the three arms of its control loop. Each arm runs to completion
 * before the next event is taken, so each is an ordinary method here; the
 * order in which the loop's `select` takes events is the sequence given to
 * `Run`. A blocking channel send becomes a precondition.
 */
module Hub {
  import opened Wire
  import opened Clients
  import opened Registry

  /** The send channels of a set of clients. */
  function QueuesOf(s: set<Client>): set<SendQueue>
  {
    set c | c in s :: c.sendChan
  }

  /** No two clients of `s` share a send channel (each `NewClient` makes its own). */
  ghost predicate DistinctQueues(s: set<Client>)
  {
    forall a, b :: a in s && b in s && a != b ==> a.sendChan != b.sendChan
  }

  class WebSocketHandler {
    /** The keys of `clients map[*Client]bool`; every value stored there is `true`. */
    var clients: set<Client>

    ghost predicate Valid()
      reads this, QueuesOf(clients)
    {
      && DistinctQueues(clients)
      && forall c :: c in clients ==> c.sendChan.Valid()
    }

    /** `NewWebSocketHandler`: an empty registry. */
    constructor ()
      ensures Valid() && clients == {}
    {
      clients := {};
    }

    /** The register arm: `h.clients[client] = true`, returning the total it logs. */
    method Register(client: Client) returns (total: nat)
      requires Valid() && client.sendChan.Valid()
      requires forall c :: c in clients && c != client ==> c.sendChan != client.sendChan
      modifies this
      ensures Valid()
      ensures clients == old(clients) + {client}
      ensures total == |clients| == |old(clients)| + if client in old(clients) then 0 else 1
    {
      if client in clients {
        assert clients + {client} == clients;
      } else {
        assert |clients + {client}| == |clients| + 1;
      }
      clients := clients + {client};
      total := |clients|;
    }

    /**
     * The unregister arm: deletes the client only if present, returning the
     * total it logs. It does not close the client's send channel.
     */
    method Unregister(client: Client) returns (total: nat)
      requires Valid()
      modifies this
      ensures Valid()
      ensures clients == old(clients) - {client}
      ensures total == |clients| == |old(clients)| - if client in old(clients) then 1 else 0
    {
      if client in clients {
        assert |clients - {client}| == |clients| - 1;
        clients := clients - {client};
      } else {
        assert clients - {client} == clients;
      }
      total := |clients|;
    }

    /**
     * `BroadcastData`: appends the same buffer to the send channel of every
     * registered client. The send has no `default` case, so it only completes
     * when every such channel is open and has room.
     */
    method BroadcastData(data: Bytes)
      requires Valid()
      requires forall c :: c in clients ==> !c.sendChan.closed && |c.sendChan.items| < c.sendChan.capacity
      modifies QueuesOf(clients)
      ensures Valid()
      ensures forall c :: c in clients ==> c.sendChan.items == old(c.sendChan.items) + [data]
      ensures forall c :: c in clients ==> c.sendChan.closed == old(c.sendChan.closed)
    {
      var rest := clients;
      while rest != {}
        invariant rest <= clients
        invariant forall c :: c in clients && c !in rest ==> c.sendChan.items == old(c.sendChan.items) + [data]
        invariant forall c :: c in rest ==> c.sendChan.items == old(c.sendChan.items)
        invariant forall c :: c in clients ==> c.sendChan.closed == old(c.sendChan.closed)
        decreases rest
      {
        var c :| c in rest;
        c.sendChan.Send(data);
        rest := rest - {c};
      }
    }

    /**
     * One pass of `Run`'s `select`: the register, unregister or broadcast arm
     * for the event taken. `pool` is any set of clients with distinct channels
     * that holds the registry and the client being registered; every client
     * of it is handed the buffer exactly when the event is a broadcast and the
     * client was registered.
     */
    method Serve(e: Event<Client>, ghost pool: set<Client>)
      requires Valid()
      requires clients <= pool && DistinctQueues(pool)
      requires forall c :: c in pool ==> !c.sendChan.closed
      requires e.Register? ==> e.client in pool && e.client.sendChan.Valid()
      requires e.Broadcast? ==> forall c :: c in clients ==> |c.sendChan.items| < c.sendChan.capacity
      modifies this, QueuesOf(clients)
      ensures Valid()
      ensures clients == Apply(old(clients), e) && clients <= pool
      ensures forall c :: c in pool ==> !c.sendChan.closed
      ensures forall c :: c in pool ==>
        c.sendChan.items == old(c.sendChan.items) + if e.Broadcast? && c in old(clients) then [e.data] else []
    {
      match e
      case Register(c) =>
        var _ := Register(c);
      case Unregister(c) =>
        var _ := Unregister(c);
      case Broadcast(data) =>
        assert forall c :: c in pool && c !in clients ==> c.sendChan !in QueuesOf(clients);
        BroadcastData(data);
    }

    /**
     * `Run`'s control loop over the events its `select` takes, in order. The
     * registry ends as `After` says, and every client that may be registered
     * along the way is handed exactly its `Deliveries`, appended to what its
     * channel already held. Every broadcast must find room in the channels of
     * the clients then registered.
     */
    method Run(events: seq<Event<Client>>)
      requires Valid()
      requires DistinctQueues(Pool(clients, events))
      requires forall c :: c in Pool(clients, events) ==>
        && !c.sendChan.closed
        && |c.sendChan.items| + |Deliveries(c, clients, events)| <= c.sendChan.capacity
      modifies this, QueuesOf(Pool(clients, events))
      ensures Valid()
      ensures clients == After(old(clients), events) && clients <= Pool(old(clients), events)
      ensures forall c :: c in Pool(old(clients), events) ==>
        && c.sendChan.items == old(c.sendChan.items) + Deliveries(c, old(clients), events)
        && c.sendChan.closed == old(c.sendChan.closed)
    {
      ghost var reg: set<Client> := clients;
      ghost var pool: set<Client> := Pool(clients, events);
      var i := 0;
      while i < |events|
        invariant i <= |events|
        invariant clients == After(reg, events[..i])
        invariant clients <= pool
        invariant Valid()
        invariant forall c :: c in pool ==> !c.sendChan.closed
        invariant forall c :: c in pool ==> c.sendChan.items == old(c.sendChan.items) + Deliveries(c, reg, events[..i])
      {
        ghost var prefix: seq<Event<Client>>, next: seq<Event<Client>> := events[..i], events[..i + 1];
        assert next[..i] == prefix && next[i] == events[i];
        forall c | c in pool
          ensures |old(c.sendChan.items)| + |Deliveries(c, reg, next)| <= c.sendChan.capacity
        {
          DeliveriesPrefix(c, reg, events, i + 1);
        }
        if events[i].Register? {
          assert events[i].client in Registered(events);
        }
        assert QueuesOf(clients) <= QueuesOf(pool);
        Serve(events[i], pool);
        i := i + 1;
      }
      assert events[..i] == events;
    }
  }
}
