/**
 * The hub's registry as a value. The control loop of `WebSocketHandler.Run`
 * takes one event at a time and runs it to completion, so the registry after
 * a sequence of events, and the buffers each client is handed, are functions
 * of that sequence. Client identity is a type parameter; the hub uses its
 * client objects (the Go map is keyed by `*Client`).
 */
module Registry {
  import opened Wire

  /** One value taken by the control loop from its register, unregister or broadcast channel. */
  datatype Event<T> = Register(client: T) | Unregister(client: T) | Broadcast(data: Bytes)

  /** The registry after one event: register is a map assignment, unregister deletes only a present key. */
  function Apply<T(==)>(reg: set<T>, e: Event<T>): (r: set<T>)
    ensures e.Register? ==> e.client in r
    ensures e.Unregister? ==> e.client !in r
    ensures e.Broadcast? ==> r == reg
    ensures !e.Broadcast? ==> r - {e.client} == reg - {e.client}
  {
    match e
    case Register(c) => reg + {c}
    case Unregister(c) => if c in reg then reg - {c} else reg
    case Broadcast(_) => reg
  }

  /** The registry after processing `events` in order, starting from `reg`. */
  function After<T(==)>(reg: set<T>, events: seq<Event<T>>): set<T>
    decreases |events|
  {
    if events == [] then reg
    else Apply(After(reg, events[..|events| - 1]), events[|events| - 1])
  }

  /** Every client some event of `events` registers. */
  function Registered<T(==)>(events: seq<Event<T>>): set<T>
  {
    set i | 0 <= i < |events| && events[i].Register? :: events[i].client
  }

  /** Every client that may be in the registry while `events` are processed. */
  function Pool<T(==)>(reg: set<T>, events: seq<Event<T>>): set<T>
  {
    reg + Registered(events)
  }

  /** The payloads of the broadcast events, in order. */
  function Broadcasts<T>(events: seq<Event<T>>): seq<Bytes>
    decreases |events|
  {
    if events == [] then []
    else
      var e := events[|events| - 1];
      Broadcasts(events[..|events| - 1]) + if e.Broadcast? then [e.data] else []
  }

  /**
   * The buffers handed to client `c`: the payload of each broadcast event at
   * which `c` is in the registry, in order.
   */
  function Deliveries<T(==)>(c: T, reg: set<T>, events: seq<Event<T>>): seq<Bytes>
    decreases |events|
  {
    if events == [] then []
    else
      var prefix, e := events[..|events| - 1], events[|events| - 1];
      Deliveries(c, reg, prefix) + if e.Broadcast? && c in After(reg, prefix) then [e.data] else []
  }

  /** No event of `events` from index `from` on unregisters `c`. */
  predicate NotUnregisteredFrom<T(==)>(c: T, events: seq<Event<T>>, from: nat)
  {
    forall j :: from <= j < |events| ==> events[j] != Unregister(c)
  }

  /**
   * The independent description of membership: `c` was in the registry at the
   * start or was registered by some event, and no later event unregistered it.
   */
  predicate StillRegistered<T(==)>(c: T, reg: set<T>, events: seq<Event<T>>)
  {
    || (c in reg && NotUnregisteredFrom(c, events, 0))
    || exists i :: 0 <= i < |events| && events[i] == Register(c) && NotUnregisteredFrom(c, events, i + 1)
  }

  /** The distinct clients registered by `events` and not unregistered since. */
  function LiveClients<T(==)>(events: seq<Event<T>>): set<T>
  {
    set c | c in Registered(events) && StillRegistered(c, {}, events)
  }

  /** Membership after a sequence of events is exactly `StillRegistered`. */
  lemma {:induction false} MembershipAfter<T>(c: T, reg: set<T>, events: seq<Event<T>>)
    ensures c in After(reg, events) <==> StillRegistered(c, reg, events)
    decreases |events|
  {
    if events != [] {
      var n := |events| - 1;
      var p, e := events[..n], events[n];
      MembershipAfter(c, reg, p);
      assert forall j :: 0 <= j < n ==> p[j] == events[j];
      if e == Register(c) {
        assert NotUnregisteredFrom(c, events, n + 1);
      } else if e == Unregister(c) {
        assert !NotUnregisteredFrom(c, events, 0);
        forall i | 0 <= i < |events| && events[i] == Register(c)
          ensures !NotUnregisteredFrom(c, events, i + 1)
        {
          assert i < n;
        }
      } else {
        assert NotUnregisteredFrom(c, events, 0) <==> NotUnregisteredFrom(c, p, 0);
        if i :| 0 <= i < |events| && events[i] == Register(c) && NotUnregisteredFrom(c, events, i + 1) {
          assert i < n;
          assert NotUnregisteredFrom(c, p, i + 1);
        }
        if i :| 0 <= i < |p| && p[i] == Register(c) && NotUnregisteredFrom(c, p, i + 1) {
          assert events[i] == Register(c) && NotUnregisteredFrom(c, events, i + 1);
        }
      }
    }
  }

  /**
   * The registry's size (the total logged after every register and unregister)
   * is the number of distinct clients registered and not unregistered since.
   */
  lemma RegistrySize<T>(events: seq<Event<T>>)
    ensures After({}, events) == LiveClients(events)
    ensures |After({}, events)| == |LiveClients(events)|
  {
    forall c | c in After({}, events)
      ensures c in LiveClients(events)
    {
      MembershipAfter(c, {}, events);
      var i :| 0 <= i < |events| && events[i] == Register(c) && NotUnregisteredFrom(c, events, i + 1);
      assert events[i].client == c;
    }
    forall c | c in LiveClients(events)
      ensures c in After({}, events)
    {
      MembershipAfter(c, {}, events);
    }
  }

  /** Registering an already registered client leaves the registry, and so its size, as it was. */
  lemma RegisterIdempotent<T>(reg: set<T>, events: seq<Event<T>>, c: T)
    ensures c in After(reg, events + [Register(c)])
    ensures |After(reg, events + [Register(c)])| == |After(reg, events)| + if c in After(reg, events) then 0 else 1
    ensures c in After(reg, events) ==> After(reg, events + [Register(c)]) == After(reg, events)
  {
    assert (events + [Register(c)])[..|events|] == events;
    var before := After(reg, events);
    assert After(reg, events + [Register(c)]) == before + {c};
    if c !in before {
      assert |before + {c}| == |before| + 1;
    } else {
      assert before + {c} == before;
    }
  }

  /** Unregistering twice in a row has the same effect as unregistering once. */
  lemma UnregisterIdempotent<T>(reg: set<T>, events: seq<Event<T>>, c: T)
    ensures c !in After(reg, events + [Unregister(c)])
    ensures After(reg, events + [Unregister(c), Unregister(c)]) == After(reg, events + [Unregister(c)])
    ensures Deliveries(c, reg, events + [Unregister(c), Unregister(c)]) == Deliveries(c, reg, events)
  {
    var once, twice := events + [Unregister(c)], events + [Unregister(c), Unregister(c)];
    assert once[..|events|] == events;
    assert twice[..|once|] == once;
  }

  /** Processing `a` and then `b` is processing `a + b`, for the registry and for every client's deliveries. */
  lemma {:induction false} DeliveriesAppend<T>(c: T, reg: set<T>, a: seq<Event<T>>, b: seq<Event<T>>)
    ensures After(reg, a + b) == After(After(reg, a), b)
    ensures Deliveries(c, reg, a + b) == Deliveries(c, reg, a) + Deliveries(c, After(reg, a), b)
    decreases |b|
  {
    if b == [] {
      assert a + b == a;
    } else {
      var n := |b| - 1;
      DeliveriesAppend(c, reg, a, b[..n]);
      assert (a + b)[..|a + b| - 1] == a + b[..n];
      assert (a + b)[|a + b| - 1] == b[n];
    }
  }

  /** What a client has been handed after a prefix of the events is a prefix of what it is handed in all. */
  lemma DeliveriesPrefix<T>(c: T, reg: set<T>, events: seq<Event<T>>, i: nat)
    requires i <= |events|
    ensures Deliveries(c, reg, events[..i]) <= Deliveries(c, reg, events)
  {
    DeliveriesAppend(c, reg, events[..i], events[i..]);
    assert events[..i] + events[i..] == events;
  }

  /** A client neither registered at the start nor by any event is handed nothing. */
  lemma {:induction false} NeverRegisteredReceivesNothing<T>(c: T, reg: set<T>, events: seq<Event<T>>)
    requires c !in reg && c !in Registered(events)
    ensures c !in After(reg, events)
    ensures Deliveries(c, reg, events) == []
    decreases |events|
  {
    if events != [] {
      var n := |events| - 1;
      var p := events[..n];
      assert Registered(p) <= Registered(events) by {
        forall x | x in Registered(p) ensures x in Registered(events) {
          var i :| 0 <= i < |p| && p[i].Register? && p[i].client == x;
          assert events[i] == p[i];
        }
      }
      NeverRegisteredReceivesNothing(c, reg, p);
      if events[n].Register? {
        assert events[n].client in Registered(events);
      }
    }
  }

  /** A client registered at the start and never unregistered is handed every broadcast, in order. */
  lemma {:induction false} RegisteredThroughoutReceivesAll<T>(c: T, reg: set<T>, events: seq<Event<T>>)
    requires c in reg && NotUnregisteredFrom(c, events, 0)
    ensures c in After(reg, events)
    ensures Deliveries(c, reg, events) == Broadcasts(events)
    decreases |events|
  {
    if events != [] {
      var n := |events| - 1;
      var p := events[..n];
      assert forall j :: 0 <= j < n ==> p[j] == events[j];
      assert events[n] != Unregister(c);
      RegisteredThroughoutReceivesAll(c, reg, p);
    }
  }

  /**
   * A client that joins late is not handed the broadcasts made before it
   * joined: if neither `reg` nor `a` registers `c`, it is handed only what
   * `b` delivers, starting from the registry `a` leaves.
   */
  lemma LateJoinerMissesEarlier<T>(c: T, reg: set<T>, a: seq<Event<T>>, b: seq<Event<T>>)
    requires c !in reg && c !in Registered(a)
    ensures Deliveries(c, reg, a + b) == Deliveries(c, After(reg, a), b)
  {
    DeliveriesAppend(c, reg, a, b);
    NeverRegisteredReceivesNothing(c, reg, a);
  }

  /**
   * A client that has been unregistered is handed nothing more until it is
   * registered again: broadcasts after its removal do not reach it.
   */
  lemma DepartedReceivesNothing<T>(c: T, reg: set<T>, a: seq<Event<T>>, b: seq<Event<T>>)
    requires c !in Registered(b)
    ensures Deliveries(c, reg, a + [Unregister(c)] + b) == Deliveries(c, reg, a)
  {
    var a' := a + [Unregister(c)];
    DeliveriesAppend(c, reg, a', b);
    assert a'[..|a|] == a;
    assert c !in After(reg, a');
    NeverRegisteredReceivesNothing(c, After(reg, a'), b);
  }
}
