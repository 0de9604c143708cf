# jsmpeg-stream-go relay core, modelled in Dafny

stream-server.go relays one binary media stream. A single producer POSTs it to the
ingest endpoint. Any number of browsers receive it over WebSockets. The model
covers the sequential core inside that networking glue:

- **Wire** (`wire.dfy`): byte buffers, WebSocket message types, the frames a
  connection writes and the results of its reads.
- **Clients** (`clients.dfy`): one consumer connection (`Client`). It has a
  buffered send channel of capacity 512 (`SendQueue`: a FIFO with a closed
  flag). It has the hub's unregister channel as the client sees it
  (`ClientChannel`). It has two I/O loops. `ReadHandler` is given the read
  results the transport would deliver. `WriteHandler` returns the frames it
  writes.
- **Registry** (`registry.dfy`): the hub's control loop as a function of the
  events it takes. `After` gives the registry after a sequence of
  register/unregister/broadcast events. `Deliveries` gives the buffers each
  client is handed. The lemmas state membership, size, idempotence and
  snapshot delivery. This module is generic in the client identity.
- **Hub** (`hub.dfy`): `WebSocketHandler`. Its `clients` map is a `set<Client>`,
  because every value stored in the map is `true`. It has one method per arm
  of the control loop, `BroadcastData`, and `Run`. `Run` processes events in
  the order its `select` takes them and is proved against `Registry`.
- **Ingest** (`ingest.dfy`): the forwarding loop of `HandlePost`. The body is
  the bytes it yields followed by a clean end or a read error. The error may
  come after the last byte or together with it. The loop forwards `Split(Delivered(body))`: the delivered bytes cut into pieces of
  1024.

A blocking channel operation becomes a precondition:
- a send on a full channel;
- a `select` with no `default`;
- a receive on an empty, open channel.

A Go panic also becomes a precondition: a send on a closed channel, or
closing a channel twice. When a loop would block waiting for input the model
does not supply, the loop returns with `exited == false`.

Two facts about the code shape the model:
- The unregister arm only deletes the client from the map. It does not close
  the client's send channel, and nothing in the file calls `Client.Close`.
- The broadcast send has no `default` case. A full channel blocks the
  broadcast until every registered channel has room; no buffer is dropped.

## Model

| member | source | states |
|---|---|---|
| `Wire.EndsSession` | stream-server.go:45-51 | the inbound loop goes on exactly for a successfully read text, binary, ping or pong message. A read error or a close message ends it |
| `Clients.SendQueue.constructor` | stream-server.go:26 | a new send channel is empty, open, and has the given capacity |
| `Clients.SendQueue.Send` | stream-server.go:113-116 | a send needs an open channel with room. It appends the buffer at the tail and keeps the length within the capacity |
| `Clients.SendQueue.Receive` | stream-server.go:64-65 | a receive needs a buffered entry or a closed channel. It returns the oldest entry, or `ok == false` once the channel is closed and drained |
| `Clients.SendQueue.Close` | stream-server.go:35 | closing needs an open channel (a second close panics). It closes the channel, keeps its entries and keeps the capacity bound |
| `Clients.ClientChannel.constructor` | stream-server.go:96 | the hub's unregister channel starts with no pending request |
| `Clients.ClientChannel.Send` | stream-server.go:39-41 | an unregister request is appended to the requests the hub has not yet taken |
| `Clients.Client.constructor` | stream-server.go:23-31 | `NewClient` gets a fresh, empty, open send channel of capacity 512 and keeps the hub's unregister channel |
| `Clients.Client.Close` | stream-server.go:33-36 | `Close` needs an open channel. It closes it, leaves its contents as they were and keeps the capacity bound |
| `Clients.Client.ReadHandler` | stream-server.go:38-55 | the loop exits exactly when some read result is an error or a close message. It consumes read results up to and including the first such result, and none of the results before it ends the session. On exit it sends exactly one unregister request for itself. It sends none while still blocked on the transport, and it changes nothing else |
| `Clients.Client.WriteHandler` | stream-server.go:57-74 | each buffered entry is written as one binary frame, in the order it was enqueued. If the channel is closed, exactly one close frame with an empty payload follows and nothing comes after it. The loop exits, and sends one unregister request for itself, exactly when the channel was closed |
| `Registry.Apply` | stream-server.go:125-140 | register puts the client in the registry and unregister takes it out. Neither changes any other membership, and a broadcast leaves the registry as it was |
| `Registry.MembershipAfter` | stream-server.go:125-135 | after any sequence of events, a client is registered exactly when it was registered at the start or by some event, and no later event unregistered it |
| `Registry.RegistrySize` | stream-server.go:125-135 | starting from an empty registry, the registry after any sequence of events is the set of distinct clients registered and not unregistered since. So the logged total is that set's size |
| `Registry.RegisterIdempotent` | stream-server.go:125-127 | register puts the client in the registry. The size grows by one only if the client was absent, and registering a present client changes nothing |
| `Registry.UnregisterIdempotent` | stream-server.go:130-135 | unregister removes the client. Unregistering twice in a row leaves the same registry as once, and the two unregister events hand the client nothing |
| `Registry.DeliveriesAppend` | stream-server.go:123-141 | processing `a` and then `b` gives the same registry and the same deliveries to every client as processing `a + b` |
| `Registry.DeliveriesPrefix` | stream-server.go:123-141 | what a client has been handed after a prefix of the events is a prefix of what it is handed after all of them |
| `Registry.NeverRegisteredReceivesNothing` | stream-server.go:111-118 | a client never in the registry is handed no buffer |
| `Registry.RegisteredThroughoutReceivesAll` | stream-server.go:111-118 | a client registered throughout is handed every broadcast buffer, in broadcast order |
| `Registry.LateJoinerMissesEarlier` | stream-server.go:120-143 | a client registered late is not handed the broadcasts made before it joined |
| `Registry.DepartedReceivesNothing` | stream-server.go:130-140 | after a client is unregistered, and until it is registered again, no broadcast reaches it |
| `Hub.WebSocketHandler.constructor` | stream-server.go:92-109 | a new hub has an empty registry |
| `Hub.WebSocketHandler.Register` | stream-server.go:125-128 | register adds the client, keeps every other membership, and returns the new size. The size grows by one only if the client was absent |
| `Hub.WebSocketHandler.Unregister` | stream-server.go:130-136 | unregister removes the client only if present and returns the new size. An absent client leaves the registry unchanged. No send channel is closed or touched |
| `Hub.WebSocketHandler.BroadcastData` | stream-server.go:111-118 | it completes only when every registered client's channel is open and has room. It appends the same buffer to the tail of each of those channels and keeps their earlier contents. No other channel is touched, and the capacity bound still holds |
| `Hub.WebSocketHandler.Serve` | stream-server.go:124-141 | one event of the control loop moves the registry as `Apply` says. A client's channel gains the buffer exactly when the event is a broadcast and the client was registered |
| `Hub.WebSocketHandler.Run` | stream-server.go:120-143 | after the control loop takes a sequence of events, the registry is `After` of them and holds only clients that were registered at the start or by some event. Each client's channel has gained exactly its `Deliveries`, in order, and stays open as it was. No other channel is touched |
| `Ingest.ReadChunk` | stream-server.go:202 | one limited read returns the next bytes, at most 1024 of them. It is shorter only at the end of the body. It fails when the body fails and the read reaches the error: for an error after the last byte, only a read of fewer than 1024 bytes sees it; for an error with the last byte, the read that returns that byte sees it, even a full one. A cleanly ended body never fails a read |
| `Ingest.Split` | stream-server.go:201-208 | the pieces are non-empty and at most 1024 bytes, all but the last exactly 1024. Joined in order they give back the input |
| `Ingest.Delivered` | stream-server.go:202-205 | a cleanly ended body is delivered whole. A failing body is delivered up to a multiple of 1024 and loses at most one piece of 1024 bytes. With the error after the last byte, it loses only the trailing partial piece (fewer than 1024 bytes). With the error with the last byte, it always loses the piece holding that byte, even a full one |
| `Ingest.HandlePost` | stream-server.go:198-211 | the forwarded buffers are `Split` of the delivered bytes. Each is non-empty and at most 1024 bytes, and joined in order they give back the body up to where forwarding stopped |
| `Ingest.NextPiece` | stream-server.go:201-208 | a non-empty read without error is exactly the next piece of what is left to deliver |
| `Ingest.StopAtEnd` | stream-server.go:203-205 | forwarding stops at an empty or failed read, and that happens exactly when all the delivered bytes have been forwarded |
| `Ingest.CutIsSplit` | stream-server.go:201-208 | `Split` is the only way to cut bytes into non-empty pieces of at most 1024 with all but the last full. So the forwarded buffers are determined by the body |

## Left out

- The WebSocket upgrade in `ServeWS`, including its GET-only check. Also the
  gorilla/mux routers, the `http.Server`s and `ListenAndServe`. These are
  network I/O and foreign library calls.
- `Client.Run`, which starts the two loops as goroutines. Goroutine
  scheduling in general is left out too. The multi-way `select` in `Run` is
  represented by the order of the events given to `Run`.
- Real blocking. A blocked operation is a precondition. A loop that would wait
  for input the model does not give returns `exited == false`.
- The transport. Reads are given as a sequence. Writes are returned as the
  sequence of frames written. The source ignores the errors of
  `WriteMessage`, so a write failure changes nothing in the model either.
- The hub's side of the unregister channel. `ClientChannel` collects the
  clients' requests. The hub takes them as `Unregister` events in `Run`'s
  input, so the hand-over between the two is not modelled.
- `HandlePost` calls `BroadcastData` directly from the ingest goroutine, not
  through the `broadcast` channel. That is a data race with the control loop,
  which cannot be expressed sequentially. `HandlePost` returns the buffers it
  forwards, and forwarding a buffer is a `Broadcast` event in `Run`.
- Buffers are passed as `*[]byte`, shared by reference. In the model they are
  immutable values, so aliasing between queues is not modelled.
- `ParseParams`, `main`, static file serving and all logging. The totals that
  register and unregister log are returned instead. The payloads that
  `ReadHandler` logs are only discarded.
- `Hub.WebSocketHandler.Run`: requires, before it starts, room in each client's
  channel for every buffer that client will be handed. The source would
  instead wait for the client's `WriteHandler` to make room, and that
  concurrent draining is not interleaved in the model.
