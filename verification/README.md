# MQTT example server: subscription list and event handler

This project models the core of the Mongoose MQTT example server. The server
keeps one global singly linked list of subscriptions. Each node holds an
owning connection, a topic pattern and a QoS. One event handler acts on that
list:

- **CONNECT**: the frame is checked. A frame shorter than 9 bytes is
  malformed. A protocol level byte at offset 8 other than 4 is refused.
  Otherwise the server sends a two-byte CONNACK.
- **SUBSCRIBE**: one node is pushed onto the head of the list for each
  requested (topic, qos) pair. Every `+` of the stored copy of the topic
  becomes `*`. The server then answers with a SUBACK that echoes the packet
  identifier and lists the requested QoS values.
- **PUBLISH**: the list is walked from its head. The message is forwarded,
  with QoS 1 and retain off, to the connection of every node whose pattern
  glob-matches the topic.
- **Close**: every node owned by the closing connection is unlinked.
- Every other command or event is ignored.

Layout:

- `mqtt.dfy`, module `Mqtt`: bytes, the opaque connection handle, packets,
  the CONNECT check, and the CONNACK and SUBACK replies.
- `registry.dfy`, module `Registry`: the list as a `seq<Sub>` whose index 0
  is the head of the linked list. It holds the functions that say what
  SUBSCRIBE, PUBLISH and close do to the list or send. It also holds the
  lemmas about them and the `+`-rewriting loop.
- `server.dfy`, module `Server`: the class `Broker`. Its field `subs` is the
  list. Its ghost field `log` records every outbound call (header, raw bytes,
  publish) and every error raised on a connection. It has one method per
  event and the dispatching `Handle`.

The glob matcher is the `Broker` field `glob`, a function fixed when the
broker is built. The lemmas take the matcher as a parameter, so they hold
for any matcher.

Points where the code may differ from what a reader expects:

- There is no per-connection session state. SUBSCRIBE and PUBLISH are
  handled whether or not CONNECT came first. Close is idempotent because
  removing a connection's nodes twice removes nothing the second time, not
  because of a state check.
- A refused CONNECT sends no acknowledgement. It raises an error on the
  connection (`Fail`).
- The list is ordered. New nodes go to the head, and PUBLISH walks it in
  that order.
- Whether `+` matches exactly one level is up to the glob matcher. The model
  does not fix this, and it proves only that every `+` is stored as `*`.

## Model

| member | source | states |
|---|---|---|
| `Mqtt.CheckConnect` | examples/mqtt-server/main.c:41-49 | The frame is malformed exactly when it is shorter than 9 bytes. The version is refused exactly when the frame is long enough and byte 8 is not 4; the error carries byte 8. The frame is accepted exactly when byte 8 is 4. |
| `Mqtt.ConnectReply` | examples/mqtt-server/main.c:41-49 | A short frame yields only the malformed-frame error. A wrong version yields only the unsupported-version error with the offending byte. An accepted frame yields a CONNACK header with remaining length 2, then the body `[0, 0]`. Everything is on the connecting client. |
| `Mqtt.NetworkOrder` | examples/mqtt-server/main.c:74-75 | The packet id goes out as two bytes that read back, high byte first, as the id. |
| `Mqtt.SubAckReply` | examples/mqtt-server/main.c:73-76 | Three sends on the subscriber. First a SUBACK header whose remaining length equals the bytes that follow (k+2). Then the echoed id. Then exactly the granted list. |
| `Registry.ToPattern` | examples/mqtt-server/main.c:67-70 | The stored pattern has the topic's length. Each `+` is `*` and every other character is unchanged, so no `+` remains. |
| `Registry.ToPatternIdempotent` | examples/mqtt-server/main.c:67-70 | Rewriting an already stored pattern changes nothing. |
| `Registry.Entry` | examples/mqtt-server/main.c:60-63 | The node a request adds is owned by the subscriber and carries the requested QoS. Its pattern is as long as the topic and contains no `+`. |
| `Registry.Granted` | examples/mqtt-server/main.c:71 | One granted value per request: value k is the QoS of request k, in request order. |
| `Registry.SubscribeAll` | examples/mqtt-server/main.c:59-64 | The list grows by exactly one node per request. Every node not already there belongs to the subscriber and has no `+` in its pattern. |
| `Registry.StoredPattern` | examples/mqtt-server/main.c:62-70 | The loop over a fresh copy of the topic leaves exactly `ToPattern` of the topic. |
| `Registry.SubscribePrepends` | examples/mqtt-server/main.c:59-64 | k requests add exactly k nodes in front of the old list, which follows unchanged. Node i belongs to the subscriber and is made from request k-1-i, so the last request is at the head. |
| `Registry.Removed` | examples/mqtt-server/main.c:96-102 | A node is kept exactly when it was in the list and its owner is not the closing connection. No kept node references that connection. |
| `Registry.RemovedFront` | examples/mqtt-server/main.c:96-102 | Closing a list with one more node at its head keeps that node first exactly when another connection owns it, followed by the close of the rest. With the empty case, this fixes the order of the kept nodes. |
| `Registry.RemovedCount` | examples/mqtt-server/main.c:96-102 | Kept nodes plus the nodes the closing connection owned make up the whole list, so exactly its nodes go. |
| `Registry.RemovedKeepsOthers` | examples/mqtt-server/main.c:96-102 | For every other connection, its nodes after the close are the same nodes in the same order. |
| `Registry.RemovedNoOp` | examples/mqtt-server/main.c:96-102 | Closing a connection that owns no node leaves the list unchanged. |
| `Registry.RemovedIdempotent` | examples/mqtt-server/main.c:96-102 | Closing the same connection twice gives the same list as closing it once. |
| `Registry.SubscribeThenClose` | examples/mqtt-server/main.c:59-64 | Any SUBSCRIBE by a connection followed by its close leaves the list as the close alone would. |
| `Registry.Matching` | examples/mqtt-server/main.c:83-85 | The walk selects exactly the nodes whose pattern matches the topic. |
| `Registry.MatchingConcat` | examples/mqtt-server/main.c:83-85 | Selecting from two joined lists gives the selection from the first followed by the selection from the second, so selected nodes keep their list order. |
| `Registry.MatchingFront` | examples/mqtt-server/main.c:83-85 | A node at the head is selected first when it matches and is skipped otherwise. The selection from the rest follows. |
| `Registry.MatchingMultiplicity` | examples/mqtt-server/main.c:83-85 | A matching node is selected as many times as it occurs in the list. Duplicate subscriptions are not merged. |
| `Registry.MatchingAll` | examples/mqtt-server/main.c:83-85 | When every pattern matches, the whole list is selected in order. |
| `Registry.Deliveries` | examples/mqtt-server/main.c:83-88 | One send per matching node, in list order, to that node's connection. Each carries the original topic and data with QoS 1 and retain off. |
| `Registry.DeliveriesConcat` | examples/mqtt-server/main.c:83-88 | The sends for two joined lists are the sends for the first followed by the sends for the second, so deliveries go out in list order. |
| `Registry.NoMatchNoSend` | examples/mqtt-server/main.c:83-88 | A topic that no pattern matches causes no send. |
| `Registry.FanOut` | examples/mqtt-server/main.c:83-88 | When every node matches, send k goes to node k. The count equals the list length. |
| `Registry.NothingForClosed` | examples/mqtt-server/main.c:83-102 | After a connection closes, no PUBLISH sends anything to it. |
| `Registry.FooBar` | examples/mqtt-server/main.c:7-8 | One client subscribes to `foo` and `bar` in one SUBSCRIBE. A publish on `foo` then reaches that client exactly once, with the data unchanged. |
| `Server.Broker.constructor` | examples/mqtt-server/main.c:23 | The broker starts with an empty list and nothing sent. |
| `Server.Broker.OnConnect` | examples/mqtt-server/main.c:38-51 | The list is untouched and the log grows by exactly `ConnectReply`. |
| `Server.Broker.OnSubscribe` | examples/mqtt-server/main.c:52-78 | For at most 256 requests, the list becomes `SubscribeAll` of the old list. The log grows by exactly the SUBACK of the requested QoS values. No stored pattern contains `+`. |
| `Server.Broker.Route` | examples/mqtt-server/main.c:83-88 | The walk over the list returns exactly `Deliveries` for the topic and data. |
| `Server.Broker.OnPublish` | examples/mqtt-server/main.c:79-90 | The list is untouched and the log grows by exactly `Deliveries`. |
| `Server.Broker.OnClose` | examples/mqtt-server/main.c:94-102 | Unlinking in place leaves exactly `Removed` of the old list. |
| `Server.Broker.Handle` | examples/mqtt-server/main.c:32-105 | Each event kind has exactly its branch's effect. Other commands, accept and other events change neither the list nor the log. |

## Left out

- `main` (examples/mqtt-server/main.c:107-117): event manager setup, the poll loop and signal handling are process plumbing.
- Logging, `mg_ntoa` and `ip_buf`: no effect on the list or on what is sent.
- Wire encoding: `mg_mqtt_send_header`, `mg_send` and `mg_mqtt_pub` are library calls whose code is not part of this model. Each call is one `Send` record carrying its arguments.
- Decoding: `mg_mqtt_next_sub` is not part of this model. A SUBSCRIBE arrives as an already decoded sequence of (topic, qos) requests, and a CONNECT as its raw frame.
- `mg_globmatch` is not part of this model. The matcher is the broker's `glob` function, and the lemmas hold for any matcher.
- `mg_error` is not part of this model. It is recorded as a `Fail` record; its text and the closing of the connection it triggers are not modelled.
- The QoS of an incoming PUBLISH is only logged (main.c:36 logs it for every command), and its retain flag is never read. The `Publish` command carries neither.
- Memory: `calloc`, `mg_strdup`, and the nodes and strings that `LIST_DELETE` never frees have no counterpart in a sequence.
- `Server.Broker.OnSubscribe`: requires at most 256 requests. The source writes the granted QoS values into a 256-byte stack buffer without a bound check, so a longer request would overrun it.
- Topics and patterns are `string` (sequences of characters), while the source's `mg_str` holds raw bytes. The only character the model inspects is the ASCII `+`, and the matcher is abstract, so nothing depends on the difference.
- Concurrency: the server runs on one single-threaded event loop.
