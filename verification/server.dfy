/**
 * The MQTT server's event handler: the global subscription list and what
 * each event does to it and to the connections.
 */
module Server {
  import opened Mqtt
  import opened Registry

  /** A decoded MQTT command, as the codec hands it over. */
  datatype Command =
    | Connect(dgram: seq<byte>)                     // the whole CONNECT frame
    | Subscribe(id: u16, requests: seq<Request>)    // packet id and (topic, qos) pairs
    | Publish(topic: Topic, data: seq<byte>)
    | OtherCmd(kind: byte)                          // any other command type

  /** An event delivered to the handler for one connection. */
  datatype Event =
    | MqttCmd(cmd: Command)
    | Accept
    | Close
    | OtherEvent

  /** The broker: the subscription list, the glob matcher it routes with,
      and a record of everything it has sent or reported on connections. */
  class Broker {
    var subs: seq<Sub>
    ghost var log: seq<Action>
    const glob: (Topic, Topic) -> bool

    /** Every stored pattern has had its '+' rewritten. */
    ghost predicate Valid()
      reads this
    {
      forall x :: x in subs ==> '+' !in x.pattern
    }

    /** The server starts with an empty list. */
    constructor (glob: (Topic, Topic) -> bool)
      ensures Valid()
      ensures subs == [] && log == [] && this.glob == glob
    {
      this.glob := glob;
      subs := [];
      log := [];
    }

    /** CONNECT: refuse a short frame, then a wrong protocol level;
        otherwise acknowledge. The list is not touched. */
    method OnConnect(c: Conn, dgram: seq<byte>)
      modifies this`log
      ensures subs == old(subs)
      ensures log == old(log) + ConnectReply(c, dgram)
    {
      if |dgram| < MIN_CONNECT_LEN {
        log := log + [Fail(c, Malformed)];
      } else if dgram[VERSION_OFFSET] != PROTOCOL_LEVEL {
        log := log + [Fail(c, UnsupportedVersion(dgram[VERSION_OFFSET]))];
      } else {
        var response: seq<byte> := [0, 0];
        log := log + [Send(c, Header(CONNACK, 0, |response|))];
        log := log + [Send(c, Raw(response))];
      }
    }

    /** SUBSCRIBE: push one node per request onto the list, then answer
        with a SUBACK. The reply buffer holds 256 granted values. */
    method OnSubscribe(c: Conn, id: u16, requests: seq<Request>)
      requires Valid()
      requires |requests| <= 256
      modifies this`subs, this`log
      ensures Valid()
      ensures subs == SubscribeAll(old(subs), c, requests)
      ensures log == old(log) + SubAckReply(c, id, Granted(requests))
    {
      var resp := new byte[256];
      var n := 0;
      while n < |requests|
        invariant 0 <= n <= |requests|
        invariant Valid()
        invariant subs == SubscribeAll(old(subs), c, requests[..n])
        invariant resp[..n] == Granted(requests[..n])
        invariant log == old(log)
      {
        var pattern := StoredPattern(requests[n].topic);
        subs := [Sub(c, pattern, requests[n].qos)] + subs;
        resp[n] := requests[n].qos;
        n := n + 1;
        assert requests[..n][..n - 1] == requests[..n - 1];
      }
      assert requests[..n] == requests;
      log := log + [Send(c, Header(SUBACK, 0, n + 2))];
      log := log + [Send(c, Raw(NetworkOrder(id)))];
      log := log + [Send(c, Raw(resp[..n]))];
    }

    /** The sends a PUBLISH causes: one per node whose pattern matches the
        topic, in list order, to that node's connection. */
    method Route(topic: Topic, data: seq<byte>) returns (out: seq<Action>)
      ensures out == Deliveries(subs, glob, topic, data)
    {
      out := [];
      var i := 0;
      while i < |subs|
        invariant 0 <= i <= |subs|
        invariant out == Deliveries(subs[..i], glob, topic, data)
      {
        var sub := subs[i];
        if glob(sub.pattern, topic) {
          out := out + [Send(sub.conn, Pub(topic, data, 1, false))];
        }
        i := i + 1;
        assert subs[..i][..i - 1] == subs[..i - 1];
      }
      assert subs[..i] == subs;
    }

    /** PUBLISH: forward the message to every matching subscription. */
    method OnPublish(topic: Topic, data: seq<byte>)
      modifies this`log
      ensures subs == old(subs)
      ensures log == old(log) + Deliveries(subs, glob, topic, data)
    {
      var out := Route(topic, data);
      log := log + out;
    }

    /** Connection closed: unlink every node it owns, walking the list once. */
    method OnClose(c: Conn)
      requires Valid()
      modifies this`subs
      ensures Valid()
      ensures subs == Removed(old(subs), c)
    {
      ghost var orig := subs;
      ghost var j := 0;
      var i := 0;
      while i < |subs|
        invariant 0 <= i <= |subs| && 0 <= j <= |orig|
        invariant subs[..i] == Removed(orig[..j], c)
        invariant subs[i..] == orig[j..]
        invariant forall x :: x in subs ==> x in orig
        decreases |subs| - i
      {
        ghost var prev := subs;
        assert orig[..j + 1] == orig[..j] + [orig[j]];
        assert orig[j] == prev[i];
        if subs[i].conn != c {
          i := i + 1;
          assert subs[..i] == prev[..i - 1] + [prev[i - 1]];
        } else {
          subs := subs[..i] + subs[i + 1..];
          assert subs[..i] == prev[..i];
          assert subs[i..] == prev[i + 1..];
        }
        j := j + 1;
      }
      assert orig[j..] == [];
      assert orig[..j] == orig;
    }

    /** The event handler: dispatch on the event and the command kind. */
    method Handle(c: Conn, ev: Event)
      requires Valid()
      requires ev.MqttCmd? && ev.cmd.Subscribe? ==> |ev.cmd.requests| <= 256
      modifies this`subs, this`log
      ensures Valid()
      ensures ev.MqttCmd? && ev.cmd.Connect? ==>
                subs == old(subs) && log == old(log) + ConnectReply(c, ev.cmd.dgram)
      ensures ev.MqttCmd? && ev.cmd.Subscribe? ==>
                subs == SubscribeAll(old(subs), c, ev.cmd.requests) &&
                log == old(log) + SubAckReply(c, ev.cmd.id, Granted(ev.cmd.requests))
      ensures ev.MqttCmd? && ev.cmd.Publish? ==>
                subs == old(subs) && log == old(log) + Deliveries(subs, glob, ev.cmd.topic, ev.cmd.data)
      ensures ev.Close? ==> subs == Removed(old(subs), c) && log == old(log)
      ensures ev.Accept? || ev.OtherEvent? || (ev.MqttCmd? && ev.cmd.OtherCmd?) ==>
                subs == old(subs) && log == old(log)
    {
      match ev
      case MqttCmd(cmd) =>
        match cmd {
          case Connect(dgram) => OnConnect(c, dgram);
          case Subscribe(id, requests) => OnSubscribe(c, id, requests);
          case Publish(topic, data) => OnPublish(topic, data);
          case OtherCmd(_) =>
        }
      case Accept =>
      case Close => OnClose(c);
      case OtherEvent =>
    }
  }
}
