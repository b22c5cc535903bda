/**
 * The subscription list `s_subs` as a sequence (index 0 is the head of the
 * linked list), the functions that say what each handler does to it, and
 * the properties of those functions.
 *
 * Every list function is defined by recursion on the LAST element, so that
 * a loop that has walked the first i nodes has computed the function of
 * the first i nodes.
 */
module Registry {
  import opened Mqtt

  /** One (topic, qos) pair of a decoded SUBSCRIBE request. */
  datatype Request = Request(topic: Topic, qos: byte)

  /** One node of the list: its owner, its stored pattern, its QoS. */
  datatype Sub = Sub(conn: Conn, pattern: Topic, qos: byte)

  /** How one character of a requested topic is stored: the single-level
      wildcard '+' becomes '*', which is what the glob matcher understands. */
  function Star(ch: char): char
  {
    if ch == '+' then '*' else ch
  }

  /** The stored pattern for a requested topic. */
  function ToPattern(t: Topic): (p: Topic)
    ensures |p| == |t|
    ensures forall k :: 0 <= k < |t| ==> p[k] == (if t[k] == '+' then '*' else t[k])
    ensures '+' !in p
  {
    if t == [] then [] else ToPattern(t[..|t| - 1]) + [Star(t[|t| - 1])]
  }

  /** Storing a pattern twice changes nothing more. */
  lemma ToPatternIdempotent(t: Topic)
    ensures ToPattern(ToPattern(t)) == ToPattern(t)
  {
  }

  /** mg_strdup of the requested topic, then the in-place rewrite of every
      '+' of the copy into '*'. */
  method StoredPattern(topic: Topic) returns (pattern: Topic)
    ensures pattern == ToPattern(topic)
  {
    var buf := new char[|topic|](k requires 0 <= k < |topic| => topic[k]);
    for i := 0 to buf.Length
      invariant forall k :: 0 <= k < i ==> buf[k] == Star(topic[k])
      invariant forall k :: i <= k < buf.Length ==> buf[k] == topic[k]
    {
      if buf[i] == '+' {
        buf[i] := '*';
      }
    }
    pattern := buf[..];
  }

  /** The node a request adds for connection `c`: owned by `c`, with the
      requested QoS and a pattern as long as the topic and free of '+'. */
  function Entry(c: Conn, rq: Request): (x: Sub)
    ensures x.conn == c && x.qos == rq.qos
    ensures |x.pattern| == |rq.topic| && '+' !in x.pattern
  {
    Sub(c, ToPattern(rq.topic), rq.qos)
  }

  /** The granted QoS list of a SUBACK, one value appended per request. */
  function Granted(rs: seq<Request>): (g: seq<byte>)
    ensures |g| == |rs|
    ensures forall k :: 0 <= k < |rs| ==> g[k] == rs[k].qos
  {
    if rs == [] then [] else Granted(rs[..|rs| - 1]) + [rs[|rs| - 1].qos]
  }

  /** The list after `c` subscribes to `rs`: each request in turn is pushed
      onto the head of the list. */
  function SubscribeAll(s: seq<Sub>, c: Conn, rs: seq<Request>): (r: seq<Sub>)
    ensures |r| == |s| + |rs|
    ensures forall x :: x in r && x !in s ==> x.conn == c && '+' !in x.pattern
  {
    if rs == [] then s else [Entry(c, rs[|rs| - 1])] + SubscribeAll(s, c, rs[..|rs| - 1])
  }

  /** A SUBSCRIBE of k requests puts k entries owned by `c` in front of the
      old list, the last request first, and leaves the old list behind them. */
  lemma {:induction false} SubscribePrepends(s: seq<Sub>, c: Conn, rs: seq<Request>)
    ensures |SubscribeAll(s, c, rs)| == |rs| + |s|
    ensures SubscribeAll(s, c, rs)[|rs|..] == s
    ensures forall k :: 0 <= k < |rs| ==> SubscribeAll(s, c, rs)[k] == Entry(c, rs[|rs| - 1 - k])
  {
    if rs != [] {
      var front := rs[..|rs| - 1];
      SubscribePrepends(s, c, front);
      var r := SubscribeAll(s, c, rs);
      assert r == [Entry(c, rs[|rs| - 1])] + SubscribeAll(s, c, front);
      forall k | 0 <= k < |rs|
        ensures r[k] == Entry(c, rs[|rs| - 1 - k])
      {
        if k > 0 {
          assert r[k] == SubscribeAll(s, c, front)[k - 1];
        }
      }
    }
  }

  /** The list after `c` closes: every node owned by `c` is unlinked. */
  function Removed(s: seq<Sub>, c: Conn): (r: seq<Sub>)
    ensures forall x :: x in r <==> x in s && x.conn != c
    ensures |r| <= |s|
  {
    if s == [] then []
    else
      var rest := Removed(s[..|s| - 1], c);
      if s[|s| - 1].conn == c then rest else rest + [s[|s| - 1]]
  }

  /** The nodes of `s` owned by `d`, in list order. */
  function OwnedBy(s: seq<Sub>, d: Conn): (r: seq<Sub>)
    ensures forall x :: x in r <==> x in s && x.conn == d
  {
    if s == [] then []
    else
      var rest := OwnedBy(s[..|s| - 1], d);
      if s[|s| - 1].conn == d then rest + [s[|s| - 1]] else rest
  }

  /** Closing removes exactly the nodes owned by `c`: the kept and the
      removed nodes together are the whole list. */
  lemma {:induction false} RemovedCount(s: seq<Sub>, c: Conn)
    ensures |Removed(s, c)| + |OwnedBy(s, c)| == |s|
  {
    if s != [] {
      RemovedCount(s[..|s| - 1], c);
    }
  }

  /** Closing `c` leaves the nodes of every other connection as they were,
      in the same relative order. */
  lemma {:induction false} RemovedKeepsOthers(s: seq<Sub>, c: Conn, d: Conn)
    requires d != c
    ensures OwnedBy(Removed(s, c), d) == OwnedBy(s, d)
  {
    if s != [] {
      var front, last := s[..|s| - 1], s[|s| - 1];
      RemovedKeepsOthers(front, c, d);
      if last.conn != c {
        var rest := Removed(front, c);
        assert (rest + [last])[..|rest|] == rest;
      }
    }
  }

  /** Closing a connection that owns nothing is a no-op. */
  lemma {:induction false} RemovedNoOp(s: seq<Sub>, c: Conn)
    requires forall x :: x in s ==> x.conn != c
    ensures Removed(s, c) == s
  {
    if s != [] {
      RemovedNoOp(s[..|s| - 1], c);
      assert s[..|s| - 1] + [s[|s| - 1]] == s;
    }
  }

  /** Closing twice is the same as closing once. */
  lemma RemovedIdempotent(s: seq<Sub>, c: Conn)
    ensures Removed(Removed(s, c), c) == Removed(s, c)
  {
    RemovedNoOp(Removed(s, c), c);
  }

  /** Subscribing `c` and then closing it leaves the list as closing alone
      would: nothing of the subscription survives the close. */
  lemma {:induction false} SubscribeThenClose(s: seq<Sub>, c: Conn, rs: seq<Request>)
    ensures Removed(SubscribeAll(s, c, rs), c) == Removed(s, c)
  {
    if rs != [] {
      var rest := SubscribeAll(s, c, rs[..|rs| - 1]);
      SubscribeThenClose(s, c, rs[..|rs| - 1]);
      RemovedFront(Entry(c, rs[|rs| - 1]), rest, c);
    }
  }

  /** Unlinking from a list with one more node at its head. */
  lemma {:induction false} RemovedFront(x: Sub, s: seq<Sub>, c: Conn)
    ensures Removed([x] + s, c) == (if x.conn == c then [] else [x]) + Removed(s, c)
  {
    if s != [] {
      var front, last := s[..|s| - 1], s[|s| - 1];
      assert ([x] + s)[..|s|] == [x] + front;
      RemovedFront(x, front, c);
    } else {
      assert ([x] + s)[..0] == [];
    }
  }

  /** The nodes whose pattern matches `topic`, in list order. */
  function Matching(s: seq<Sub>, matches: (Topic, Topic) -> bool, topic: Topic): (r: seq<Sub>)
    ensures forall x :: x in r <==> x in s && matches(x.pattern, topic)
  {
    if s == [] then []
    else
      var rest := Matching(s[..|s| - 1], matches, topic);
      if matches(s[|s| - 1].pattern, topic) then rest + [s[|s| - 1]] else rest
  }

  /** A node that matches occurs in the matching nodes exactly as often as
      in the list: duplicate subscriptions are kept, not merged. */
  lemma {:induction false} MatchingMultiplicity(s: seq<Sub>, matches: (Topic, Topic) -> bool, topic: Topic, x: Sub)
    ensures multiset(Matching(s, matches, topic))[x] == if matches(x.pattern, topic) then multiset(s)[x] else 0
  {
    if s != [] {
      var front, last := s[..|s| - 1], s[|s| - 1];
      MatchingMultiplicity(front, matches, topic, x);
      assert s == front + [last];
      assert multiset(s) == multiset(front) + multiset{last};
    }
  }

  /** Selecting from two lists joined is selecting from each in turn: the
      walk keeps the nodes in list order. */
  lemma {:induction false} MatchingConcat(s1: seq<Sub>, s2: seq<Sub>, matches: (Topic, Topic) -> bool, topic: Topic)
    ensures Matching(s1 + s2, matches, topic) == Matching(s1, matches, topic) + Matching(s2, matches, topic)
  {
    if s2 == [] {
      assert s1 + s2 == s1;
    } else {
      var front, last := s2[..|s2| - 1], s2[|s2| - 1];
      MatchingConcat(s1, front, matches, topic);
      assert (s1 + s2)[..|s1 + s2| - 1] == s1 + front;
    }
  }

  /** A node at the head is selected first, if it matches at all. */
  lemma MatchingFront(x: Sub, s: seq<Sub>, matches: (Topic, Topic) -> bool, topic: Topic)
    ensures Matching([x] + s, matches, topic) == (if matches(x.pattern, topic) then [x] else []) + Matching(s, matches, topic)
  {
    MatchingConcat([x], s, matches, topic);
    assert [x][..0] == [];
  }

  /** When every node matches, every node is a destination. */
  lemma {:induction false} MatchingAll(s: seq<Sub>, matches: (Topic, Topic) -> bool, topic: Topic)
    requires forall x :: x in s ==> matches(x.pattern, topic)
    ensures Matching(s, matches, topic) == s
  {
    if s != [] {
      MatchingAll(s[..|s| - 1], matches, topic);
      assert s[..|s| - 1] + [s[|s| - 1]] == s;
    }
  }

  /** The PUBLISH that goes to one subscriber: the original topic and data,
      QoS 1, retain off. */
  function Delivery(to: Conn, topic: Topic, data: seq<byte>): Action
  {
    Send(to, Pub(topic, data, 1, false))
  }

  /** The sends a PUBLISH of (`topic`, `data`) causes, walking the list. */
  function Deliveries(s: seq<Sub>, matches: (Topic, Topic) -> bool, topic: Topic, data: seq<byte>): (r: seq<Action>)
    ensures |r| == |Matching(s, matches, topic)|
    ensures forall k :: 0 <= k < |r| ==> r[k] == Delivery(Matching(s, matches, topic)[k].conn, topic, data)
  {
    if s == [] then []
    else
      var rest := Deliveries(s[..|s| - 1], matches, topic, data);
      if matches(s[|s| - 1].pattern, topic) then rest + [Delivery(s[|s| - 1].conn, topic, data)] else rest
  }

  /** The sends for two lists joined are the sends for the first, then those
      for the second: deliveries go out in list order. */
  lemma DeliveriesConcat(s1: seq<Sub>, s2: seq<Sub>, matches: (Topic, Topic) -> bool, topic: Topic, data: seq<byte>)
    ensures Deliveries(s1 + s2, matches, topic, data) ==
            Deliveries(s1, matches, topic, data) + Deliveries(s2, matches, topic, data)
  {
    MatchingConcat(s1, s2, matches, topic);
  }

  /** A topic no pattern matches is delivered to nobody. */
  lemma NoMatchNoSend(s: seq<Sub>, matches: (Topic, Topic) -> bool, topic: Topic, data: seq<byte>)
    requires forall x :: x in s ==> !matches(x.pattern, topic)
    ensures Deliveries(s, matches, topic, data) == []
  {
  }

  /** Fan-out: when every node matches, each node receives exactly one
      copy of the message, in list order. */
  lemma FanOut(s: seq<Sub>, matches: (Topic, Topic) -> bool, topic: Topic, data: seq<byte>)
    requires forall x :: x in s ==> matches(x.pattern, topic)
    ensures |Deliveries(s, matches, topic, data)| == |s|
    ensures forall k :: 0 <= k < |s| ==> Deliveries(s, matches, topic, data)[k] == Delivery(s[k].conn, topic, data)
  {
    MatchingAll(s, matches, topic);
  }

  /** After `c` closes, no later PUBLISH sends anything to `c`. */
  lemma NothingForClosed(s: seq<Sub>, c: Conn, matches: (Topic, Topic) -> bool, topic: Topic, data: seq<byte>)
    ensures forall a :: a in Deliveries(Removed(s, c), matches, topic, data) ==> a.conn != c
  {
  }

  /** The usage scenario of the server: one client subscribes to "foo" and
      "bar" in one SUBSCRIBE, then a PUBLISH on "foo" with data `data`
      reaches that client once, with the data unchanged. */
  lemma FooBar(a: Conn, matches: (Topic, Topic) -> bool, data: seq<byte>)
    requires matches("foo", "foo") && !matches("bar", "foo")
    ensures Deliveries(SubscribeAll([], a, [Request("foo", 0), Request("bar", 0)]), matches, "foo", data)
            == [Delivery(a, "foo", data)]
  {
    var rs := [Request("foo", 0), Request("bar", 0)];
    assert ToPattern("foo") == "foo";
    assert ToPattern("bar") == "bar";
    assert rs[..1] == [Request("foo", 0)];
    assert rs[..1][..0] == [];
    var s := SubscribeAll([], a, rs);
    assert s == [Sub(a, "bar", 0), Sub(a, "foo", 0)];
    assert s[..1] == [Sub(a, "bar", 0)];
  }
}
