/** One exchange told on captured packets: addresses, flags, numbers, payload bytes. */
module PacketExchange {
  import opened Bytes
  import opened Wrappers
  import opened HttpText
  import opened HttpParsing
  import opened HttpRendering
  import opened RequestMatcher
  import opened ResponseFlow
  import opened SniffOperation
  import opened Delivery
  import opened HelperDaemon

  /** The next packet of a response: received, with the one acknowledgement number, and in order. */
  predicate InOrder(local: set<string>, p: Packet, received: seq<byte>, key: uint32, ack: uint32)
  {
    Receives(local, p) && p.ackNo == ack && p.seqNo == key + |received|
  }

  /** The payloads of the in-order packets, one after another. */
  function PacketStream(local: set<string>, packets: seq<Packet>, key: uint32, ack: uint32): seq<byte>
  {
    if packets == [] then []
    else
      var before, last := PacketStream(local, packets[..|packets| - 1], key, ack), packets[|packets| - 1];
      before + (if InOrder(local, last, before, key, ack) then last.payload else [])
  }

  /** A packet that is no data, or uses neither number. */
  predicate Unrelated(local: set<string>, p: Packet, key: uint32, ack: uint32)
  {
    && (Sends(local, p) ==> RequestOf(p.text).None? || p.ackNo !in {key, ack})
    && (Receives(local, p) ==> p.ackNo !in {key, ack} && p.seqNo !in {key, ack})
  }

  /** Some payload bytes hold CR LF CR LF. */
  ghost predicate HasBlankLine(data: seq<byte>)
  {
    exists i: nat :: BlankLineBytesAt(data, i)
  }

  /** Until the header is there, every packet is the next of the response or unrelated. */
  ghost predicate PacketFlow(local: set<string>, packets: seq<Packet>, key: uint32, ack: uint32)
  {
    forall i :: 0 <= i < |packets| ==>
      var received := PacketStream(local, packets[..i], key, ack);
      HasBlankLine(received) || InOrder(local, packets[i], received, key, ack) || Unrelated(local, packets[i], key, ack)
  }

  /** No packet that sends or receives data carries `ack`. */
  predicate Unused(local: set<string>, packets: seq<Packet>, ack: uint32)
  {
    forall i :: 0 <= i < |packets| && (Sends(local, packets[i]) || Receives(local, packets[i])) ==> packets[i].ackNo != ack
  }

  /** The packets among the actions. */
  function Captured(actions: seq<Action>): seq<Packet>
  {
    if actions == [] then []
    else
      var last := actions[|actions| - 1];
      Captured(actions[..|actions| - 1]) + (if last.Capture? then [last.packet] else [])
  }

  // -------------------------------------------------------------------------
  // Packets and segments
  // -------------------------------------------------------------------------

  lemma NextIffInOrder(local: set<string>, p: Packet, received: seq<byte>, key: uint32, ack: uint32)
    ensures Next(Observe(local, p), received, key, ack) <==> InOrder(local, p, received, key, ack)
    ensures InOrder(local, p, received, key, ack) ==> Observe(local, p).payload == p.payload
    ensures Unrelated(local, p, key, ack) ==> Foreign(Observe(local, p), key, ack)
  {
  }

  lemma {:induction false} StreamOfPackets(local: set<string>, packets: seq<Packet>, key: uint32, ack: uint32)
    ensures Stream(Observed(local, packets), key, ack) == PacketStream(local, packets, key, ack)
  {
    if packets != [] {
      var n := |packets| - 1;
      StreamOfPackets(local, packets[..n], key, ack);
      assert Observed(local, packets)[..n] == Observed(local, packets[..n]);
      NextIffInOrder(local, packets[n], PacketStream(local, packets[..n], key, ack), key, ack);
    }
  }

  lemma FlowOfPackets(st: State, local: set<string>, packets: seq<Packet>, key: uint32, ack: uint32)
    requires PacketFlow(local, packets, key, ack)
    ensures Flow(st, Observed(local, packets), key, ack)
  {
    var trace := Observed(local, packets);
    forall i | 0 <= i < |trace|
      ensures var received := Stream(trace[..i], key, ack);
        HeaderFinished(received) || Foreign(trace[i], key, ack) || Next(trace[i], received, key, ack)
    {
      var received := PacketStream(local, packets[..i], key, ack);
      assert trace[..i] == Observed(local, packets[..i]);
      StreamOfPackets(local, packets[..i], key, ack);
      HeaderFinishedIff(received);
      NextIffInOrder(local, packets[i], received, key, ack);
    }
    ForeignFlow(st, trace, key, ack);
  }

  /** A number that no data packet carried as its acknowledgement is no key. */
  lemma {:induction false} UnusedIsFree(local: set<string>, packets: seq<Packet>, ack: uint32)
    requires Unused(local, packets, ack)
    ensures ack !in Run(START, Observed(local, packets)).state.pending
  {
    if packets != [] {
      var n := |packets| - 1;
      var before, p := packets[..n], packets[n];
      UnusedIsFree(local, before, ack);
      assert Observed(local, packets)[..n] == Observed(local, before);
      var run := Run(START, Observed(local, before));
      if run.Running? {
        FreeStays(run.state, local, p, ack);
      }
    }
  }

  lemma FreeStays(st: State, local: set<string>, p: Packet, ack: uint32)
    requires ack !in st.pending && (Sends(local, p) || Receives(local, p) ==> p.ackNo != ack)
    ensures ack !in Step(st, Observe(local, p)).state.pending
  {
  }

  lemma {:induction false} SniffedPackets(local: set<string>, actions: seq<Action>)
    ensures Sniffed(EventsOf(local, actions)) == Observed(local, Captured(actions))
  {
    if actions != [] {
      var n := |actions| - 1;
      SniffedPackets(local, actions[..n]);
      assert EventsOf(local, actions)[..n] == EventsOf(local, actions[..n]);
    }
  }

  lemma ObservedJoin(local: set<string>, a: seq<Packet>, p: Packet, b: seq<Packet>)
    ensures Observed(local, a + [p] + b) == Observed(local, a) + [Observe(local, p)] + Observed(local, b)
  {
  }

  // -------------------------------------------------------------------------
  // The exchange
  // -------------------------------------------------------------------------

  /** `p` carries a written request under the acknowledgement number `key`. */
  predicate RequestPacket(local: set<string>, p: Packet, key: uint32, verb: string, path: string, version: string, headers: seq<Header>)
  {
    && Sends(local, p) && p.ackNo == key
    && Free(verb, IsWhitespace) && Free(path, IsWhitespace) && LineSafe(version) && Plain(headers)
    && p.text == Some(RenderHead(RenderRequestLine(verb, path, version), headers))
  }

  /** `data` is a written response with any body. */
  predicate ResponseBytes(data: seq<byte>, version: string, status: int, reason: string, headers: seq<Header>, body: seq<byte>)
  {
    && Free(version, IsWhitespace) && LineSafe(reason) && Plain(headers)
    && NS_INTEGER_MIN <= status <= NS_INTEGER_MAX
    && SentBytes(data, RenderHead(RenderStatusLine(version, status, reason), headers), body)
  }

  /** What the client should get. */
  predicate IsExchange(e: Exchange, host: string, path: string, asked: seq<Header>,
                       version: string, status: int, headers: seq<Header>)
  {
    && e.request.host == host && e.request.path == path && Holds(e.request.headers, asked)
    && e.response.status == status && e.response.version == Some(version) && Holds(e.response.headers, headers)
  }

  /**
   Packets are captured, the main thread runs blocks and the client asks for the queue, in any order. Among the
   packets, one sends a written request whose acknowledgement number is `key`; the packets after it that are received
   with acknowledgement number `ack` and sequence numbers that count up from `key` carry a written response; no packet
   before used `ack`, and until the header is there all other packets are unrelated. Then the client gets, at the next
   drain and once, this request with this response, header for header as they were written.
   */
  lemma PacketsReachClient(local: set<string>, actions: seq<Action>, before: seq<Packet>, p: Packet, flow: seq<Packet>,
                           key: uint32, ack: uint32, verb: string, path: string, requestVersion: string, asked: seq<Header>, h: nat,
                           version: string, status: int, reason: string, headers: seq<Header>, body: seq<byte>) returns (e: Exchange)
    requires Captured(actions) == before + [p] + flow && key != ack && Unused(local, before, ack)
    requires RequestPacket(local, p, key, verb, path, requestVersion, asked)
    requires h < |asked| && SpellsHost(asked[h].0) && forall i :: h < i < |asked| ==> !SpellsHost(asked[i].0)
    requires PacketFlow(local, flow, key, ack)
    requires ResponseBytes(PacketStream(local, flow, key, ack), version, status, reason, headers, body)
    requires SystemRun(BOOT, EventsOf(local, actions)).Some?
    ensures IsExchange(e, asked[h].1, path, asked, version, status, headers)
    ensures var sys := SystemRun(BOOT, EventsOf(local, actions)).value;
      var end := SystemRun(sys, Flush(sys));
      end.Some? && Once(Concat(end.value.replies), e)
  {
    var events, earlier, later := EventsOf(local, actions), Observed(local, before), Observed(local, flow);
    SniffedPackets(local, actions);
    ObservedJoin(local, before, p, flow);
    UnusedIsFree(local, before, ack);
    assert Observe(local, p) == ClientData(key, p.text);
    FlowOfPackets(Run(START, earlier + [ClientData(key, p.text)]).state, local, flow, key, ack);
    StreamOfPackets(local, flow, key, ack);
    RequestReadBack(verb, path, requestVersion, asked, h);
    RequestRoundTrip(verb, path, requestVersion, asked);
    PlainHeaderMap(asked);
    PlainHeaderMap(headers);
    ExchangeReachesClient(events, earlier, key, ack, later, verb, path, requestVersion, asked, version, status, reason, headers, body);
    e := Exchange(|Filings(earlier)|, RequestOf(p.text).value, HttpResponse(status, Some(version), HeaderMap(headers, map[])));
  }

  /** Only the response's own packets, none after the one that brings its blank line. */
  ghost predicate OnlyResponse(local: set<string>, packets: seq<Packet>, key: uint32, ack: uint32)
  {
    forall i :: 0 <= i < |packets| ==>
      var received := PacketStream(local, packets[..i], key, ack);
      InOrder(local, packets[i], received, key, ack) && !HasBlankLine(received)
  }

  /** A request followed by nothing but its response never stops the capture, whatever ran before. */
  lemma ExchangeRuns(local: set<string>, actions: seq<Action>, before: seq<Packet>, p: Packet, flow: seq<Packet>, key: uint32, ack: uint32)
    requires Captured(actions) == before + [p] + flow && key != ack && Unused(local, before, ack)
    requires Run(START, Observed(local, before)).Running?
    requires Sends(local, p) && p.ackNo == key && RequestOf(p.text).Some? && OnlyResponse(local, flow, key, ack)
    ensures SystemRun(BOOT, EventsOf(local, actions)).Some? && PacketFlow(local, flow, key, ack)
  {
    var earlier, later := Observed(local, before), Observed(local, flow);
    SniffedPackets(local, actions);
    ObservedJoin(local, before, p, flow);
    UnusedIsFree(local, before, ack);
    assert Observe(local, p) == ClientData(key, p.text);
    FiledIsReady(earlier, key, p.text, ack);
    OnlyResponseIsUninterrupted(local, flow, key, ack);
    UninterruptedFlowRuns(Run(START, earlier + [ClientData(key, p.text)]).state, later, key, ack);
    RunConcat(START, earlier + [ClientData(key, p.text)], later);
    MatcherRuns(EventsOf(local, actions));
  }

  lemma OnlyResponseIsUninterrupted(local: set<string>, packets: seq<Packet>, key: uint32, ack: uint32)
    requires OnlyResponse(local, packets, key, ack)
    ensures Uninterrupted(Observed(local, packets), key, ack)
  {
    var trace := Observed(local, packets);
    forall i | 0 <= i < |trace|
      ensures Next(trace[i], Stream(trace[..i], key, ack), key, ack) && !HeaderFinished(Stream(trace[..i], key, ack))
    {
      var received := PacketStream(local, packets[..i], key, ack);
      assert trace[..i] == Observed(local, packets[..i]);
      StreamOfPackets(local, packets[..i], key, ack);
      HeaderFinishedIff(received);
      NextIffInOrder(local, packets[i], received, key, ack);
    }
  }
}
