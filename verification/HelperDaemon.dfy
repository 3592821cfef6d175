/** The helper tool as a whole: sniff operation, main queue, `dataQueue` and client, on objects and as a `System`. */
module HelperDaemon {
  import opened Bytes
  import opened Wrappers
  import opened HttpText
  import opened HttpParsing
  import opened HttpRendering
  import opened RequestMatcher
  import opened ResponseFlow
  import opened SniffOperation
  import opened Delivery

  /** A packet comes in, the main thread runs a block, or the client asks for the queue. */
  datatype Action = Capture(packet: Packet) | RunBlock | AskQueue(authorized: bool)

  function EventOf(local: set<string>, a: Action): Event
  {
    match a
    case Capture(p) => Sniff(Observe(local, p))
    case RunBlock => RunMainBlock
    case AskQueue(authorized) => Drain(authorized)
  }

  function EventsOf(local: set<string>, actions: seq<Action>): seq<Event>
  {
    seq(|actions|, i requires 0 <= i < |actions| => EventOf(local, actions[i]))
  }

  function CallsOfEach(replies: seq<seq<Exchange>>): seq<seq<Call>>
  {
    seq(|replies|, i requires 0 <= i < |replies| => Calls(replies[i]))
  }

  class Daemon {
    const operation: Operation
    const tool: HelperTool
    /** How many of the dispatched calls the main thread has made. */
    var blocksRun: nat
    var replies: seq<seq<Call>>

    constructor (localAddresses: set<string>)
      ensures Refines(BOOT) && operation.localAddresses == localAddresses
      ensures fresh(operation) && fresh(operation.requestMap.Values) && fresh(tool)
    {
      operation := new Operation(localAddresses, true);
      tool := new HelperTool();
      blocksRun, replies := 0, [];
    }

    /** The objects hold what the state machine holds, as the client gets it. */
    ghost predicate Refines(sys: System)
      reads this, operation, operation.requestMap.Values, tool
    {
      && operation.Valid() && operation.didReceive && operation.View() == sys.matcher
      && blocksRun <= |operation.dispatched| && operation.dispatched[blocksRun..] == Calls(sys.mainQueue)
      && tool.Valid() && tool.dataQueue == Calls(sys.dataQueue) && tool.handedOver == Concat(replies)
      && replies == CallsOfEach(sys.replies)
    }

    /** One event of the state machine. */
    method Perform(action: Action, ghost sys: System) returns (raised: bool)
      requires Refines(sys)
      modifies this, operation`requestMap, operation`dispatched, operation`filed, operation`displaced, operation`completed,
               operation.requestMap.Values, tool
      ensures fresh(operation.requestMap.Values - old(operation.requestMap.Values))
      ensures match SystemStep(sys, EventOf(operation.localAddresses, action))
        case None => raised
        case Some(next) => !raised && Refines(next)
    {
      match action
      case Capture(p) =>
        raised := Sniffing(p, sys);
      case RunBlock =>
        RunNextBlock(sys);
        return false;
      case AskQueue(authorized) =>
        Answer(authorized, sys);
        return false;
    }

    method Sniffing(p: Packet, ghost sys: System) returns (raised: bool)
      requires Refines(sys)
      modifies operation`requestMap, operation`dispatched, operation`filed, operation`displaced, operation`completed,
               operation.requestMap.Values
      ensures fresh(operation.requestMap.Values - old(operation.requestMap.Values))
      ensures match SystemStep(sys, Sniff(Observe(operation.localAddresses, p)))
        case None => raised
        case Some(next) => !raised && Refines(next)
    {
      ghost var was := operation.dispatched;
      raised := operation.HandlePdu(p);
      if !raised {
        SniffRefines(sys, Observe(operation.localAddresses, p), operation.View(), blocksRun, was, operation.dispatched);
      }
    }

    method RunNextBlock(ghost sys: System)
      requires Refines(sys)
      modifies this`blocksRun, tool
      ensures Refines(SystemStep(sys, RunMainBlock).value)
    {
      if blocksRun < |operation.dispatched| {
        var (request, response) := operation.dispatched[blocksRun];
        ghost var calls := operation.dispatched[blocksRun..];
        assert calls[0] == (request, response) && calls[1..] == operation.dispatched[blocksRun + 1..];
        tool.DidReceive(request, response);
        CallsSplit(sys.dataQueue, sys.mainQueue);
        assert tool.dataQueue == tool.received[|tool.handedOver|..];
        blocksRun := blocksRun + 1;
      }
    }

    method Answer(authorized: bool, ghost sys: System)
      requires Refines(sys)
      modifies this`replies, tool
      ensures Refines(SystemStep(sys, Drain(authorized)).value)
    {
      ghost var handed, queue := tool.handedOver, tool.dataQueue;
      var reply := tool.GetQueuedHttpData(authorized);
      if reply.Queued? {
        Cancel(handed, reply.items, queue);
        Cancel(tool.handedOver, tool.dataQueue, []);
        ReplyAppended(replies, reply.items);
        ExchangesAppended(sys.replies, sys.dataQueue);
        replies := replies + [reply.items];
      } else {
        Cancel(handed, tool.dataQueue, queue);
      }
    }

    /** The whole run is the run of the state machine; and whatever was completed has been handed over, is queued or is dispatched. */
    method PerformAll(actions: seq<Action>, ghost sys: System) returns (raised: bool)
      requires Refines(sys) && Conserved(sys)
      modifies this, operation`requestMap, operation`dispatched, operation`filed, operation`displaced, operation`completed,
               operation.requestMap.Values, tool
      ensures match SystemRun(sys, EventsOf(operation.localAddresses, actions))
        case None => raised
        case Some(end) => !raised && Refines(end) && Conserved(end)
      ensures !raised ==>
        Concat(replies) + tool.dataQueue + operation.dispatched[blocksRun..] == Calls(operation.completed)
    {
      ghost var local, now := operation.localAddresses, sys;
      assert EventsOf(local, actions[..0]) == [];
      for i := 0 to |actions|
        invariant fresh(operation.requestMap.Values - old(operation.requestMap.Values))
        invariant Refines(now) && SystemRun(sys, EventsOf(local, actions[..i])) == Some(now)
      {
        raised := Perform(actions[i], now);
        EventsNext(sys, local, actions, i);
        if raised {
          return true;
        }
        now := SystemStep(now, EventOf(local, actions[i])).value;
      }
      assert actions[..|actions|] == actions;
      SystemRunConserves(sys, EventsOf(local, actions));
      CallsConserved(now);
      return false;
    }
  }

  lemma SniffRefines(sys: System, s: Segment, after: State, run: nat, dispatched: seq<Call>, dispatched': seq<Call>)
    requires Step(sys.matcher, s) == Running(after)
    requires run <= |dispatched| && dispatched[run..] == Calls(sys.mainQueue)
    requires Dispatches(true, sys.matcher.completed, after.completed, dispatched, dispatched')
    ensures run <= |dispatched'| && SystemStep(sys, Sniff(s)).Some?
    ensures var next := SystemStep(sys, Sniff(s)).value;
      next == sys.(matcher := after, mainQueue := next.mainQueue) && dispatched'[run..] == Calls(next.mainQueue)
  {
    CallsJoin(sys.mainQueue, after.completed[|sys.matcher.completed|..]);
  }

  lemma Cancel(a: seq<Call>, b: seq<Call>, c: seq<Call>)
    requires a + b == a + c
    ensures b == c
  {
    assert b == (a + b)[|a|..] && c == (a + c)[|a|..];
  }

  lemma ReplyAppended(replies: seq<seq<Call>>, reply: seq<Call>)
    ensures Concat(replies + [reply]) == Concat(replies) + reply
  {
    assert (replies + [reply])[..|replies|] == replies;
  }

  lemma ExchangesAppended(replies: seq<seq<Exchange>>, reply: seq<Exchange>)
    ensures CallsOfEach(replies + [reply]) == CallsOfEach(replies) + [Calls(reply)]
  {
  }

  lemma CallsSplit(done: seq<Exchange>, queue: seq<Exchange>)
    requires queue != []
    ensures Calls(done + [queue[0]]) == Calls(done) + [Calls(queue)[0]] && Calls(queue[1..]) == Calls(queue)[1..]
  {
  }

  /** One more event; and when it is the last, the run ends there. */
  lemma EventsNext(sys: System, local: set<string>, actions: seq<Action>, i: nat)
    requires i < |actions| && SystemRun(sys, EventsOf(local, actions[..i])).Some?
    ensures SystemRun(sys, EventsOf(local, actions[..i + 1]))
         == SystemStep(SystemRun(sys, EventsOf(local, actions[..i])).value, EventOf(local, actions[i]))
    ensures SystemRun(sys, EventsOf(local, actions[..i + 1])).None? ==> SystemRun(sys, EventsOf(local, actions)).None?
  {
    var events := EventsOf(local, actions[..i + 1]);
    assert events[..i] == EventsOf(local, actions[..i]);
    if SystemRun(sys, events).None? {
      assert EventsOf(local, actions)[..i + 1] == events;
      SystemStaysDown(sys, EventsOf(local, actions), i + 1);
    }
  }

  lemma {:induction false} SystemStaysDown(sys: System, events: seq<Event>, i: nat)
    requires i <= |events| && SystemRun(sys, events[..i]).None?
    ensures SystemRun(sys, events).None?
  {
    if i < |events| {
      assert events[..|events| - 1][..i] == events[..i];
      SystemStaysDown(sys, events[..|events| - 1], i);
    } else {
      assert events[..i] == events;
    }
  }

  lemma {:induction false} CallsOfConcat(replies: seq<seq<Exchange>>)
    ensures Calls(Concat(replies)) == Concat(CallsOfEach(replies))
  {
    if replies != [] {
      var before := replies[..|replies| - 1];
      CallsOfConcat(before);
      assert CallsOfEach(replies)[..|before|] == CallsOfEach(before);
    }
  }

  lemma CallsConserved(sys: System)
    requires Conserved(sys)
    ensures Concat(CallsOfEach(sys.replies)) + Calls(sys.dataQueue) + Calls(sys.mainQueue) == Calls(sys.matcher.completed)
  {
    CallsOfConcat(sys.replies);
    CallsJoin(Concat(sys.replies), sys.dataQueue);
    CallsJoin(Concat(sys.replies) + sys.dataQueue, sys.mainQueue);
  }

  lemma CallsJoin(a: seq<Exchange>, b: seq<Exchange>)
    ensures Calls(a + b) == Calls(a) + Calls(b)
  {
  }

  // -------------------------------------------------------------------------
  // From two written messages to the client
  // -------------------------------------------------------------------------

  /** The segments that the matcher sees. */
  function Sniffed(events: seq<Event>): seq<Segment>
  {
    if events == [] then []
    else
      var last := events[|events| - 1];
      Sniffed(events[..|events| - 1]) + (if last.Sniff? then [last.segment] else [])
  }

  /** The whole lives exactly as long as its matcher, which sees the sniffed segments. */
  lemma {:induction false} MatcherRuns(events: seq<Event>)
    ensures SystemRun(BOOT, events).Some? <==> Run(START, Sniffed(events)).Running?
    ensures SystemRun(BOOT, events).Some? ==> Run(START, Sniffed(events)) == Running(SystemRun(BOOT, events).value.matcher)
  {
    if events != [] {
      var before, last := events[..|events| - 1], events[|events| - 1];
      MatcherRuns(before);
      if last.Sniff? {
        var sniffed := Sniffed(before) + [last.segment];
        assert sniffed[..|sniffed| - 1] == Sniffed(before);
      } else {
        assert Sniffed(events) == Sniffed(before);
      }
    }
  }

  /**
   A written request and a written response, sent in any segmentation amid sparing traffic and whatever
   the main thread and the client do meanwhile, reach the client at the next drain: once, together,
   and header for header as they were written.
   */
  lemma ExchangeReachesClient(events: seq<Event>, before: seq<Segment>, key: uint32, ack: uint32, flow: seq<Segment>,
                              verb: string, path: string, requestVersion: string, asked: seq<Header>,
                              version: string, status: int, reason: string, headers: seq<Header>, body: seq<byte>)
    requires Free(verb, IsWhitespace) && Free(path, IsWhitespace) && LineSafe(requestVersion) && Sendable(asked)
    requires LastHost(Trimmed(asked)).Some?
    requires Free(version, IsWhitespace) && LineSafe(reason)
    requires NS_INTEGER_MIN <= status <= NS_INTEGER_MAX && Sendable(headers)
    requires SystemRun(BOOT, events).Some?
    requires var request := ClientData(key, Some(RenderHead(RenderRequestLine(verb, path, requestVersion), asked)));
      && Sniffed(events) == before + [request] + flow
      && key != ack && ack !in Run(START, before).state.pending
      && Flow(Run(START, before + [request]).state, flow, key, ack)
    requires SentBytes(Stream(flow, key, ack), RenderHead(RenderStatusLine(version, status, reason), headers), body)
    ensures var sys := SystemRun(BOOT, events).value;
      var end := SystemRun(sys, Flush(sys));
      && end.Some?
      && Once(Concat(end.value.replies),
              Exchange(|Filings(before)|,
                       HttpRequest(LastHost(Trimmed(asked)).value, path, HeaderMap(Trimmed(asked), map[])),
                       HttpResponse(status, Some(version), HeaderMap(Trimmed(headers), map[]))))
  {
    var sys := SystemRun(BOOT, events).value;
    var text := Some(RenderHead(RenderRequestLine(verb, path, requestVersion), asked));
    var trace := before + [ClientData(key, text)] + flow;
    MatcherRuns(events);
    RunTake(START, trace, |before|);
    assert trace[..|before|] == before;
    RequestRoundTrip(verb, path, requestVersion, asked);
    WholeExchange(before, key, text, flow, ack, version, status, reason, headers, body);
    StartAccounted();
    SystemRunConserves(BOOT, events);
    DrainDelivers(sys);
  }
}
