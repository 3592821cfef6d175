/**
 From the matcher to the client: handler calls wait on the main queue, the handler appends to
 `dataQueue`, and an authorized request of the client drains it.
 */
module Delivery {
  import opened Wrappers
  import opened HttpParsing
  import opened RequestMatcher
  import opened SniffOperation

  /** What the client receives: an error, or everything queued so far. */
  datatype Reply<T> = Refused | Queued(items: seq<T>)

  /** The part of HelperTool that holds `dataQueue`. */
  class HelperTool {
    var dataQueue: seq<Call>
    ghost var received: seq<Call>
    ghost var handedOver: seq<Call>

    constructor ()
      ensures Valid() && received == [] && handedOver == []
    {
      dataQueue, received, handedOver := [], [], [];
    }

    /** What was received is handed over or queued, in this order. */
    ghost predicate Valid()
      reads this
    {
      received == handedOver + dataQueue
    }

    /** The block set as `didReceiveHTTPRequestResponse`. */
    method DidReceive(request: HttpRequest, response: HttpResponse)
      requires Valid()
      modifies this
      ensures Valid() && received == old(received) + [(request, response)] && handedOver == old(handedOver)
    {
      dataQueue := dataQueue + [(request, response)];
      received := received + [(request, response)];
    }

    /** `getQueuedHTTPDataAuthorization:withReply:` */
    method GetQueuedHttpData(authorized: bool) returns (reply: Reply<Call>)
      requires Valid()
      modifies this
      ensures Valid() && received == old(received)
      ensures !authorized ==> reply == Refused && handedOver == old(handedOver)
      ensures authorized ==> reply.Queued? && handedOver == old(handedOver) + reply.items == received
    {
      if !authorized {
        return Refused;
      }
      reply := Queued(dataQueue);
      handedOver := handedOver + dataQueue;
      dataQueue := [];
    }
  }

  /** The matcher, the handler calls dispatched but not run, the queue and the replies sent. */
  datatype System = System(matcher: State, mainQueue: seq<Exchange>, dataQueue: seq<Exchange>, replies: seq<seq<Exchange>>)

  datatype Event = Sniff(segment: Segment) | RunMainBlock | Drain(authorized: bool)

  const BOOT := System(START, [], [], [])

  /** None when the sniffing process dies of an exception. */
  function SystemStep(sys: System, e: Event): Option<System>
  {
    match e
    case Sniff(segment) =>
      (match Step(sys.matcher, segment)
       case Raised(_) => None
       case Running(m) => Some(sys.(matcher := m, mainQueue := sys.mainQueue + NewlyCompleted(sys.matcher, m))))
    case RunMainBlock =>
      if sys.mainQueue == [] then Some(sys)
      else Some(sys.(mainQueue := sys.mainQueue[1..], dataQueue := sys.dataQueue + [sys.mainQueue[0]]))
    case Drain(authorized) =>
      if authorized then Some(sys.(replies := sys.replies + [sys.dataQueue], dataQueue := [])) else Some(sys)
  }

  function NewlyCompleted(before: State, after: State): seq<Exchange>
  {
    if |before.completed| <= |after.completed| then after.completed[|before.completed|..] else []
  }

  function SystemRun(sys: System, events: seq<Event>): Option<System>
  {
    if events == [] then Some(sys)
    else
      match SystemRun(sys, events[..|events| - 1])
      case None => None
      case Some(s) => SystemStep(s, events[|events| - 1])
  }

  function Concat<T>(replies: seq<seq<T>>): seq<T>
  {
    if replies == [] then [] else Concat(replies[..|replies| - 1]) + replies[|replies| - 1]
  }

  /** Everything completed has been sent, or is queued, or is on its way to the queue, in that order. */
  ghost predicate Conserved(sys: System)
  {
    Accounted(sys.matcher) && Concat(sys.replies) + sys.dataQueue + sys.mainQueue == sys.matcher.completed
  }

  lemma NewlyCompletedJoins(st: State, s: Segment)
    ensures st.completed + NewlyCompleted(st, Step(st, s).state) == Step(st, s).state.completed
  {
  }

  lemma SniffConserves(sys: System, segment: Segment)
    requires Conserved(sys) && Step(sys.matcher, segment).Running?
    ensures Conserved(SystemStep(sys, Sniff(segment)).value)
  {
    var before, after := sys.matcher, Step(sys.matcher, segment).state;
    StepKeeps(before, segment);
    NewlyCompletedJoins(before, segment);
    assert Concat(sys.replies) + sys.dataQueue + (sys.mainQueue + NewlyCompleted(before, after))
        == (Concat(sys.replies) + sys.dataQueue + sys.mainQueue) + NewlyCompleted(before, after);
  }

  lemma SystemStepConserves(sys: System, e: Event)
    requires Conserved(sys) && SystemStep(sys, e).Some?
    ensures Conserved(SystemStep(sys, e).value)
  {
    var next := SystemStep(sys, e).value;
    match e
    case Sniff(segment) => SniffConserves(sys, segment);
    case RunMainBlock =>
      if sys.mainQueue != [] {
        assert sys.mainQueue == [sys.mainQueue[0]] + next.mainQueue;
      }
    case Drain(authorized) =>
      if authorized {
        assert next.replies[..|sys.replies|] == sys.replies;
      }
  }

  /** Conservation over every run of packets, main-queue blocks and client calls. */
  lemma {:induction false} SystemRunConserves(sys: System, events: seq<Event>)
    requires Conserved(sys) && SystemRun(sys, events).Some?
    ensures Conserved(SystemRun(sys, events).value)
  {
    if events != [] {
      SystemRunConserves(sys, events[..|events| - 1]);
      SystemStepConserves(SystemRun(sys, events[..|events| - 1]).value, events[|events| - 1]);
    }
  }

  /** So the client gets each filed request at most once, with the request it was filed with, in completion order. */
  lemma AtMostOnceInOrder(events: seq<Event>)
    requires SystemRun(BOOT, events).Some?
    ensures var sys := SystemRun(BOOT, events).value;
      var sent := Concat(sys.replies);
      && sent <= sys.matcher.completed
      && (forall i, j :: 0 <= i < j < |sent| ==> sent[i].serial != sent[j].serial)
      && (forall i :: 0 <= i < |sent| ==>
            sent[i].serial < |sys.matcher.filed| && sys.matcher.filed[sent[i].serial].request == sent[i].request)
  {
    StartAccounted();
    SystemRunConserves(BOOT, events);
    SentIsPrefix(SystemRun(BOOT, events).value);
  }

  lemma SentIsPrefix(sys: System)
    requires Conserved(sys)
    ensures Concat(sys.replies) <= sys.matcher.completed
  {
    assert sys.matcher.completed == Concat(sys.replies) + (sys.dataQueue + sys.mainQueue);
  }

  /** The waiting blocks, and a drain. */
  function Flush(sys: System): seq<Event>
  {
    seq(|sys.mainQueue|, _ => RunMainBlock) + [Drain(true)]
  }

  /** Running the waiting blocks and draining once hands over everything completed. */
  lemma {:induction false} DrainDelivers(sys: System)
    requires Conserved(sys)
    ensures var end := SystemRun(sys, Flush(sys)); end.Some? && Concat(end.value.replies) == sys.matcher.completed
  {
    var blocks := seq(|sys.mainQueue|, _ => RunMainBlock);
    BlocksRun(sys, |sys.mainQueue|);
    var mid := SystemRun(sys, blocks).value;
    SystemRunConserves(sys, blocks);
    assert (blocks + [Drain(true)])[..|blocks|] == blocks;
    var end := SystemRun(sys, blocks + [Drain(true)]).value;
    assert end.replies[..|mid.replies|] == mid.replies;
  }

  lemma {:induction false} BlocksRun(sys: System, n: nat)
    requires n <= |sys.mainQueue|
    ensures var end := SystemRun(sys, seq(n, _ => RunMainBlock));
      end.Some? && end.value.mainQueue == sys.mainQueue[n..] && end.value.matcher == sys.matcher
  {
    if n > 0 {
      BlocksRun(sys, n - 1);
      var blocks := seq(n, _ => RunMainBlock);
      assert blocks[..n - 1] == seq(n - 1, _ => RunMainBlock);
    }
  }
}
