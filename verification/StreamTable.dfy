/**
 The session table of TCPStreamFollower as a state machine. What a stream stores, how a packet
 updates it, when it is finished and what the data functor does to it stay abstract: every
 statement holds for any such behaviour.
 */
module StreamTable {
  import opened Bytes
  import opened Wrappers

  datatype StreamInfo = StreamInfo(clientAddr: uint32, serverAddr: uint32, clientPort: uint16, serverPort: uint16)

  /** The same connection seen from its other end. */
  function Mirror(info: StreamInfo): StreamInfo
  {
    StreamInfo(info.serverAddr, info.clientAddr, info.serverPort, info.clientPort)
  }

  /** `info` holds source and destination; `rest` is everything else the packet carries. */
  datatype Packet<P> = Packet(info: StreamInfo, syn: bool, ack: bool, rest: P)

  datatype Behaviour<!C, !P> = Behaviour(
    create: Packet<P> -> C,
    update: (C, Packet<P>) -> (C, bool),
    finished: C -> bool,
    onData: C -> C)

  datatype Stream<C> = Stream(id: nat, content: C)

  /** One call of the data functor or of the end functor. */
  datatype Event<C> = Data(info: StreamInfo, stream: Stream<C>) | End(info: StreamInfo, stream: Stream<C>)

  /** The table and `last_identifier`, with the calls made and the number of streams opened so far. */
  datatype State<C> = State(sessions: map<StreamInfo, Stream<C>>, lastIdentifier: nat, openings: nat, events: seq<Event<C>>)

  function Start<C>(): State<C> { State(map[], 0, 0, []) }

  function Locate<C>(sessions: map<StreamInfo, Stream<C>>, info: StreamInfo): Option<StreamInfo>
  {
    if info in sessions then Some(info)
    else if Mirror(info) in sessions then Some(Mirror(info))
    else None
  }

  function Open<C, P>(b: Behaviour<C, P>, st: State<C>, p: Packet<P>): State<C>
  {
    State(st.sessions[Mirror(p.info) := Stream(st.lastIdentifier, b.create(p))],
          (st.lastIdentifier + 1) % TWO_64, st.openings + 1, st.events)
  }

  function Update<C, P>(b: Behaviour<C, P>, st: State<C>, key: StreamInfo, p: Packet<P>): State<C>
    requires key in st.sessions
  {
    var stream := st.sessions[key];
    var (updated, changed) := b.update(stream.content, p);
    var events := if changed then st.events + [Data(key, Stream(stream.id, updated))] else st.events;
    var after := Stream(stream.id, if changed then b.onData(updated) else updated);
    if b.finished(after.content) then
      st.(sessions := st.sessions - {key}, events := events + [End(key, after)])
    else
      st.(sessions := st.sessions[key := after], events := events)
  }

  /** One call of `callback` on a packet with IP and TCP layers. */
  function Step<C, P>(b: Behaviour<C, P>, st: State<C>, p: Packet<P>): State<C>
  {
    match Locate(st.sessions, p.info)
    case Some(key) => Update(b, st, key, p)
    case None => if p.syn && !p.ack then Open(b, st, p) else st
  }

  function Run<C, P>(b: Behaviour<C, P>, st: State<C>, trace: seq<Packet<P>>): State<C>
  {
    if trace == [] then st else Step(b, Run(b, st, trace[..|trace| - 1]), trace[|trace| - 1])
  }

  // -------------------------------------------------------------------------
  // The table at every reachable state
  // -------------------------------------------------------------------------

  /** No connection is in the table from both ends. */
  ghost predicate OneEnd<C>(st: State<C>)
  {
    forall k :: k in st.sessions && Mirror(k) in st.sessions ==> Mirror(k) == k
  }

  lemma StepOneEnd<C, P>(b: Behaviour<C, P>, st: State<C>, p: Packet<P>)
    requires OneEnd(st)
    ensures OneEnd(Step(b, st, p))
  {
    assert Mirror(Mirror(p.info)) == p.info;
  }

  lemma {:induction false} RunOneEnd<C, P>(b: Behaviour<C, P>, trace: seq<Packet<P>>)
    ensures OneEnd(Run(b, Start(), trace))
  {
    if trace != [] {
      RunOneEnd(b, trace[..|trace| - 1]);
      StepOneEnd(b, Run(b, Start(), trace[..|trace| - 1]), trace[|trace| - 1]);
    }
  }

  /** Packet `i` opened the stream under `k`, and no packet of that connection came after it. */
  ghost predicate OnlyOpened<C, P>(b: Behaviour<C, P>, trace: seq<Packet<P>>, i: nat, k: StreamInfo, content: C)
  {
    && i < |trace| && trace[i].syn && !trace[i].ack && trace[i].info == Mirror(k)
    && content == b.create(trace[i])
    && forall j :: i < j < |trace| ==> !Belongs(trace[j].info, k)
  }

  /** No updated stream left in the table is finished: a finished one was opened by its connection's last packet. */
  ghost predicate Unfinished<C, P>(b: Behaviour<C, P>, st: State<C>, trace: seq<Packet<P>>)
  {
    forall k :: k in st.sessions && b.finished(st.sessions[k].content) ==>
      exists i :: OnlyOpened(b, trace, i, k, st.sessions[k].content)
  }

  /** A stream that is finished after a step was opened by it, or stood there finished and was not looked up. */
  lemma StepFinished<C, P>(b: Behaviour<C, P>, st: State<C>, p: Packet<P>, k: StreamInfo)
    requires OneEnd(st) && k in Step(b, st, p).sessions && b.finished(Step(b, st, p).sessions[k].content)
    ensures if Belongs(p.info, k) then
              k !in st.sessions && p.syn && !p.ack && p.info == Mirror(k) && Step(b, st, p).sessions[k].content == b.create(p)
            else k in st.sessions && st.sessions[k] == Step(b, st, p).sessions[k]
  {
    assert Mirror(Mirror(p.info)) == p.info && Mirror(Mirror(k)) == k;
  }

  lemma {:induction false} RunUnfinished<C, P>(b: Behaviour<C, P>, trace: seq<Packet<P>>)
    ensures Unfinished(b, Run(b, Start(), trace), trace)
  {
    if trace != [] {
      var n := |trace| - 1;
      RunUnfinished(b, trace[..n]);
      RunOneEnd(b, trace[..n]);
      var st, st' := Run(b, Start(), trace[..n]), Run(b, Start(), trace);
      forall k | k in st'.sessions && b.finished(st'.sessions[k].content)
        ensures exists i :: OnlyOpened(b, trace, i, k, st'.sessions[k].content)
      {
        StepFinished(b, st, trace[n], k);
        if Belongs(trace[n].info, k) {
          assert OnlyOpened(b, trace, n, k, st'.sessions[k].content);
        } else {
          var i :| OnlyOpened(b, trace[..n], i, k, st.sessions[k].content);
          assert OnlyOpened(b, trace, i, k, st'.sessions[k].content);
        }
      }
    }
  }

  /** Packet `i` is a SYN without ACK whose receiver is the client of `k` and whose sender is its server. */
  ghost predicate Opens<P>(trace: seq<Packet<P>>, i: nat, k: StreamInfo)
  {
    && i < |trace| && trace[i].syn && !trace[i].ack
    && trace[i].info.serverAddr == k.clientAddr && trace[i].info.serverPort == k.clientPort
    && trace[i].info.clientAddr == k.serverAddr && trace[i].info.clientPort == k.serverPort
  }

  /** Every key was opened so: the "client" is the receiver of the SYN. */
  ghost predicate OpenedBy<C, P>(st: State<C>, trace: seq<Packet<P>>)
  {
    forall k :: k in st.sessions ==> exists i :: Opens(trace, i, k)
  }

  lemma OpensLonger<P>(trace: seq<Packet<P>>, n: nat, k: StreamInfo)
    requires n <= |trace| && exists i :: Opens(trace[..n], i, k)
    ensures exists i :: Opens(trace, i, k)
  {
    var i :| Opens(trace[..n], i, k);
    assert Opens(trace, i, k);
  }

  lemma {:induction false} RunOpenedBy<C, P>(b: Behaviour<C, P>, trace: seq<Packet<P>>)
    ensures OpenedBy(Run(b, Start(), trace), trace)
  {
    if trace != [] {
      var n := |trace| - 1;
      RunOpenedBy(b, trace[..n]);
      var st, st' := Run(b, Start(), trace[..n]), Run(b, Start(), trace);
      forall k | k in st'.sessions ensures exists i :: Opens(trace, i, k) {
        if k in st.sessions {
          OpensLonger(trace, n, k);
        } else {
          assert Opens(trace, n, k);
        }
      }
    }
  }

  /** And every call is about a stream that was opened so. */
  lemma {:induction false} RunCallsOpened<C, P>(b: Behaviour<C, P>, trace: seq<Packet<P>>, e: Event<C>)
    requires e in Run(b, Start(), trace).events
    ensures exists i :: Opens(trace, i, e.info)
  {
    if trace != [] {
      var n := |trace| - 1;
      var st := Run(b, Start(), trace[..n]);
      if e in st.events {
        RunCallsOpened(b, trace[..n], e);
      } else {
        RunOpenedBy(b, trace[..n]);
        assert e.info in st.sessions;
      }
      OpensLonger(trace, n, e.info);
    }
  }

  /** Two packets are of one connection exactly when they have the same two end points. */
  lemma SameConnectionIff(a: StreamInfo, b: StreamInfo)
    ensures Belongs(a, b) <==>
      {(a.clientAddr, a.clientPort), (a.serverAddr, a.serverPort)} == {(b.clientAddr, b.clientPort), (b.serverAddr, b.serverPort)}
  {
    var x, y := (a.clientAddr, a.clientPort), (a.serverAddr, a.serverPort);
    var u, v := (b.clientAddr, b.clientPort), (b.serverAddr, b.serverPort);
    if {x, y} == {u, v} {
      assert x in {u, v} && y in {u, v} && u in {x, y} && v in {x, y};
    }
  }

  /** A packet of an open connection: its stream is updated, the functors are called with it as far as they apply. */
  lemma OpenConnection<C, P>(b: Behaviour<C, P>, st: State<C>, key: StreamInfo, p: Packet<P>)
    requires OneEnd(st) && key in st.sessions && Belongs(p.info, key)
    ensures var id, (updated, changed) := st.sessions[key].id, b.update(st.sessions[key].content, p);
      var after := if changed then b.onData(updated) else updated;
      var end := Step(b, st, p);
      && (!changed && !b.finished(after) ==> end.events == st.events)
      && (changed && !b.finished(after) ==> end.events == st.events + [Data(key, Stream(id, updated))])
      && (!changed && b.finished(after) ==> end.events == st.events + [End(key, Stream(id, after))])
      && (changed && b.finished(after) ==> end.events == st.events + [Data(key, Stream(id, updated)), End(key, Stream(id, after))])
      && end.sessions == if b.finished(after) then st.sessions - {key} else st.sessions[key := Stream(id, after)]
  {
    assert Mirror(Mirror(key)) == key;
  }

  /** A packet of no open connection: a SYN without ACK opens one, under its receiver; any other changes nothing. */
  lemma NewConnection<C, P>(b: Behaviour<C, P>, st: State<C>, p: Packet<P>)
    requires forall k :: k in st.sessions ==> !Belongs(p.info, k)
    ensures var end := Step(b, st, p);
      var key := StreamInfo(p.info.serverAddr, p.info.clientAddr, p.info.serverPort, p.info.clientPort);
      && end.events == st.events
      && (if p.syn && !p.ack then end.sessions == st.sessions[key := Stream(st.lastIdentifier, b.create(p))] else end == st)
  {
    assert Mirror(Mirror(p.info)) == p.info;
    assert Belongs(p.info, p.info) && Belongs(p.info, Mirror(p.info));
  }

  // -------------------------------------------------------------------------
  // Identifiers and their life cycle
  // -------------------------------------------------------------------------

  /** The same machine with an identifier counter that never starts again at zero. */
  function WideOpen<C, P>(b: Behaviour<C, P>, st: State<C>, p: Packet<P>): State<C>
  {
    State(st.sessions[Mirror(p.info) := Stream(st.openings, b.create(p))], st.openings + 1, st.openings + 1, st.events)
  }

  function WideStep<C, P>(b: Behaviour<C, P>, st: State<C>, p: Packet<P>): State<C>
  {
    match Locate(st.sessions, p.info)
    case Some(key) => Update(b, st, key, p)
    case None => if p.syn && !p.ack then WideOpen(b, st, p) else st
  }

  function WideRun<C, P>(b: Behaviour<C, P>, trace: seq<Packet<P>>): State<C>
  {
    if trace == [] then Start() else WideStep(b, WideRun(b, trace[..|trace| - 1]), trace[|trace| - 1])
  }

  /** What 64 bits keep of an identifier. */
  function CutStream<C>(stream: Stream<C>): Stream<C>
  {
    Stream(stream.id % TWO_64, stream.content)
  }

  function CutEvent<C>(e: Event<C>): Event<C>
  {
    match e
    case Data(info, stream) => Data(info, CutStream(stream))
    case End(info, stream) => End(info, CutStream(stream))
  }

  function Cut<C>(st: State<C>): State<C>
  {
    State(map k | k in st.sessions :: CutStream(st.sessions[k]), st.lastIdentifier % TWO_64, st.openings,
          seq(|st.events|, i requires 0 <= i < |st.events| => CutEvent(st.events[i])))
  }

  lemma CutUpdate<C, P>(b: Behaviour<C, P>, st: State<C>, key: StreamInfo, p: Packet<P>)
    requires key in st.sessions
    ensures Update(b, Cut(st), key, p) == Cut(Update(b, st, key, p))
  {
    assert Update(b, Cut(st), key, p).sessions == Cut(Update(b, st, key, p)).sessions;
    assert Update(b, Cut(st), key, p).events == Cut(Update(b, st, key, p)).events;
  }

  lemma CutOpen<C, P>(b: Behaviour<C, P>, st: State<C>, p: Packet<P>)
    requires st.lastIdentifier == st.openings
    ensures Open(b, Cut(st), p) == Cut(WideOpen(b, st, p))
  {
    assert Open(b, Cut(st), p).sessions == Cut(WideOpen(b, st, p)).sessions;
  }

  lemma CutStep<C, P>(b: Behaviour<C, P>, st: State<C>, p: Packet<P>)
    requires st.lastIdentifier == st.openings
    ensures Step(b, Cut(st), p) == Cut(WideStep(b, st, p))
  {
    assert Locate(Cut(st).sessions, p.info) == Locate(st.sessions, p.info);
    match Locate(st.sessions, p.info)
    case Some(key) => CutUpdate(b, st, key, p);
    case None => CutOpen(b, st, p);
  }

  /** Identifiers in the table are distinct, and were handed out. */
  ghost predicate Identified<C>(st: State<C>)
  {
    && st.lastIdentifier == st.openings
    && (forall k :: k in st.sessions ==> st.sessions[k].id < st.openings)
    && (forall k, l :: k in st.sessions && l in st.sessions && st.sessions[k].id == st.sessions[l].id ==> k == l)
  }

  ghost predicate NotEnded<C>(events: seq<Event<C>>, id: nat)
  {
    forall i :: 0 <= i < |events| && events[i].End? ==> events[i].stream.id != id
  }

  /** No call mentions an identifier after its end call: at most one end call, and no data call after it. */
  ghost predicate EndIsLast<C>(events: seq<Event<C>>, openings: nat)
  {
    && (forall i :: 0 <= i < |events| ==> events[i].stream.id < openings)
    && (forall i, j :: 0 <= i < j < |events| && events[i].End? ==> events[j].stream.id != events[i].stream.id)
  }

  /** And an ended identifier has left the table. */
  ghost predicate Ended<C>(st: State<C>)
  {
    && EndIsLast(st.events, st.openings)
    && (forall k :: k in st.sessions ==> NotEnded(st.events, st.sessions[k].id))
  }

  lemma AppendCall<C>(events: seq<Event<C>>, e: Event<C>, openings: nat)
    requires EndIsLast(events, openings) && NotEnded(events, e.stream.id) && e.stream.id < openings
    ensures EndIsLast(events + [e], openings)
    ensures forall id :: NotEnded(events, id) && (e.End? ==> id != e.stream.id) ==> NotEnded(events + [e], id)
  {
  }

  lemma UpdateKeepsLifecycle<C, P>(b: Behaviour<C, P>, st: State<C>, key: StreamInfo, p: Packet<P>)
    requires Identified(st) && Ended(st) && key in st.sessions
    ensures Identified(Update(b, st, key, p)) && Ended(Update(b, st, key, p))
  {
    var stream, end := st.sessions[key], Update(b, st, key, p);
    var (updated, changed) := b.update(stream.content, p);
    var data := Data(key, Stream(stream.id, updated));
    AppendCall(st.events, data, st.openings);
    var events := if changed then st.events + [data] else st.events;
    var after := Stream(stream.id, if changed then b.onData(updated) else updated);
    AppendCall(events, End(key, after), st.openings);
    forall k | k in end.sessions ensures NotEnded(end.events, end.sessions[k].id) {
      assert k in st.sessions && end.sessions[k].id == st.sessions[k].id;
      assert NotEnded(st.events, st.sessions[k].id) && NotEnded(events, st.sessions[k].id);
    }
  }

  lemma OpenKeepsLifecycle<C, P>(b: Behaviour<C, P>, st: State<C>, p: Packet<P>)
    requires Identified(st) && Ended(st)
    ensures Identified(WideOpen(b, st, p)) && Ended(WideOpen(b, st, p))
  {
    assert NotEnded(st.events, st.openings);
  }

  lemma StepKeepsLifecycle<C, P>(b: Behaviour<C, P>, st: State<C>, p: Packet<P>)
    requires Identified(st) && Ended(st)
    ensures Identified(WideStep(b, st, p)) && Ended(WideStep(b, st, p))
  {
    if Locate(st.sessions, p.info).Some? {
      UpdateKeepsLifecycle(b, st, Locate(st.sessions, p.info).value, p);
    } else if p.syn && !p.ack {
      OpenKeepsLifecycle(b, st, p);
    }
  }

  /** Over every run the identifiers are those of a life cycle without repetition, cut to 64 bits. */
  lemma {:induction false} RunLifecycle<C, P>(b: Behaviour<C, P>, trace: seq<Packet<P>>)
    ensures Identified(WideRun(b, trace)) && Ended(WideRun(b, trace))
    ensures Run(b, Start(), trace) == Cut(WideRun(b, trace))
  {
    if trace == [] {
      assert Cut(Start()) == Start<C>();
    } else {
      var before := trace[..|trace| - 1];
      RunLifecycle(b, before);
      StepKeepsLifecycle(b, WideRun(b, before), trace[|trace| - 1]);
      CutStep(b, WideRun(b, before), trace[|trace| - 1]);
    }
  }

  /** So until 2^64 streams have been opened they do not repeat. */
  lemma LifecycleUntilWrap<C, P>(b: Behaviour<C, P>, trace: seq<Packet<P>>)
    requires Run(b, Start(), trace).openings <= 0x1_0000_0000_0000_0000
    ensures var st := Run(b, Start(), trace);
      && Ended(st)
      && (forall k, l :: k in st.sessions && l in st.sessions && st.sessions[k].id == st.sessions[l].id ==> k == l)
  {
    RunLifecycle(b, trace);
    CutChangesNothing(WideRun(b, trace));
  }

  lemma CutChangesNothing<C>(st: State<C>)
    requires Identified(st) && Ended(st) && st.openings <= TWO_64
    ensures Cut(st).sessions == st.sessions && Cut(st).events == st.events && Cut(st).openings == st.openings
  {
    assert forall k :: k in st.sessions ==> CutStream(st.sessions[k]) == st.sessions[k];
    forall i | 0 <= i < |st.events| ensures CutEvent(st.events[i]) == st.events[i] {
      assert st.events[i].stream.id < TWO_64;
    }
  }

  /** Nothing but opening SYNs, no two of one connection. */
  ghost predicate OnlyOpenings<P>(trace: seq<Packet<P>>)
  {
    && (forall i :: 0 <= i < |trace| ==> trace[i].syn && !trace[i].ack)
    && (forall i, j :: 0 <= i < j < |trace| ==> !Belongs(trace[j].info, trace[i].info))
  }

  lemma OnlyOpeningsBefore<P>(trace: seq<Packet<P>>)
    requires OnlyOpenings(trace) && trace != []
    ensures OnlyOpenings(trace[..|trace| - 1])
  {
    var before := trace[..|trace| - 1];
    assert forall i :: 0 <= i < |before| ==> before[i] == trace[i];
  }

  /** Each of them opens its stream. */
  lemma LastOpens<C, P>(b: Behaviour<C, P>, trace: seq<Packet<P>>)
    requires OnlyOpenings(trace) && trace != []
    ensures Run(b, Start(), trace) == Open(b, Run(b, Start(), trace[..|trace| - 1]), trace[|trace| - 1])
  {
    var before, p := trace[..|trace| - 1], trace[|trace| - 1];
    RunOpenedBy(b, before);
    assert Mirror(Mirror(p.info)) == p.info;
    assert forall i :: 0 <= i < |before| ==> before[i] == trace[i] && !Belongs(p.info, trace[i].info);
  }

  lemma {:induction false} OpeningsCount<C, P>(b: Behaviour<C, P>, trace: seq<Packet<P>>)
    requires OnlyOpenings(trace)
    ensures Run(b, Start(), trace).openings == |trace|
  {
    if trace != [] {
      OnlyOpeningsBefore(trace);
      OpeningsCount(b, trace[..|trace| - 1]);
      LastOpens(b, trace);
    }
  }

  /** A stream's identifier is the number of streams before it, cut to 64 bits. */
  lemma {:induction false} OpeningIdentifier<C, P>(b: Behaviour<C, P>, trace: seq<Packet<P>>, i: nat)
    requires OnlyOpenings(trace) && i < |trace|
    ensures var st, k := Run(b, Start(), trace), Mirror(trace[i].info);
      k in st.sessions && st.sessions[k].id == i % TWO_64
  {
    var n := |trace| - 1;
    var before := trace[..n];
    OnlyOpeningsBefore(trace);
    LastOpens(b, trace);
    if i < n {
      OpeningIdentifier(b, before, i);
      assert before[i] == trace[i] && !Belongs(trace[n].info, trace[i].info);
      assert Mirror(trace[i].info) != Mirror(trace[n].info);
    } else {
      NextIdentifier(b, before);
    }
  }

  lemma NextIdentifier<C, P>(b: Behaviour<C, P>, trace: seq<Packet<P>>)
    requires OnlyOpenings(trace)
    ensures Run(b, Start(), trace).lastIdentifier == |trace| % TWO_64
  {
    OpeningsCount(b, trace);
    RunLifecycle(b, trace);
  }

  /** The next stream gets the identifier of the first, which is still open. */
  lemma IdentifierReused<C, P>(b: Behaviour<C, P>, trace: seq<Packet<P>>)
    requires OnlyOpenings(trace) && |trace| == 0x1_0000_0000_0000_0000 + 1
    ensures var st, k, l := Run(b, Start(), trace), Mirror(trace[0].info), Mirror(trace[0x1_0000_0000_0000_0000].info);
      k != l && k in st.sessions && l in st.sessions && st.sessions[k].id == st.sessions[l].id
  {
    OpeningIdentifier(b, trace, 0);
    OpeningIdentifier(b, trace, TWO_64);
    assert !Belongs(trace[TWO_64].info, trace[0].info);
  }

  /** The `i`-th of more than 2^64 connections. */
  function NthConnection(i: nat): StreamInfo
    requires i <= TWO_64
  {
    StreamInfo(i % TWO_32, (i / TWO_32) % TWO_32, if i == TWO_64 then 2 else 0, 1)
  }

  /** And there are that many connections. */
  lemma ManyOpenings<P>(rest: P) returns (trace: seq<Packet<P>>)
    ensures OnlyOpenings(trace) && |trace| == 0x1_0000_0000_0000_0000 + 1
  {
    trace := seq(TWO_64 + 1, i requires 0 <= i <= TWO_64 => Packet(NthConnection(i), true, false, rest));
    forall i, j | 0 <= i < j < |trace| ensures !Belongs(trace[j].info, trace[i].info) {
      assert i == (i / TWO_32) * TWO_32 + i % TWO_32 && j == (j / TWO_32) * TWO_32 + j % TWO_32;
    }
  }

  // -------------------------------------------------------------------------
  // Non-interference
  // -------------------------------------------------------------------------

  predicate Belongs(info: StreamInfo, conn: StreamInfo)
  {
    info == conn || info == Mirror(conn)
  }

  /** The packets of one connection, either direction. */
  function Restrict<P>(trace: seq<Packet<P>>, conn: StreamInfo): seq<Packet<P>>
  {
    if trace == [] then []
    else
      var last := trace[|trace| - 1];
      Restrict(trace[..|trace| - 1], conn) + (if Belongs(last.info, conn) then [last] else [])
  }

  datatype SoloEvent<C> = SoloData(content: C) | SoloEnd(content: C)

  /** A machine with room for one stream, no table, no keys and no identifiers. */
  datatype Solo<C> = Solo(stream: Option<C>, events: seq<SoloEvent<C>>)

  function SoloStep<C, P>(b: Behaviour<C, P>, solo: Solo<C>, p: Packet<P>): Solo<C>
  {
    match solo.stream
    case None => if p.syn && !p.ack then solo.(stream := Some(b.create(p))) else solo
    case Some(content) =>
      var (updated, changed) := b.update(content, p);
      var after := if changed then b.onData(updated) else updated;
      var data := if changed then [SoloData(updated)] else [];
      if b.finished(after) then Solo(None, solo.events + data + [SoloEnd(after)])
      else Solo(Some(after), solo.events + data)
  }

  function SoloRun<C, P>(b: Behaviour<C, P>, trace: seq<Packet<P>>): Solo<C>
  {
    if trace == [] then Solo(None, []) else SoloStep(b, SoloRun(b, trace[..|trace| - 1]), trace[|trace| - 1])
  }

  function SessionOf<C>(st: State<C>, conn: StreamInfo): Option<C>
  {
    match Locate(st.sessions, conn)
    case None => None
    case Some(key) => Some(st.sessions[key].content)
  }

  /** A call as the connection sees it, if it is about the connection's stream. */
  function Seen<C>(e: Event<C>, conn: StreamInfo): seq<SoloEvent<C>>
  {
    if !Belongs(e.info, conn) then []
    else if e.Data? then [SoloData(e.stream.content)] else [SoloEnd(e.stream.content)]
  }

  function EventsOf<C>(events: seq<Event<C>>, conn: StreamInfo): seq<SoloEvent<C>>
  {
    if events == [] then []
    else
      var e := events[|events| - 1];
      EventsOf(events[..|events| - 1], conn) + Seen(e, conn)
  }

  /** What one connection can see of the whole machine. */
  function Project<C>(st: State<C>, conn: StreamInfo): Solo<C>
  {
    Solo(SessionOf(st, conn), EventsOf(st.events, conn))
  }

  lemma EventsOfAppend<C>(events: seq<Event<C>>, e: Event<C>, conn: StreamInfo)
    ensures EventsOf(events + [e], conn) == EventsOf(events, conn) + Seen(e, conn)
  {
    assert (events + [e])[..|events|] == events;
  }

  /** The calls one update makes, as the connection sees them. */
  lemma UpdateEvents<C, P>(b: Behaviour<C, P>, st: State<C>, key: StreamInfo, p: Packet<P>, conn: StreamInfo)
    requires key in st.sessions
    ensures EventsOf(Update(b, st, key, p).events, conn) ==
      if Belongs(key, conn) then SoloStep(b, Solo(Some(st.sessions[key].content), EventsOf(st.events, conn)), p).events
      else EventsOf(st.events, conn)
  {
    var stream := st.sessions[key];
    var (updated, changed) := b.update(stream.content, p);
    var data := Data(key, Stream(stream.id, updated));
    var events := if changed then st.events + [data] else st.events;
    var after := Stream(stream.id, if changed then b.onData(updated) else updated);
    EventsOfAppend(st.events, data, conn);
    EventsOfAppend(events, End(key, after), conn);
    var seen := if changed then Seen(data, conn) else [];
    assert EventsOf(events, conn) == EventsOf(st.events, conn) + seen;
    if b.finished(after.content) {
      assert Update(b, st, key, p).events == events + [End(key, after)];
    } else {
      assert Update(b, st, key, p).events == events;
    }
  }

  lemma OtherSession<C, P>(b: Behaviour<C, P>, st: State<C>, p: Packet<P>, conn: StreamInfo)
    requires !Belongs(p.info, conn)
    ensures SessionOf(Step(b, st, p), conn) == SessionOf(st, conn)
  {
  }

  /** A packet of another connection is invisible. */
  lemma OtherStep<C, P>(b: Behaviour<C, P>, st: State<C>, p: Packet<P>, conn: StreamInfo)
    requires !Belongs(p.info, conn)
    ensures Project(Step(b, st, p), conn) == Project(st, conn)
  {
    OtherSession(b, st, p, conn);
    var key := Locate(st.sessions, p.info);
    if key.Some? {
      UpdateEvents(b, st, key.value, p, conn);
      assert !Belongs(key.value, conn);
      assert Step(b, st, p).events == Update(b, st, key.value, p).events;
    }
  }

  lemma OwnSession<C, P>(b: Behaviour<C, P>, st: State<C>, p: Packet<P>, conn: StreamInfo)
    requires OneEnd(st) && Belongs(p.info, conn)
    ensures SessionOf(Step(b, st, p), conn) == SoloStep(b, Project(st, conn), p).stream
    ensures SessionOf(st, conn) == match Locate(st.sessions, p.info) case None => None case Some(k) => Some(st.sessions[k].content)
  {
  }

  /** A packet of the connection does what it does to the machine with one stream. */
  lemma OwnStep<C, P>(b: Behaviour<C, P>, st: State<C>, p: Packet<P>, conn: StreamInfo)
    requires OneEnd(st) && Belongs(p.info, conn)
    ensures Project(Step(b, st, p), conn) == SoloStep(b, Project(st, conn), p)
  {
    OwnSession(b, st, p, conn);
    var key := Locate(st.sessions, p.info);
    if key.Some? {
      UpdateEvents(b, st, key.value, p, conn);
      assert Belongs(key.value, conn);
    }
  }

  /**
   Non-interference: for every trace, what a connection sees of the whole machine is the run of
   the one-stream machine on that connection's packets alone.
   */
  lemma {:induction false} NonInterference<C, P>(b: Behaviour<C, P>, trace: seq<Packet<P>>, conn: StreamInfo)
    ensures Project(Run(b, Start(), trace), conn) == SoloRun(b, Restrict(trace, conn))
  {
    if trace != [] {
      var before, p := trace[..|trace| - 1], trace[|trace| - 1];
      NonInterference(b, before, conn);
      var st := Run(b, Start(), before);
      if Belongs(p.info, conn) {
        RunOneEnd(b, before);
        OwnStep(b, st, p, conn);
        assert Restrict(trace, conn)[..|Restrict(before, conn)|] == Restrict(before, conn);
      } else {
        OtherStep(b, st, p, conn);
        assert Restrict(trace, conn) == Restrict(before, conn);
      }
    }
  }
}
