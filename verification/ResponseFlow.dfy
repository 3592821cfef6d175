/** What the matcher makes of one response, sent as a flow of TCP segments amid other traffic. */
module ResponseFlow {
  import opened Bytes
  import opened Wrappers
  import opened HttpText
  import opened HttpParsing
  import opened HttpRendering
  import opened RequestMatcher

  /** A non-empty segment of the flow, known by the acknowledgement number its segments share. */
  predicate Own(s: Segment, ack: uint32)
  {
    s.ServerData? && s.ack == ack && s.payload != []
  }

  /** In order, without gap or wrap-around: the sequence number counts the bytes received before. */
  predicate Next(s: Segment, received: seq<byte>, key: uint32, ack: uint32)
  {
    Own(s, ack) && s.seqNo == key + |received|
  }

  /** The payloads of the flow's in-order segments, one after another. */
  function Stream(trace: seq<Segment>, key: uint32, ack: uint32): seq<byte>
  {
    if trace == [] then []
    else
      var before, last := Stream(trace[..|trace| - 1], key, ack), trace[|trace| - 1];
      before + (if Next(last, before, key, ack) then last.payload else [])
  }

  /** The key under which the flow's pair stands. */
  function Place(received: seq<byte>, key: uint32, ack: uint32): uint32
  {
    if received == [] then key else ack
  }

  /** The segment that first answers the pair under `n` also finishes its header. */
  predicate FinishesAtOnce(st: State, n: uint32, payload: seq<byte>)
    requires n in st.pending
  {
    var data := Splice(st.pending[n].data, 0, payload);
    data.Some? && HeaderFinished(data.value)
  }

  /**
   The guards under which a segment that does not continue the flow leaves its pair alone. A request:
   it is filed under neither key. A response: its own pair stands elsewhere and does not come to rest
   under a key of the flow, or the splice puts back what is stored.
   */
  predicate Spares(st: State, s: Segment, received: seq<byte>, key: uint32, ack: uint32)
  {
    var place := Place(received, key, ack);
    match s
    case Ignored => true
    case ClientData(a, text) => RequestOf(text).None? || a !in {key, ack}
    case ServerData(n, a, payload) =>
      if a in st.pending then
        a != place || (received != [] && Splice(received, Wrap64(n - key), payload) == Some(received))
      else
        n !in st.pending || (n != place && (a !in {key, ack} || FinishesAtOnce(st, n, payload)))
  }

  /** Until its header is finished, every segment continues the flow or spares its pair. */
  predicate Flow(st: State, trace: seq<Segment>, key: uint32, ack: uint32)
  {
    forall i :: 0 <= i < |trace| ==> Admits(st, trace[..i], trace[i], key, ack)
  }

  predicate Admits(st: State, before: seq<Segment>, s: Segment, key: uint32, ack: uint32)
  {
    var received := Stream(before, key, ack);
    || HeaderFinished(received)
    || Next(s, received, key, ack)
    || Spares(Run(st, before).state, s, received, key, ack)
  }

  /** Traffic that uses neither key at all; whether a segment is such can be told without the table. */
  predicate Foreign(s: Segment, key: uint32, ack: uint32)
  {
    match s
    case Ignored => true
    case ClientData(a, text) => RequestOf(text).None? || a !in {key, ack}
    case ServerData(n, a, _) => a !in {key, ack} && n !in {key, ack}
  }

  /** The number of segments up to the one that finishes the header. */
  function FinishedAt(trace: seq<Segment>, key: uint32, ack: uint32): (n: nat)
    requires HeaderFinished(Stream(trace, key, ack))
    ensures n <= |trace| && HeaderFinished(Stream(trace[..n], key, ack))
    ensures forall i :: 0 <= i < n ==> !HeaderFinished(Stream(trace[..i], key, ack))
  {
    if trace != [] && HeaderFinished(Stream(trace[..|trace| - 1], key, ack)) then
      var n := FinishedAt(trace[..|trace| - 1], key, ack);
      assert forall i :: 0 <= i <= n ==> trace[..|trace| - 1][..i] == trace[..i];
      n
    else
      assert trace[..|trace|] == trace;
      UnfinishedBefore(trace, key, ack);
      |trace|
  }

  lemma FinishedGrows(data: seq<byte>, more: seq<byte>)
    requires HeaderFinished(data)
    ensures HeaderFinished(data + more)
  {
    var i :| 0 <= i < |data| && BlankLineAt(DecodeAscii(data), i);
    assert DecodeAscii(data + more)[i..i + 4] == DecodeAscii(data)[i..i + 4];
    assert BlankLineAt(DecodeAscii(data + more), i);
  }

  lemma {:induction false} StreamGrows(trace: seq<Segment>, i: nat, key: uint32, ack: uint32) returns (more: seq<byte>)
    requires i <= |trace|
    ensures Stream(trace, key, ack) == Stream(trace[..i], key, ack) + more
  {
    if i == |trace| {
      more := [];
      assert trace[..i] == trace;
    } else {
      more := StreamGrows(trace[..|trace| - 1], i, key, ack);
      assert trace[..|trace| - 1][..i] == trace[..i];
      var before, last := Stream(trace[..|trace| - 1], key, ack), trace[|trace| - 1];
      more := more + (if Next(last, before, key, ack) then last.payload else []);
    }
  }

  lemma UnfinishedBefore(trace: seq<Segment>, key: uint32, ack: uint32)
    requires trace != [] && !HeaderFinished(Stream(trace[..|trace| - 1], key, ack))
    ensures forall i :: 0 <= i < |trace| ==> !HeaderFinished(Stream(trace[..i], key, ack))
  {
    forall i | 0 <= i < |trace| ensures !HeaderFinished(Stream(trace[..i], key, ack)) {
      var before := trace[..|trace| - 1];
      var more := StreamGrows(before, i, key, ack);
      assert before[..i] == trace[..i];
      if HeaderFinished(Stream(trace[..i], key, ack)) {
        FinishedGrows(Stream(trace[..i], key, ack), more);
      }
    }
  }

  // -------------------------------------------------------------------------
  // One step
  // -------------------------------------------------------------------------

  /** Where the flow's pair stands while its header is unfinished. */
  predicate Waiting(st: State, pair: Pair, received: seq<byte>, key: uint32, ack: uint32)
  {
    if received == [] then
      key in st.pending && st.pending[key] == pair && ack !in st.pending
    else
      ack in st.pending && st.pending[ack] == pair.(data := received, firstSeq := key) && key !in st.pending
  }

  /** What is under the place of the pair after an absorbed payload, unless it is gone. */
  lemma AbsorbAt(st: State, k: uint32, n: uint32, payload: seq<byte>)
    requires k in st.pending && payload != [] && Absorb(st, k, n, payload).Running?
    ensures var end := Absorb(st, k, n, payload).state;
      && (forall l :: l != k ==> (l in end.pending <==> l in st.pending))
      && (forall l :: l != k && l in end.pending ==> end.pending[l] == st.pending[l])
      && (k in end.pending ==>
            && end.pending[k].data != []
            && Splice(st.pending[k].data, Wrap64(n - st.pending[k].firstSeq), payload) == Some(end.pending[k].data)
            && end.pending[k] == st.pending[k].(data := end.pending[k].data))
  {
    SpliceGrows(st.pending[k].data, Wrap64(n - st.pending[k].firstSeq), payload);
  }

  lemma SparesFound(st: State, n: uint32, a: uint32, payload: seq<byte>, pair: Pair, received: seq<byte>, key: uint32, ack: uint32)
    requires Waiting(st, pair, received, key, ack) && key != ack && pair.data == [] && !HeaderFinished(received)
    requires payload != [] && a in st.pending && Step(st, ServerData(n, a, payload)).Running?
    ensures Waiting(Step(st, ServerData(n, a, payload)).state, pair, received, key, ack)
       <==> Spares(st, ServerData(n, a, payload), received, key, ack)
  {
    AbsorbAt(st, a, n, payload);
  }

  lemma SparesMoved(st: State, n: uint32, a: uint32, payload: seq<byte>, pair: Pair, received: seq<byte>, key: uint32, ack: uint32)
    requires Waiting(st, pair, received, key, ack) && key != ack && pair.data == [] && !HeaderFinished(received)
    requires payload != [] && a !in st.pending && n in st.pending && Step(st, ServerData(n, a, payload)).Running?
    ensures Waiting(Step(st, ServerData(n, a, payload)).state, pair, received, key, ack)
       <==> Spares(st, ServerData(n, a, payload), received, key, ack)
  {
    var moved := Rekey(st, n, a);
    assert Step(st, ServerData(n, a, payload)) == Absorb(moved, a, n, payload);
    AbsorbAt(moved, a, n, payload);
    assert Wrap64(0) == 0;
    var end := Absorb(moved, a, n, payload).state;
    assert a in end.pending <==> !FinishesAtOnce(st, n, payload);
    assert n !in end.pending;
  }

  /** `_handlePDU:` looks at non-empty payloads only. */
  predicate Proper(s: Segment)
  {
    s.ServerData? ==> s.payload != []
  }

  /** A segment leaves the pair, which was filed before, as it is exactly under these guards. */
  lemma SparesIff(st: State, s: Segment, pair: Pair, received: seq<byte>, key: uint32, ack: uint32)
    requires Waiting(st, pair, received, key, ack) && key != ack && pair.data == [] && !HeaderFinished(received)
    requires Proper(s) && Step(st, s).Running? && (s.ClientData? ==> pair.serial < |st.filed|)
    ensures Waiting(Step(st, s).state, pair, received, key, ack) <==> Spares(st, s, received, key, ack)
  {
    if s.ServerData? {
      if s.ack in st.pending {
        SparesFound(st, s.seqNo, s.ack, s.payload, pair, received, key, ack);
      } else if s.seqNo in st.pending {
        SparesMoved(st, s.seqNo, s.ack, s.payload, pair, received, key, ack);
      }
    }
  }

  /** The splice puts back what is stored exactly for one byte, before the last, received again. */
  lemma SpliceKeepsIff(data: seq<byte>, offset: nat, payload: seq<byte>)
    requires |data| < TWO_64 && offset < TWO_64 && payload != []
    ensures Splice(data, offset, payload) == Some(data) <==> offset < |data| - 1 && payload == [data[offset]]
  {
    if offset <= |data| {
      assert Wrap64(|data| - offset) == |data| - offset;
      var spliced := Splice(data, offset, payload).value;
      if |payload| == 1 && offset < |data| - 1 {
        assert spliced[offset] == payload[0];
        assert data == data[..offset] + [data[offset]] + data[offset + 1..];
      } else {
        assert |spliced| != |data|;
      }
    }
  }

  /** Traffic that uses neither key spares the pair. */
  lemma ForeignSpares(st: State, s: Segment, received: seq<byte>, key: uint32, ack: uint32)
    requires Foreign(s, key, ack)
    ensures Spares(st, s, received, key, ack)
  {
  }

  /** So a flow amid such traffic is a flow, whatever else is pending. */
  lemma ForeignFlow(st: State, trace: seq<Segment>, key: uint32, ack: uint32)
    requires forall i :: 0 <= i < |trace| ==>
      var received := Stream(trace[..i], key, ack);
      HeaderFinished(received) || Foreign(trace[i], key, ack) || Next(trace[i], received, key, ack)
    ensures Flow(st, trace, key, ack)
  {
    forall i | 0 <= i < |trace| ensures Admits(st, trace[..i], trace[i], key, ack) {
      if Foreign(trace[i], key, ack) {
        ForeignSpares(Run(st, trace[..i]).state, trace[i], Stream(trace[..i], key, ack), key, ack);
      }
    }
  }

  // -------------------------------------------------------------------------
  // What other connections can do
  // -------------------------------------------------------------------------

  /** Any request filed under the number where the pair stands throws it out of the table. */
  lemma ForeignRequestDisplaces(st: State, text: Option<string>, pair: Pair, received: seq<byte>, key: uint32, ack: uint32)
    requires Accounted(st) && Waiting(st, pair, received, key, ack) && RequestOf(text).Some?
    ensures var place := Place(received, key, ack);
      var step := Step(st, ClientData(place, text));
      && step.Running? && Displacement(pair.serial, place, |st.filed|) in step.state.displaced
      && pair.serial !in PendingSerials(step.state)
  {
    var place := Place(received, key, ack);
    FilePending(st, place, RequestOf(text).value);
    assert pair.serial in PendingSerials(st) && st.pending[place].serial == pair.serial;
  }

  /** Addresses are not looked at: a packet of any other host that carries the flow's numbers is spliced in. */
  lemma OtherHostAppends(st: State, local: set<string>, p: Packet, host: string, pair: Pair, received: seq<byte>, key: uint32, ack: uint32)
    requires Waiting(st, pair, received, key, ack) && key != ack && pair.data == []
    requires p.Tcp? && p.src !in local && host !in local && Next(Observe(local, p), received, key, ack)
    ensures Appended(st, Step(st, Observe(local, p.(src := host))), pair, received + p.payload, key, ack)
  {
    assert Observe(local, p.(src := host)) == Observe(local, p);
    AppendStep(st, Observe(local, p), pair, received, key, ack);
  }

  lemma SpliceAppends(data: seq<byte>, payload: seq<byte>)
    requires payload != []
    ensures Splice(data, |data|, payload) == Some(data + payload)
  {
    assert Wrap64(0) == 0;
    assert data[..|data|] + payload + data[|data|..] == data + payload;
  }

  /** What the flow's own segment does. */
  ghost predicate Appended(st: State, step: Outcome, pair: Pair, all: seq<byte>, key: uint32, ack: uint32)
  {
    && step.Running?
    && (if HeaderFinished(all) then
          step.state.completed == st.completed + [Exchange(pair.serial, pair.request, ResponseOf(DecodeAscii(all)))]
        else Waiting(step.state, pair, all, key, ack) && step.state.completed == st.completed)
  }

  lemma AbsorbAppends(st: State, k: uint32, seqNo: uint32, payload: seq<byte>)
    requires k in st.pending && payload != [] && Wrap64(seqNo - st.pending[k].firstSeq) == |st.pending[k].data|
    ensures var all := st.pending[k].data + payload;
      Absorb(st, k, seqNo, payload) == Running(if HeaderFinished(all) then Complete(st, k, all) else Store(st, k, all))
  {
    SpliceAppends(st.pending[k].data, payload);
  }

  lemma AppendFirst(st: State, s: Segment, pair: Pair, key: uint32, ack: uint32)
    requires Waiting(st, pair, [], key, ack) && key != ack && pair.data == []
    requires Own(s, ack) && s.seqNo == key
    ensures Appended(st, Step(st, s), pair, s.payload, key, ack)
  {
    var st' := Rekey(st, key, ack);
    assert st'.pending[ack] == pair.(firstSeq := key) && key !in st'.pending;
    assert Step(st, s) == Absorb(st', ack, key, s.payload);
    assert st'.pending[ack].data + s.payload == s.payload;
    AbsorbAppends(st', ack, key, s.payload);
  }

  lemma AppendNext(st: State, s: Segment, pair: Pair, received: seq<byte>, key: uint32, ack: uint32)
    requires Waiting(st, pair, received, key, ack) && received != []
    requires Own(s, ack) && s.seqNo == key + |received|
    ensures Appended(st, Step(st, s), pair, received + s.payload, key, ack)
  {
    assert Step(st, s) == Absorb(st, ack, s.seqNo, s.payload);
    AbsorbAppends(st, ack, s.seqNo, s.payload);
  }

  /** The payload of the flow's next segment is appended. */
  lemma AppendStep(st: State, s: Segment, pair: Pair, received: seq<byte>, key: uint32, ack: uint32)
    requires Waiting(st, pair, received, key, ack) && key != ack && pair.data == []
    requires Own(s, ack) && s.seqNo == key + |received|
    ensures Appended(st, Step(st, s), pair, received + s.payload, key, ack)
  {
    if received == [] {
      AppendFirst(st, s, pair, key, ack);
      assert [] + s.payload == s.payload;
    } else {
      AppendNext(st, s, pair, received, key, ack);
    }
  }

  /** An in-order segment is appended exactly when the byte count has not passed 2^32; past it, it raises. */
  lemma WrappedSequenceRaises(st: State, s: Segment, ack: uint32)
    requires ack in st.pending && Own(s, ack)
    requires |st.pending[ack].data| < 0x1_0000_0000
    requires s.seqNo == (st.pending[ack].firstSeq + |st.pending[ack].data|) % 0x1_0000_0000
    ensures Step(st, s).Raised? <==> st.pending[ack].firstSeq + |st.pending[ack].data| >= 0x1_0000_0000
  {
    var first, data := st.pending[ack].firstSeq, st.pending[ack].data;
    SpliceRaisesIff(data, Wrap64(s.seqNo - first), s.payload);
    if first + |data| >= TWO_32 {
      assert s.seqNo == first + |data| - TWO_32;
      assert Wrap64(s.seqNo - first) == TWO_64 + s.seqNo - first;
    } else {
      assert s.seqNo - first == |data|;
    }
  }

  /** A response whose acknowledgement number is the request's own key is not re-keyed, and raises. */
  lemma SameAcknowledgementRaises(st: State, key: uint32, payload: seq<byte>)
    requires key in st.pending && st.pending[key].data == [] && st.pending[key].firstSeq == 0 && payload != []
    ensures Step(st, ServerData(key, key, payload)).Raised? <==> key > 0
  {
    SpliceRaisesIff([], key, payload);
  }

  // -------------------------------------------------------------------------
  // Whole flows
  // -------------------------------------------------------------------------

  /** `e` is among the exchanges, and no other one is for the same request. */
  ghost predicate Once(exchanges: seq<Exchange>, e: Exchange)
  {
    && (exists i :: 0 <= i < |exchanges| && exchanges[i] == e)
    && (forall i, j :: 0 <= i < j < |exchanges| ==> exchanges[i].serial != e.serial || exchanges[j].serial != e.serial)
  }

  /** `e` is delivered, once, and its pair is gone from the table. */
  ghost predicate DeliveredOnce(st: State, e: Exchange)
  {
    && Once(st.completed, e)
    && (forall k :: k in st.pending ==> st.pending[k].serial != e.serial)
  }

  lemma CompletedOnce(st: State, e: Exchange)
    requires Accounted(st) && e in st.completed
    ensures DeliveredOnce(st, e)
  {
    var i :| 0 <= i < |st.completed| && st.completed[i] == e;
    assert e.serial in CompletedSerials(st);
    forall k | k in st.pending ensures st.pending[k].serial != e.serial {
      assert st.pending[k].serial in PendingSerials(st);
    }
  }

  lemma CompletedStays(st: State, s: Segment, e: Exchange)
    requires e in st.completed
    ensures e in Step(st, s).state.completed
  {
  }

  ghost predicate Ready(st: State, key: uint32, ack: uint32)
  {
    Accounted(st) && key in st.pending && st.pending[key].data == [] && key != ack && ack !in st.pending
  }

  /** The exchange the flow should produce. */
  function Expected(pair: Pair, trace: seq<Segment>, key: uint32, ack: uint32): Exchange
    requires HeaderFinished(Stream(trace, key, ack))
  {
    Exchange(pair.serial, pair.request, ResponseOf(DecodeAscii(Stream(trace[..FinishedAt(trace, key, ack)], key, ack))))
  }

  lemma FlowPrefix(st: State, trace: seq<Segment>, key: uint32, ack: uint32)
    requires Flow(st, trace, key, ack) && trace != []
    ensures Flow(st, trace[..|trace| - 1], key, ack)
  {
    var before := trace[..|trace| - 1];
    forall i | 0 <= i < |before| ensures Admits(st, before[..i], before[i], key, ack) {
      assert before[..i] == trace[..i] && before[i] == trace[i];
    }
  }

  /** Sparing segments change nothing, also one that raises. */
  lemma SparesStep(st: State, s: Segment, pair: Pair, received: seq<byte>, key: uint32, ack: uint32)
    requires Waiting(st, pair, received, key, ack) && key != ack && pair.data == [] && !HeaderFinished(received)
    requires Spares(st, s, received, key, ack) && Step(st, s).Running?
    ensures Waiting(Step(st, s).state, pair, received, key, ack)
  {
    if s.ServerData? {
      if s.ack in st.pending {
        SparesFoundStep(st, s, pair, received, key, ack);
      } else if s.seqNo in st.pending {
        SparesMovedStep(st, s, pair, received, key, ack);
      }
    }
  }

  lemma SparesFoundStep(st: State, s: Segment, pair: Pair, received: seq<byte>, key: uint32, ack: uint32)
    requires Waiting(st, pair, received, key, ack) && key != ack && pair.data == [] && !HeaderFinished(received)
    requires Spares(st, s, received, key, ack) && Step(st, s).Running? && s.ServerData? && s.ack in st.pending
    ensures Waiting(Step(st, s).state, pair, received, key, ack)
  {
  }

  lemma SparesMovedStep(st: State, s: Segment, pair: Pair, received: seq<byte>, key: uint32, ack: uint32)
    requires Waiting(st, pair, received, key, ack) && key != ack && pair.data == [] && !HeaderFinished(received)
    requires Spares(st, s, received, key, ack) && Step(st, s).Running?
    requires s.ServerData? && s.ack !in st.pending && s.seqNo in st.pending
    ensures Waiting(Step(st, s).state, pair, received, key, ack)
  {
    assert Wrap64(0) == 0;
  }

  lemma {:induction false} FlowProgress(st: State, trace: seq<Segment>, key: uint32, ack: uint32)
    requires Ready(st, key, ack) && Flow(st, trace, key, ack) && Run(st, trace).Running?
    ensures var end, pair, received := Run(st, trace).state, st.pending[key], Stream(trace, key, ack);
      if HeaderFinished(received) then Expected(pair, trace, key, ack) in end.completed
      else Waiting(end, pair, received, key, ack)
  {
    if trace != [] {
      var before, s := trace[..|trace| - 1], trace[|trace| - 1];
      FlowPrefix(st, trace, key, ack);
      FlowProgress(st, before, key, ack);
      var mid, pair, received := Run(st, before).state, st.pending[key], Stream(before, key, ack);
      assert Admits(st, before, s, key, ack);
      if HeaderFinished(received) {
        StillFinished(trace, key, ack);
        CompletedStays(mid, s, Expected(pair, before, key, ack));
      } else if Next(s, received, key, ack) {
        AppendStep(mid, s, pair, received, key, ack);
        if HeaderFinished(Stream(trace, key, ack)) {
          assert trace[..FinishedAt(trace, key, ack)] == trace;
        }
      } else {
        SparesStep(mid, s, pair, received, key, ack);
        assert Stream(trace, key, ack) == received;
      }
    }
  }

  lemma StillFinished(trace: seq<Segment>, key: uint32, ack: uint32)
    requires trace != [] && HeaderFinished(Stream(trace[..|trace| - 1], key, ack))
    ensures HeaderFinished(Stream(trace, key, ack))
    ensures trace[..FinishedAt(trace, key, ack)] == trace[..|trace| - 1][..FinishedAt(trace[..|trace| - 1], key, ack)]
  {
    var before, last := Stream(trace[..|trace| - 1], key, ack), trace[|trace| - 1];
    FinishedGrows(before, if Next(last, before, key, ack) then last.payload else []);
  }

  /**
   Reassembly. After every segment the pair holds exactly the concatenated in-order payloads, until
   that concatenation first contains CRLFCRLF; from then on the pair is delivered, once, with the
   response parsed from it. Sparing traffic may be interleaved at will.
   */
  lemma Reassembly(st: State, trace: seq<Segment>, key: uint32, ack: uint32)
    requires Ready(st, key, ack) && Flow(st, trace, key, ack) && Run(st, trace).Running?
    ensures var end, pair, received := Run(st, trace).state, st.pending[key], Stream(trace, key, ack);
      if HeaderFinished(received) then DeliveredOnce(end, Expected(pair, trace, key, ack))
      else
        && Waiting(end, pair, received, key, ack)
        && forall i :: 0 <= i < |end.completed| ==> end.completed[i].serial != pair.serial
  {
    var end, pair, received := Run(st, trace).state, st.pending[key], Stream(trace, key, ack);
    FlowProgress(st, trace, key, ack);
    RunKeeps(st, trace);
    if HeaderFinished(received) {
      CompletedOnce(end, Expected(pair, trace, key, ack));
    } else {
      assert pair.serial in PendingSerials(end) by {
        assert end.pending[Place(received, key, ack)].serial == pair.serial;
      }
      forall i | 0 <= i < |end.completed| ensures end.completed[i].serial != pair.serial {
        assert end.completed[i].serial in CompletedSerials(end);
      }
    }
  }

  /** At every unfinished point of the trace the pair holds exactly the in-order payloads so far. */
  ghost predicate Tracks(st: State, trace: seq<Segment>, key: uint32, ack: uint32)
    requires key in st.pending
  {
    forall i :: 0 <= i <= |trace| ==> TracksAt(st, trace[..i], key, ack)
  }

  ghost predicate TracksAt(st: State, before: seq<Segment>, key: uint32, ack: uint32)
    requires key in st.pending
  {
    var received := Stream(before, key, ack);
    HeaderFinished(received) || Waiting(Run(st, before).state, st.pending[key], received, key, ack)
  }

  /** `Flow` is exact: the pair follows the stream at every point if and only if no segment breaks the guards. */
  lemma ReassemblyIff(st: State, trace: seq<Segment>, key: uint32, ack: uint32)
    requires Ready(st, key, ack) && Run(st, trace).Running? && forall i :: 0 <= i < |trace| ==> Proper(trace[i])
    ensures Flow(st, trace, key, ack) <==> Tracks(st, trace, key, ack)
  {
    if Flow(st, trace, key, ack) {
      forall i | 0 <= i <= |trace| ensures TracksAt(st, trace[..i], key, ack) {
        FlowTracksAt(st, trace, i, key, ack);
      }
    }
    if Tracks(st, trace, key, ack) {
      forall i | 0 <= i < |trace| ensures Admits(st, trace[..i], trace[i], key, ack) {
        TracksAdmitsAt(st, trace, i, key, ack);
      }
    }
  }

  lemma TracksAdmitsAt(st: State, trace: seq<Segment>, i: nat, key: uint32, ack: uint32)
    requires Ready(st, key, ack) && Tracks(st, trace, key, ack) && Run(st, trace).Running?
    requires i < |trace| && Proper(trace[i])
    ensures Admits(st, trace[..i], trace[i], key, ack)
  {
    RunTake(st, trace, i + 1);
    assert TracksAt(st, trace[..i], key, ack) && TracksAt(st, trace[..i + 1], key, ack);
    TracksAdmits(st, trace[..i], trace[i], trace[..i + 1], key, ack);
  }

  lemma FlowTracksAt(st: State, trace: seq<Segment>, i: nat, key: uint32, ack: uint32)
    requires Ready(st, key, ack) && Flow(st, trace, key, ack) && Run(st, trace).Running? && i <= |trace|
    ensures TracksAt(st, trace[..i], key, ack)
  {
    FlowTake(st, trace, i, key, ack);
    RunTake(st, trace, i);
    FlowProgress(st, trace[..i], key, ack);
  }

  lemma TracksAdmits(st: State, before: seq<Segment>, s: Segment, after: seq<Segment>, key: uint32, ack: uint32)
    requires Ready(st, key, ack) && after == before + [s] && Run(st, after).Running? && Proper(s)
    requires TracksAt(st, before, key, ack) && TracksAt(st, after, key, ack)
    ensures Admits(st, before, s, key, ack)
  {
    assert after[..|after| - 1] == before;
    var received, mid := Stream(before, key, ack), Run(st, before).state;
    if !HeaderFinished(received) && !Next(s, received, key, ack) {
      assert Stream(after, key, ack) == received;
      RunKeeps(st, before);
      SparesIff(mid, s, st.pending[key], received, key, ack);
    }
  }

  lemma FlowTake(st: State, trace: seq<Segment>, n: nat, key: uint32, ack: uint32)
    requires Flow(st, trace, key, ack) && n <= |trace|
    ensures Flow(st, trace[..n], key, ack)
  {
    forall i | 0 <= i < n ensures Admits(st, trace[..n][..i], trace[..n][i], key, ack) {
      assert trace[..n][..i] == trace[..i] && trace[..n][i] == trace[i];
    }
  }

  lemma {:induction false} RunTake(st: State, trace: seq<Segment>, n: nat)
    requires Run(st, trace).Running? && n <= |trace|
    ensures Run(st, trace[..n]).Running?
  {
    if n < |trace| {
      assert trace[..|trace| - 1][..n] == trace[..n];
      RunTake(st, trace[..|trace| - 1], n);
    } else {
      assert trace[..n] == trace;
    }
  }

  /** The flow's own segments never raise: only other traffic can, or segments after completion. */
  lemma OwnSegmentsNeverRaise(st: State, trace: seq<Segment>, s: Segment, key: uint32, ack: uint32)
    requires Ready(st, key, ack) && Flow(st, trace, key, ack) && Run(st, trace).Running?
    requires !HeaderFinished(Stream(trace, key, ack)) && Next(s, Stream(trace, key, ack), key, ack)
    ensures Run(st, trace + [s]).Running?
  {
    FlowProgress(st, trace, key, ack);
    AppendStep(Run(st, trace).state, s, st.pending[key], Stream(trace, key, ack), key, ack);
    assert (trace + [s])[..|trace|] == trace;
  }

  /** Only the flow's own segments, none after the one that finishes the header. */
  predicate Uninterrupted(trace: seq<Segment>, key: uint32, ack: uint32)
  {
    forall i :: 0 <= i < |trace| ==> Next(trace[i], Stream(trace[..i], key, ack), key, ack) && !HeaderFinished(Stream(trace[..i], key, ack))
  }

  lemma UninterruptedPrefix(st: State, trace: seq<Segment>, key: uint32, ack: uint32)
    requires Uninterrupted(trace, key, ack) && trace != []
    ensures Uninterrupted(trace[..|trace| - 1], key, ack) && Flow(st, trace[..|trace| - 1], key, ack)
  {
    var before := trace[..|trace| - 1];
    assert forall i :: 0 <= i < |before| ==> before[..i] == trace[..i];
    assert forall i :: 0 <= i < |before| ==> Admits(st, before[..i], before[i], key, ack);
  }

  /** An uninterrupted flow up to its finishing segment always runs through. */
  lemma {:induction false} UninterruptedFlowRuns(st: State, trace: seq<Segment>, key: uint32, ack: uint32)
    requires Ready(st, key, ack) && Uninterrupted(trace, key, ack)
    ensures Run(st, trace).Running?
  {
    if trace != [] {
      var before, s := trace[..|trace| - 1], trace[|trace| - 1];
      UninterruptedPrefix(st, trace, key, ack);
      UninterruptedFlowRuns(st, before, key, ack);
      OwnSegmentsNeverRaise(st, before, s, key, ack);
      assert before + [s] == trace;
    }
  }

  // -------------------------------------------------------------------------
  // Independence of the segmentation, and the end-to-end statement
  // -------------------------------------------------------------------------

  lemma DecodeAppend(a: seq<byte>, b: seq<byte>)
    ensures DecodeAscii(a + b) == DecodeAscii(a) + DecodeAscii(b)
  {
  }

  lemma ResponseOfLonger(data: seq<byte>, more: seq<byte>)
    requires HeaderFinished(data)
    ensures ResponseOf(DecodeAscii(data + more)) == ResponseOf(DecodeAscii(data))
  {
    var text := DecodeAscii(data);
    var i :| 0 <= i < |data| && BlankLineAt(text, i);
    var head, body := text[..i], text[i + 4..];
    assert text == head + CRLF_CRLF + body;
    DecodeAppend(data, more);
    assert DecodeAscii(data + more) == head + CRLF_CRLF + (body + DecodeAscii(more));
    ResponseIgnoresBody(head, body);
    ResponseIgnoresBody(head, body + DecodeAscii(more));
  }

  /** However the bytes are cut into segments, the response is the one parsed from the whole stream. */
  lemma SegmentationIndependence(pair: Pair, trace: seq<Segment>, key: uint32, ack: uint32)
    requires HeaderFinished(Stream(trace, key, ack))
    ensures Expected(pair, trace, key, ack) == Exchange(pair.serial, pair.request, ResponseOf(DecodeAscii(Stream(trace, key, ack))))
  {
    var n := FinishedAt(trace, key, ack);
    var more := StreamGrows(trace, n, key, ack);
    ResponseOfLonger(Stream(trace[..n], key, ack), more);
  }

  /** The bytes of an ASCII head, and any bytes after it. */
  predicate SentBytes(data: seq<byte>, head: string, body: seq<byte>)
  {
    IsAscii(head) && data == AsciiBytes(head) + body
  }

  /** A server that sends a rendered response is matched with its request and read back, header for header. */
  lemma EndToEnd(st: State, trace: seq<Segment>, key: uint32, ack: uint32,
                 version: string, status: int, reason: string, headers: seq<Header>, body: seq<byte>)
    requires Ready(st, key, ack) && Flow(st, trace, key, ack) && Run(st, trace).Running?
    requires Free(version, IsWhitespace) && LineSafe(reason)
    requires NS_INTEGER_MIN <= status <= NS_INTEGER_MAX && Sendable(headers)
    requires SentBytes(Stream(trace, key, ack), RenderHead(RenderStatusLine(version, status, reason), headers), body)
    ensures DeliveredOnce(Run(st, trace).state,
              Exchange(st.pending[key].serial, st.pending[key].request,
                       HttpResponse(status, Some(version), HeaderMap(Trimmed(headers), map[]))))
  {
    var data, head := Stream(trace, key, ack), RenderHead(RenderStatusLine(version, status, reason), headers);
    DecodeAsciiBytes(head, body);
    var d := HeadEndsBlank(RenderStatusLine(version, status, reason), headers);
    var text := DecodeAscii(body);
    assert DecodeAscii(data) == d + CRLF_CRLF + text;
    assert DecodeAscii(data)[|d|..|d| + 4] == CRLF_CRLF;
    assert BlankLineAt(DecodeAscii(data), |d|);
    Reassembly(st, trace, key, ack);
    SegmentationIndependence(st.pending[key], trace, key, ack);
    ResponseRoundTrip(version, status, reason, headers, text);
  }

  lemma {:induction false} RunConcat(st: State, a: seq<Segment>, b: seq<Segment>)
    requires Run(st, a).Running?
    ensures Run(st, a + b) == Run(Run(st, a).state, b)
  {
    if b == [] {
      assert a + b == a;
    } else {
      var b' := b[..|b| - 1];
      assert (a + b)[..|a + b| - 1] == a + b';
      RunConcat(st, a, b');
    }
  }

  /** What is filed is ready for its response. */
  lemma FiledIsReady(before: seq<Segment>, key: uint32, text: Option<string>, ack: uint32)
    requires Run(START, before).Running? && RequestOf(text).Some?
    requires key != ack && ack !in Run(START, before).state.pending
    ensures var st := Run(START, before + [ClientData(key, text)]);
      st.Running? && Ready(st.state, key, ack)
      && st.state.pending[key].serial == |Filings(before)| && st.state.pending[key].request == RequestOf(text).value
  {
    StartAccounted();
    RunKeeps(START, before);
    RunFiles(before);
    FileKeeps(Run(START, before).state, key, RequestOf(text).value);
    assert (before + [ClientData(key, text)])[..|before|] == before;
  }

  /**
   From the start of the capture: after any traffic, a request and its response, amid sparing
   traffic and in any segmentation, give one delivery of just this request with just this response.
   */
  lemma WholeExchange(before: seq<Segment>, key: uint32, text: Option<string>, flow: seq<Segment>, ack: uint32,
                      version: string, status: int, reason: string, headers: seq<Header>, body: seq<byte>)
    requires Run(START, before).Running? && RequestOf(text).Some?
    requires key != ack && ack !in Run(START, before).state.pending
    requires Flow(Run(START, before + [ClientData(key, text)]).state, flow, key, ack)
    requires Run(START, before + [ClientData(key, text)] + flow).Running?
    requires Free(version, IsWhitespace) && LineSafe(reason)
    requires NS_INTEGER_MIN <= status <= NS_INTEGER_MAX && Sendable(headers)
    requires SentBytes(Stream(flow, key, ack), RenderHead(RenderStatusLine(version, status, reason), headers), body)
    ensures DeliveredOnce(Run(START, before + [ClientData(key, text)] + flow).state,
              Exchange(|Filings(before)|, RequestOf(text).value,
                       HttpResponse(status, Some(version), HeaderMap(Trimmed(headers), map[]))))
  {
    FiledIsReady(before, key, text, ack);
    RunConcat(START, before + [ClientData(key, text)], flow);
    EndToEnd(Run(START, before + [ClientData(key, text)]).state, flow, key, ack, version, status, reason, headers, body);
  }
}
