/** RHSniffOperation as a class: the mutable table, its mutable pairs, and the handler calls it queues. */
module SniffOperation {
  import opened Bytes
  import opened Wrappers
  import opened HttpText
  import opened HttpParsing
  import opened RequestMatcher

  /** The arguments of one handler call. */
  type Call = (HttpRequest, HttpResponse)

  /** RHHTTPRequestResponsePair. `serial` identifies the object in the run's history. */
  class RequestResponsePair {
    var seqNo: uint32
    var request: HttpRequest
    var responseData: seq<byte>
    var firstResponseDataSeq: uint32
    ghost const serial: nat

    /** The source sets `seq` twice; the acknowledgement number stays. */
    constructor (ackNo: uint32, request: HttpRequest, ghost serial: nat)
      ensures seqNo == ackNo && this.request == request && responseData == [] && firstResponseDataSeq == 0
      ensures this.serial == serial
    {
      this.seqNo := ackNo;
      this.request := request;
      this.responseData := [];
      this.firstResponseDataSeq := 0;
      this.serial := serial;
    }

    ghost function View(): Pair
      reads this
    {
      Pair(serial, seqNo, request, responseData, firstResponseDataSeq)
    }
  }

  class Operation {
    const localAddresses: set<string>
    var requestMap: map<uint32, RequestResponsePair>
    /** The handler calls dispatched to the main queue; nothing is dispatched without a handler. */
    var didReceive: bool
    var dispatched: seq<Call>
    ghost var filed: seq<Filing>
    ghost var displaced: seq<Displacement>
    ghost var completed: seq<Exchange>

    constructor (localAddresses: set<string>, didReceive: bool)
      ensures Valid() && View() == START && fresh(requestMap.Values)
      ensures this.localAddresses == localAddresses && this.didReceive == didReceive && dispatched == []
    {
      this.localAddresses := localAddresses;
      this.didReceive := didReceive;
      requestMap, dispatched := map[], [];
      filed, displaced, completed := [], [], [];
    }

    /** No object sits under two keys. */
    ghost predicate Valid()
      reads this, requestMap.Values
    {
      forall k, l :: k in requestMap && l in requestMap && requestMap[k] == requestMap[l] ==> k == l
    }

    ghost function View(): State
      reads this, requestMap.Values
    {
      State(map k | k in requestMap :: requestMap[k].View(), filed, displaced, completed)
    }

    /** `_handlePDU:`; `raised` when the call ends in an NSRangeException. */
    method HandlePdu(p: Packet) returns (raised: bool)
      requires Valid()
      modifies this`requestMap, this`dispatched, this`filed, this`displaced, this`completed, requestMap.Values
      ensures Valid() && fresh(requestMap.Values - old(requestMap.Values))
      ensures Step(old(View()), Observe(localAddresses, p)) == if raised then Raised(View()) else Running(View())
      ensures Dispatches(didReceive, old(completed), completed, old(dispatched), dispatched)
      ensures PacketEffect(old(View()), localAddresses, p, if raised then Raised(View()) else Running(View()))
    {
      PacketEffects(View(), localAddresses, p);
      if p.NotTcp? {
        return false;
      }
      if p.flags == SYN + ACK || p.flags == SYN || p.flags == FIN {
        return false;
      }
      var isRequest, isResponse := p.src in localAddresses, p.dst in localAddresses;
      if isRequest && |p.payload| > 0 {
        var request := ParseRequest(p.text);
        if request.Some? {
          FileRequest(p.ackNo, request.value);
        }
        return false;
      } else if isResponse && |p.payload| > 0 {
        raised := HandleResponse(p.seqNo, p.ackNo, p.payload);
      } else {
        return false;
      }
    }

    /** The capture loop: every packet goes to `_handlePDU:` until one raises. */
    method SniffLoop(packets: seq<Packet>) returns (raised: bool)
      requires Valid()
      modifies this`requestMap, this`dispatched, this`filed, this`displaced, this`completed, requestMap.Values
      ensures Valid()
      ensures Run(old(View()), Observed(localAddresses, packets)) == if raised then Raised(View()) else Running(View())
      ensures Dispatches(didReceive, old(completed), completed, old(dispatched), dispatched)
    {
      for i := 0 to |packets|
        invariant Valid() && fresh(requestMap.Values - old(requestMap.Values))
        invariant Run(old(View()), Observed(localAddresses, packets[..i])) == Running(View())
        invariant Dispatches(didReceive, old(completed), completed, old(dispatched), dispatched)
      {
        ghost var before, calls := completed, dispatched;
        raised := HandlePdu(packets[i]);
        DispatchesOn(didReceive, old(completed), before, completed, old(dispatched), calls, dispatched);
        ObservedRun(old(View()), localAddresses, packets, i);
        if raised {
          return true;
        }
      }
      assert packets[..|packets|] == packets;
      return false;
    }

    /** The request branch. */
    method FileRequest(ackNo: uint32, request: HttpRequest)
      requires Valid()
      modifies this`requestMap, this`filed, this`displaced
      ensures Valid() && fresh(requestMap.Values - old(requestMap.Values))
      ensures View() == File(old(View()), ackNo, request)
    {
      ghost var before := View();
      var requestPacket := new RequestResponsePair(ackNo, request, |filed|);
      if ackNo in requestMap {
        displaced := displaced + [Displacement(requestMap[ackNo].serial, ackNo, |filed|)];
      }
      filed := filed + [Filing(ackNo, request)];
      requestMap := requestMap[ackNo := requestPacket];
      assert View().pending == File(before, ackNo, request).pending;
    }

    /** The response branch. */
    method HandleResponse(seqNo: uint32, ackNo: uint32, payload: seq<byte>) returns (raised: bool)
      requires Valid()
      modifies this`requestMap, this`dispatched, this`completed, requestMap.Values
      ensures Valid() && requestMap.Values <= old(requestMap.Values)
      ensures Step(old(View()), ServerData(seqNo, ackNo, payload)) == if raised then Raised(View()) else Running(View())
      ensures Dispatches(didReceive, old(completed), completed, old(dispatched), dispatched)
    {
      if ackNo !in requestMap {
        if seqNo !in requestMap {
          return false;
        }
        RekeyPair(seqNo, ackNo);
      }
      raised := AbsorbPayload(seqNo, ackNo, payload);
    }

    /** The pair found under `seq` moves to `ackSeq` and remembers where its response starts. */
    method RekeyPair(seqNo: uint32, ackNo: uint32)
      requires Valid() && seqNo in requestMap && ackNo !in requestMap
      modifies this`requestMap, requestMap[seqNo]
      ensures Valid() && requestMap.Values == old(requestMap.Values) && ackNo in requestMap
      ensures View() == Rekey(old(View()), seqNo, ackNo)
    {
      ghost var before, values := View(), requestMap.Values;
      var requestPacket := requestMap[seqNo];
      requestMap := requestMap[ackNo := requestPacket];
      requestMap := requestMap - {seqNo};
      requestPacket.firstResponseDataSeq := seqNo;
      assert requestMap.Values == values by {
        assert requestMap[ackNo] == requestPacket;
        forall k | k in old(requestMap) ensures old(requestMap)[k] in requestMap.Values {
          assert k != seqNo ==> requestMap[k] == old(requestMap)[k];
        }
      }
      assert View().pending == Rekey(before, seqNo, ackNo).pending;
    }

    /** The splice, and delivery when the header is finished. */
    method AbsorbPayload(seqNo: uint32, ackNo: uint32, payload: seq<byte>) returns (raised: bool)
      requires Valid() && ackNo in requestMap
      modifies this`requestMap, this`dispatched, this`completed, requestMap[ackNo]
      ensures Valid() && requestMap.Values <= old(requestMap.Values)
      ensures Absorb(old(View()), ackNo, seqNo, payload) == if raised then Raised(View()) else Running(View())
      ensures Dispatches(didReceive, old(completed), completed, old(dispatched), dispatched)
    {
      ghost var before := View();
      var requestPacket := requestMap[ackNo];
      var newDataOffset := Wrap64(seqNo - requestPacket.firstResponseDataSeq);
      var spliced := Splice(requestPacket.responseData, newDataOffset, payload);
      if spliced.None? {
        assert completed[|completed|..] == [];
        return true;
      }
      requestPacket.responseData := spliced.value;
      assert View().pending == Store(before, ackNo, spliced.value).pending;
      if HeaderFinished(spliced.value) {
        CompleteStored(before, ackNo, spliced.value);
        Deliver(ackNo);
      } else {
        assert completed[|completed|..] == [];
      }
      return false;
    }

    /** The header is finished: parse, dispatch the handler, forget the pair. */
    method Deliver(ackNo: uint32)
      requires Valid() && ackNo in requestMap
      modifies this`requestMap, this`dispatched, this`completed
      ensures Valid() && requestMap == old(requestMap) - {ackNo}
      ensures View() == Complete(old(View()), ackNo, old(requestMap[ackNo].responseData))
      ensures Dispatches(didReceive, old(completed), completed, old(dispatched), dispatched)
    {
      ghost var before := View();
      var requestPacket := requestMap[ackNo];
      var response := ParseResponse(DecodeAscii(requestPacket.responseData));
      if didReceive {
        dispatched := dispatched + [(requestPacket.request, response)];
      }
      ghost var exchange := Exchange(requestPacket.serial, requestPacket.request, response);
      assert (completed + [exchange])[|completed|..] == [exchange];
      assert Calls([exchange]) == [(requestPacket.request, response)];
      completed := completed + [exchange];
      requestMap := requestMap - {ackNo};
      assert View().pending == before.pending - {ackNo};
    }
  }

  lemma CompleteStored(st: State, key: uint32, data: seq<byte>)
    requires key in st.pending
    ensures Complete(Store(st, key, data), key, data) == Complete(st, key, data)
  {
    assert Store(st, key, data).pending - {key} == st.pending - {key};
  }

  /** The handler's arguments. */
  function Calls(completed: seq<Exchange>): seq<Call>
  {
    seq(|completed|, i requires 0 <= i < |completed| => (completed[i].request, completed[i].response))
  }

  /** Completions only grow, and with a handler each new one is dispatched, in order. */
  ghost predicate Dispatches(handler: bool, completed: seq<Exchange>, completed': seq<Exchange>,
                             calls: seq<Call>, calls': seq<Call>)
  {
    completed <= completed' && calls' == calls + (if handler then Calls(completed'[|completed|..]) else [])
  }

  lemma DispatchesOn(handler: bool, c: seq<Exchange>, c': seq<Exchange>, c'': seq<Exchange>,
                     d: seq<Call>, d': seq<Call>, d'': seq<Call>)
    requires Dispatches(handler, c, c', d, d') && Dispatches(handler, c', c'', d', d'')
    ensures Dispatches(handler, c, c'', d, d'')
  {
    assert c''[..|c|] == c''[..|c'|][..|c|];
    assert c''[|c|..] == c'[|c|..] + c''[|c'|..];
    assert Calls(c''[|c|..]) == Calls(c'[|c|..]) + Calls(c''[|c'|..]);
  }

  function Observed(local: set<string>, packets: seq<Packet>): seq<Segment>
  {
    seq(|packets|, i requires 0 <= i < |packets| => Observe(local, packets[i]))
  }

  /** One more packet; and if it raises, the run ends there. */
  lemma ObservedRun(st: State, local: set<string>, packets: seq<Packet>, i: nat)
    requires i < |packets| && Run(st, Observed(local, packets[..i])).Running?
    ensures Run(st, Observed(local, packets[..i + 1])) == Step(Run(st, Observed(local, packets[..i])).state, Observe(local, packets[i]))
    ensures Run(st, Observed(local, packets[..i + 1])).Raised? ==>
      Run(st, Observed(local, packets)) == Run(st, Observed(local, packets[..i + 1]))
  {
    assert Observed(local, packets[..i + 1]) == Observed(local, packets[..i]) + [Observe(local, packets[i])];
    RunNext(st, Observed(local, packets[..i]), Observe(local, packets[i]));
    if Run(st, Observed(local, packets[..i + 1])).Raised? {
      ObservedPrefix(local, packets, i + 1);
      RunStaysRaised(st, Observed(local, packets), i + 1);
    }
  }

  lemma ObservedPrefix(local: set<string>, packets: seq<Packet>, i: nat)
    requires i <= |packets|
    ensures Observed(local, packets)[..i] == Observed(local, packets[..i])
  {
  }

  lemma RunNext(st: State, trace: seq<Segment>, s: Segment)
    requires Run(st, trace).Running?
    ensures Run(st, trace + [s]) == Step(Run(st, trace).state, s)
  {
    assert (trace + [s])[..|trace|] == trace;
  }

  lemma {:induction false} RunStaysRaised(st: State, trace: seq<Segment>, i: nat)
    requires i <= |trace| && Run(st, trace[..i]).Raised?
    ensures Run(st, trace) == Run(st, trace[..i])
  {
    if i == |trace| {
      assert trace[..i] == trace;
    } else {
      assert trace[..|trace| - 1][..i] == trace[..i];
      RunStaysRaised(st, trace[..|trace| - 1], i);
    }
  }
}
