/**
 The request/response matcher of `_handlePDU:` as a state machine over TCP segments: what one
 segment does, what every run keeps, and what a response flow leaves in the table.
 */
module RequestMatcher {
  import opened Wrappers
  import opened Bytes
  import opened HttpText
  import opened HttpParsing

  const FIN := 1
  const SYN := 2
  const ACK := 16

  /** A captured packet; `text` is the payload decoded as UTF-8, or nil. */
  datatype Packet =
    | NotTcp
    | Tcp(src: string, dst: string, flags: nat, seqNo: uint32, ackNo: uint32, payload: seq<byte>, text: Option<string>)

  /** A packet as `_handlePDU:` sorts it. */
  datatype Segment =
    | Ignored
    | ClientData(ack: uint32, text: Option<string>)
    | ServerData(seqNo: uint32, ack: uint32, payload: seq<byte>)

  function Observe(local: set<string>, p: Packet): Segment
  {
    if p.NotTcp? then Ignored
    else if p.flags == SYN + ACK || p.flags == SYN || p.flags == FIN then Ignored
    else if p.src in local && |p.payload| > 0 then ClientData(p.ackNo, p.text)
    else if p.dst in local && |p.payload| > 0 then ServerData(p.seqNo, p.ackNo, p.payload)
    else Ignored
  }

  /** A TCP packet with a payload that is no SYN (2), no SYN+ACK (18) and no FIN (1). */
  predicate CarriesData(p: Packet)
  {
    p.Tcp? && p.flags !in {1, 2, 18} && p.payload != []
  }

  /** From this machine, whoever receives it. */
  predicate Sends(local: set<string>, p: Packet)
  {
    CarriesData(p) && p.src in local
  }

  /** From elsewhere to this machine. */
  predicate Receives(local: set<string>, p: Packet)
  {
    CarriesData(p) && p.src !in local && p.dst in local
  }

  /** One RHHTTPRequestResponsePair; `serial` is its place among all pairs ever filed. */
  datatype Pair = Pair(serial: nat, seqKey: uint32, request: HttpRequest, data: seq<byte>, firstSeq: uint32)

  /** A request filed under a key. */
  datatype Filing = Filing(key: uint32, request: HttpRequest)

  /** A completed pair, as the handler receives it. */
  datatype Exchange = Exchange(serial: nat, request: HttpRequest, response: HttpResponse)

  /** A pending pair thrown out of the table by a later filing under the same key. */
  datatype Displacement = Displacement(serial: nat, key: uint32, successor: nat)

  /** `requestMap` and the history of the run. */
  datatype State = State(
    pending: map<uint32, Pair>,
    filed: seq<Filing>,
    displaced: seq<Displacement>,
    completed: seq<Exchange>)

  const START := State(map[], [], [], [])

  /** `Raised` is an NSRangeException, which nothing between here and `main` catches. */
  datatype Outcome = Running(state: State) | Raised(state: State)

  function Wrap64(x: int): (r: nat) { x % TWO_64 }

  /**
   `replaceBytesInRange:withBytes:length:` as it is called. The "length after the offset" is the
   truth value of a comparison, so the replaced range is at most one byte long.
   */
  function Splice(data: seq<byte>, offset: nat, payload: seq<byte>): Option<seq<byte>>
  {
    var maxDataLengthAfterOffset := if Wrap64(|data| - offset) > |payload| then 1 else 0;
    var rangeLength := if maxDataLengthAfterOffset < |payload| then maxDataLengthAfterOffset else |payload|;
    if offset + rangeLength > |data| then None
    else Some(data[..offset] + payload + data[offset + rangeLength..])
  }

  predicate BlankLineAt(text: string, i: nat)
  {
    i + 4 <= |text| && text[i..i + 4] == CRLF_CRLF
  }

  /** `rangeOfString:@"\r\n\r\n"` finds something. */
  predicate HeaderFinished(data: seq<byte>)
  {
    exists i :: 0 <= i < |data| && BlankLineAt(DecodeAscii(data), i)
  }

  /** CR LF CR LF stands at `i`. */
  predicate BlankLineBytesAt(data: seq<byte>, i: nat)
  {
    i + 4 <= |data| && data[i..i + 4] == [13, 10, 13, 10]
  }

  /** The header is finished exactly when those bytes stand somewhere. */
  lemma HeaderFinishedIff(data: seq<byte>)
    ensures HeaderFinished(data) <==> exists i: nat :: BlankLineBytesAt(data, i)
  {
    forall i: nat ensures BlankLineAt(DecodeAscii(data), i) <==> BlankLineBytesAt(data, i) {
      if i + 4 <= |data| {
        BlankLineBytes(data, i);
      }
    }
    if i: nat :| BlankLineBytesAt(data, i) {
      assert i < |data| && BlankLineAt(DecodeAscii(data), i);
    }
  }

  lemma BlankLineBytes(data: seq<byte>, i: nat)
    requires i + 4 <= |data|
    ensures BlankLineAt(DecodeAscii(data), i) <==> data[i..i + 4] == [13, 10, 13, 10]
  {
    DecodeAsciiBytes("", data);
    var text, four := DecodeAscii(data)[i..i + 4], data[i..i + 4];
    assert forall k :: 0 <= k < 4 ==> text[k] as int == four[k];
    assert CRLF_CRLF == ['\r', '\n', '\r', '\n'];
    if four == [13, 10, 13, 10] {
      assert text == CRLF_CRLF;
    }
    if text == CRLF_CRLF {
      assert four[0] == 13 && four[1] == 10 && four[2] == 13 && four[3] == 10;
    }
  }

  function File(st: State, key: uint32, request: HttpRequest): State
  {
    var serial := |st.filed|;
    State(
      st.pending[key := Pair(serial, key, request, [], 0)],
      st.filed + [Filing(key, request)],
      if key in st.pending then st.displaced + [Displacement(st.pending[key].serial, key, serial)] else st.displaced,
      st.completed)
  }

  function Rekey(st: State, from: uint32, to: uint32): State
    requires from in st.pending
  {
    st.(pending := st.pending[to := st.pending[from].(firstSeq := from)] - {from})
  }

  function Store(st: State, key: uint32, data: seq<byte>): State
    requires key in st.pending
  {
    st.(pending := st.pending[key := st.pending[key].(data := data)])
  }

  function Complete(st: State, key: uint32, data: seq<byte>): State
    requires key in st.pending
  {
    var pair := st.pending[key];
    st.(pending := st.pending - {key},
        completed := st.completed + [Exchange(pair.serial, pair.request, ResponseOf(DecodeAscii(data)))])
  }

  function Absorb(st: State, key: uint32, seqNo: uint32, payload: seq<byte>): Outcome
    requires key in st.pending
  {
    match Splice(st.pending[key].data, Wrap64(seqNo - st.pending[key].firstSeq), payload)
    case None => Raised(st)
    case Some(data) => Running(if HeaderFinished(data) then Complete(st, key, data) else Store(st, key, data))
  }

  /** One call of `_handlePDU:`. */
  function Step(st: State, s: Segment): Outcome
  {
    match s
    case Ignored => Running(st)
    case ClientData(ack, text) =>
      (match RequestOf(text) case None => Running(st) case Some(request) => Running(File(st, ack, request)))
    case ServerData(seqNo, ack, payload) =>
      if ack in st.pending then Absorb(st, ack, seqNo, payload)
      else if seqNo in st.pending then Absorb(Rekey(st, seqNo, ack), ack, seqNo, payload)
      else Running(st)
  }

  /** Nothing pending changes except under these keys. */
  ghost predicate OnlyAt(before: State, after: State, keys: set<uint32>)
  {
    && (forall k :: k !in keys ==> (k in after.pending <==> k in before.pending))
    && (forall k :: k !in keys && k in before.pending ==> after.pending[k] == before.pending[k])
  }

  /** `request` is filed under `key`, with nothing received yet. */
  ghost predicate NowFiled(before: State, after: State, key: uint32, request: HttpRequest)
  {
    && after.filed == before.filed + [Filing(key, request)] && after.completed == before.completed
    && key in after.pending && after.pending[key].request == request && after.pending[key].data == []
    && OnlyAt(before, after, {key})
  }

  /**
   What a captured packet does. Sent data that is a request is filed under the packet's acknowledgement number. Received
   data goes to the pair under its acknowledgement number, else to the one under its sequence number, else nowhere. All
   else changes nothing.
   */
  ghost predicate PacketEffect(st: State, local: set<string>, p: Packet, step: Outcome)
  {
    if Sends(local, p) then
      match RequestOf(p.text)
      case None => step == Running(st)
      case Some(request) => step.Running? && NowFiled(st, step.state, p.ackNo, request)
    else if Receives(local, p) then
      && step.state.filed == st.filed
      && OnlyAt(st, step.state, if p.ackNo in st.pending then {p.ackNo} else {p.ackNo, p.seqNo})
      && (p.ackNo !in st.pending && p.seqNo !in st.pending ==> step == Running(st))
    else step == Running(st)
  }

  lemma PacketEffects(st: State, local: set<string>, p: Packet)
    ensures PacketEffect(st, local, p, Step(st, Observe(local, p)))
  {
  }

  /** The run ends at the first exception. */
  function Run(st: State, trace: seq<Segment>): Outcome
  {
    if trace == [] then Running(st)
    else
      match Run(st, trace[..|trace| - 1])
      case Raised(s) => Raised(s)
      case Running(s) => Step(s, trace[|trace| - 1])
  }

  // -------------------------------------------------------------------------
  // The splice
  // -------------------------------------------------------------------------

  /** What the splice is for: the payload overwrites what is stored at its offset. */
  function Overwrite(data: seq<byte>, offset: nat, payload: seq<byte>): seq<byte>
    requires offset <= |data|
  {
    data[..offset] + payload + (if offset + |payload| <= |data| then data[offset + |payload|..] else [])
  }

  /** A gap raises. */
  lemma SpliceRaisesIff(data: seq<byte>, offset: nat, payload: seq<byte>)
    requires |data| < TWO_64 && offset < TWO_64 && |payload| > 0
    ensures Splice(data, offset, payload).None? <==> offset > |data|
  {
    if offset <= |data| {
      assert Wrap64(|data| - offset) == |data| - offset;
    }
  }

  /** The payload is inserted whole at its offset; one stored byte goes, if more are stored from there than come in. */
  lemma SpliceInserts(data: seq<byte>, offset: nat, payload: seq<byte>)
    requires offset <= |data| < TWO_64 && |payload| > 0
    ensures Splice(data, offset, payload) ==
      Some(data[..offset] + payload + (if offset + |payload| < |data| then data[offset + 1..] else data[offset..]))
  {
    assert Wrap64(|data| - offset) == |data| - offset;
  }

  /** Stored bytes are overwritten as intended only for an append, or for one byte before the last. */
  lemma SpliceOverwritesIff(data: seq<byte>, offset: nat, payload: seq<byte>)
    requires offset <= |data| < TWO_64 && |payload| > 0
    ensures Splice(data, offset, payload) == Some(Overwrite(data, offset, payload))
       <==> offset == |data| || (|payload| == 1 && offset < |data| - 1)
  {
    assert Wrap64(|data| - offset) == |data| - offset;
    var spliced, wanted := Splice(data, offset, payload).value, Overwrite(data, offset, payload);
    if offset < |data| && !(|payload| == 1 && offset < |data| - 1) {
      assert |spliced| != |wanted|;
    }
  }

  /** For instance "AB" received again over "AB" is kept twice. */
  lemma RetransmissionDuplicates(payload: seq<byte>)
    requires 1 < |payload| < TWO_64
    ensures Splice(payload, 0, payload) == Some(payload + payload)
  {
    assert Wrap64(|payload|) == |payload|;
    assert payload[..0] + payload + payload[0..] == payload + payload;
  }

  // -------------------------------------------------------------------------
  // Whole-run safety
  // -------------------------------------------------------------------------

  ghost function PendingSerials(st: State): set<nat>
  {
    set k | k in st.pending :: st.pending[k].serial
  }

  ghost function CompletedSerials(st: State): set<nat>
  {
    set i | 0 <= i < |st.completed| :: st.completed[i].serial
  }

  ghost function DisplacedSerials(st: State): set<nat>
  {
    set i | 0 <= i < |st.displaced| :: st.displaced[i].serial
  }

  /** No pair sits under two keys, completes twice or is displaced twice. */
  ghost predicate Distinct(st: State)
  {
    && (forall k, l :: k in st.pending && l in st.pending && st.pending[k].serial == st.pending[l].serial ==> k == l)
    && (forall i, j :: 0 <= i < j < |st.completed| ==> st.completed[i].serial != st.completed[j].serial)
    && (forall i, j :: 0 <= i < j < |st.displaced| ==> st.displaced[i].serial != st.displaced[j].serial)
  }

  /** Every filed request is pending, completed or displaced, and only one of them. */
  ghost predicate Partition(st: State)
  {
    && PendingSerials(st) !! CompletedSerials(st) !! DisplacedSerials(st)
    && forall s: nat ::
         s < |st.filed| <==> s in PendingSerials(st) || s in CompletedSerials(st) || s in DisplacedSerials(st)
  }

  /** Each pair still carries the request it was filed with, and only a later filing displaces. */
  ghost predicate Faithful(st: State)
  {
    && (forall k :: k in st.pending ==>
          st.pending[k].serial < |st.filed| && st.filed[st.pending[k].serial] == Filing(st.pending[k].seqKey, st.pending[k].request))
    && (forall i :: 0 <= i < |st.completed| ==>
          st.completed[i].serial < |st.filed| && st.filed[st.completed[i].serial].request == st.completed[i].request)
    && (forall i :: 0 <= i < |st.displaced| ==>
          st.displaced[i].serial < st.displaced[i].successor < |st.filed|
          && st.filed[st.displaced[i].successor].key == st.displaced[i].key)
  }

  ghost predicate Accounted(st: State)
  {
    Distinct(st) && Partition(st) && Faithful(st)
  }

  /** The serials that a filing under `key` evicts: none or one. */
  ghost function Evicted(st: State, key: uint32): set<nat>
  {
    if key in st.pending then {st.pending[key].serial} else {}
  }

  lemma FilePending(st: State, key: uint32, request: HttpRequest)
    requires Distinct(st)
    ensures PendingSerials(File(st, key, request)) == PendingSerials(st) - Evicted(st, key) + {|st.filed|}
  {
    var st' := File(st, key, request);
    assert st'.pending[key].serial == |st.filed|;
    forall s | s in PendingSerials(st) - Evicted(st, key) ensures s in PendingSerials(st') {
      var k :| k in st.pending && st.pending[k].serial == s;
      assert st'.pending[k].serial == s;
    }
  }

  lemma FileDisplaced(st: State, key: uint32, request: HttpRequest)
    ensures DisplacedSerials(File(st, key, request)) == DisplacedSerials(st) + Evicted(st, key)
  {
    if key in st.pending {
      DisplacedGrows(st, File(st, key, request), Displacement(st.pending[key].serial, key, |st.filed|));
    }
  }

  lemma FileFaithful(st: State, key: uint32, request: HttpRequest)
    requires Faithful(st)
    ensures Faithful(File(st, key, request))
  {
  }

  lemma FileDistinct(st: State, key: uint32, request: HttpRequest)
    requires Accounted(st)
    ensures Distinct(File(st, key, request))
  {
    if key in st.pending {
      assert st.pending[key].serial in PendingSerials(st);
      forall i | 0 <= i < |st.displaced| ensures st.displaced[i].serial != st.pending[key].serial {
        assert st.displaced[i].serial in DisplacedSerials(st);
      }
    }
  }

  lemma FilePartition(st: State, key: uint32, request: HttpRequest)
    requires Accounted(st)
    ensures Partition(File(st, key, request))
  {
    FilePending(st, key, request);
    FileDisplaced(st, key, request);
    assert CompletedSerials(File(st, key, request)) == CompletedSerials(st);
    assert Evicted(st, key) <= PendingSerials(st);
  }

  lemma FileKeeps(st: State, key: uint32, request: HttpRequest)
    requires Accounted(st)
    ensures Accounted(File(st, key, request))
  {
    FilePartition(st, key, request);
    FileFaithful(st, key, request);
    FileDistinct(st, key, request);
  }

  lemma DisplacedGrows(st: State, st': State, d: Displacement)
    requires st'.displaced == st.displaced + [d]
    ensures DisplacedSerials(st') == DisplacedSerials(st) + {d.serial}
  {
    assert st'.displaced[|st.displaced|] == d;
    forall i | 0 <= i < |st.displaced| ensures st.displaced[i].serial in DisplacedSerials(st') {
      assert st'.displaced[i] == st.displaced[i];
    }
  }

  lemma CompletedGrows(st: State, st': State, e: Exchange)
    requires st'.completed == st.completed + [e]
    ensures CompletedSerials(st') == CompletedSerials(st) + {e.serial}
  {
    assert st'.completed[|st.completed|] == e;
    forall i | 0 <= i < |st.completed| ensures st.completed[i].serial in CompletedSerials(st') {
      assert st'.completed[i] == st.completed[i];
    }
  }

  /** Re-keying displaces nobody: the target is free, so the same pairs stay pending. */
  lemma RekeyKeeps(st: State, from: uint32, to: uint32)
    requires Accounted(st) && from in st.pending && to !in st.pending
    ensures Accounted(Rekey(st, from, to)) && PendingSerials(Rekey(st, from, to)) == PendingSerials(st)
  {
    var st' := Rekey(st, from, to);
    forall s | s in PendingSerials(st) ensures s in PendingSerials(st') {
      var k :| k in st.pending && st.pending[k].serial == s;
      assert st'.pending[if k == from then to else k].serial == s;
    }
    assert CompletedSerials(st') == CompletedSerials(st) && DisplacedSerials(st') == DisplacedSerials(st);
  }

  lemma StoreKeeps(st: State, key: uint32, data: seq<byte>)
    requires Accounted(st) && key in st.pending
    ensures Accounted(Store(st, key, data))
  {
    var st' := Store(st, key, data);
    forall s ensures s in PendingSerials(st') <==> s in PendingSerials(st) {
      if s in PendingSerials(st) {
        var k :| k in st.pending && st.pending[k].serial == s;
        assert st'.pending[k].serial == s;
      }
    }
    assert CompletedSerials(st') == CompletedSerials(st) && DisplacedSerials(st') == DisplacedSerials(st);
  }

  lemma CompletePending(st: State, key: uint32, data: seq<byte>)
    requires Distinct(st) && key in st.pending
    ensures PendingSerials(Complete(st, key, data)) == PendingSerials(st) - {st.pending[key].serial}
  {
    var st' := Complete(st, key, data);
    forall s | s in PendingSerials(st) - {st.pending[key].serial} ensures s in PendingSerials(st') {
      var k :| k in st.pending && st.pending[k].serial == s;
      assert st'.pending[k].serial == s;
    }
  }

  lemma CompleteDistinct(st: State, key: uint32, data: seq<byte>)
    requires Accounted(st) && key in st.pending
    ensures Distinct(Complete(st, key, data)) && Faithful(Complete(st, key, data))
  {
    assert st.pending[key].serial in PendingSerials(st);
    forall i | 0 <= i < |st.completed| ensures st.completed[i].serial != st.pending[key].serial {
      assert st.completed[i].serial in CompletedSerials(st);
    }
  }

  lemma CompleteKeeps(st: State, key: uint32, data: seq<byte>)
    requires Accounted(st) && key in st.pending
    ensures Accounted(Complete(st, key, data))
  {
    var st' := Complete(st, key, data);
    CompletePending(st, key, data);
    CompleteDistinct(st, key, data);
    CompletedGrows(st, st', st'.completed[|st.completed|]);
    assert DisplacedSerials(st') == DisplacedSerials(st);
    assert st.pending[key].serial in PendingSerials(st);
  }

  lemma AbsorbKeeps(st: State, key: uint32, seqNo: uint32, payload: seq<byte>)
    requires Accounted(st) && key in st.pending
    ensures Accounted(Absorb(st, key, seqNo, payload).state)
  {
    var spliced := Splice(st.pending[key].data, Wrap64(seqNo - st.pending[key].firstSeq), payload);
    var end := Absorb(st, key, seqNo, payload).state;
    if spliced.None? {
      assert end == st;
    } else if HeaderFinished(spliced.value) {
      CompleteKeeps(st, key, spliced.value);
      assert end == Complete(st, key, spliced.value);
    } else {
      StoreKeeps(st, key, spliced.value);
      assert end == Store(st, key, spliced.value);
    }
  }

  lemma StepKeeps(st: State, s: Segment)
    requires Accounted(st)
    ensures Accounted(Step(st, s).state)
  {
    match s
    case Ignored =>
    case ClientData(ack, text) =>
      if RequestOf(text).Some? {
        FileKeeps(st, ack, RequestOf(text).value);
      }
    case ServerData(seqNo, ack, payload) =>
      if ack in st.pending {
        AbsorbKeeps(st, ack, seqNo, payload);
      } else if seqNo in st.pending {
        RekeyKeeps(st, seqNo, ack);
        AbsorbKeeps(Rekey(st, seqNo, ack), ack, seqNo, payload);
      }
  }

  /** At every reachable state the books balance. */
  lemma {:induction false} RunKeeps(st: State, trace: seq<Segment>)
    requires Accounted(st)
    ensures Accounted(Run(st, trace).state)
  {
    if trace != [] {
      RunKeeps(st, trace[..|trace| - 1]);
      if Run(st, trace[..|trace| - 1]).Running? {
        StepKeeps(Run(st, trace[..|trace| - 1]).state, trace[|trace| - 1]);
      }
    }
  }

  lemma StartAccounted()
    ensures Accounted(START)
  {
  }

  function FiledBy(s: Segment): seq<Filing>
  {
    if s.ClientData? && RequestOf(s.text).Some? then [Filing(s.ack, RequestOf(s.text).value)] else []
  }

  /** The requests that a trace files, read off the trace alone. */
  function Filings(trace: seq<Segment>): seq<Filing>
  {
    if trace == [] then [] else Filings(trace[..|trace| - 1]) + FiledBy(trace[|trace| - 1])
  }

  lemma StepFiles(st: State, s: Segment)
    ensures Step(st, s).state.filed == st.filed + FiledBy(s)
    ensures Step(st, s).Raised? ==> FiledBy(s) == []
  {
  }

  /** Segment `n` is the one that raises. */
  ghost predicate RaisesAt(st: State, trace: seq<Segment>, n: nat)
  {
    n < |trace| && Run(st, trace[..n]).Running? && Step(Run(st, trace[..n]).state, trace[n]).Raised?
  }

  lemma RaisesAtLonger(st: State, trace: seq<Segment>, last: nat, n: nat)
    requires last <= |trace| && RaisesAt(st, trace[..last], n)
    ensures RaisesAt(st, trace, n) && trace[..last][..n] == trace[..n]
  {
    assert trace[..last][..n] == trace[..n];
  }

  /** Every parsed request up to the first exception is filed, under its own acknowledgement number. */
  lemma {:induction false} RunFiles(trace: seq<Segment>)
    ensures match Run(START, trace)
      case Running(st) => st.filed == Filings(trace)
      case Raised(st) => exists n: nat :: RaisesAt(START, trace, n) && st.filed == Filings(trace[..n])
  {
    if trace != [] {
      var last := |trace| - 1;
      var before := Run(START, trace[..last]);
      RunFiles(trace[..last]);
      if before.Raised? {
        var n: nat :| RaisesAt(START, trace[..last], n) && before.state.filed == Filings(trace[..last][..n]);
        RaisesAtLonger(START, trace, last, n);
      } else {
        StepFiles(before.state, trace[last]);
        assert Run(START, trace).Raised? ==> RaisesAt(START, trace, last);
      }
    }
  }

  /** Segment `i` files a request under the key of the pair that `d` names, while it stands there. */
  ghost predicate DisplacedAt(trace: seq<Segment>, i: nat, d: Displacement)
  {
    && i < |trace| && Run(START, trace[..i]).Running?
    && var st := Run(START, trace[..i]).state;
      && d.key in st.pending && st.pending[d.key].serial == d.serial
      && trace[i].ClientData? && trace[i].ack == d.key && RequestOf(trace[i].text).Some?
      && |st.filed| == d.successor
  }

  /** One step displaces the pair it finds under the key it files under, and no other. */
  lemma StepDisplaces(st: State, s: Segment, d: Displacement)
    ensures d in Step(st, s).state.displaced <==>
      || d in st.displaced
      || (d.key in st.pending && st.pending[d.key].serial == d.serial
          && s.ClientData? && s.ack == d.key && RequestOf(s.text).Some? && |st.filed| == d.successor)
  {
  }

  /** Over every run, a pair is displaced exactly by a filing under the key where it stands. */
  lemma {:induction false} RunDisplaces(trace: seq<Segment>, d: Displacement)
    ensures d in Run(START, trace).state.displaced <==> exists i :: DisplacedAt(trace, i, d)
  {
    if trace != [] {
      var last := |trace| - 1;
      var before := trace[..last];
      RunDisplaces(before, d);
      DisplacedEarlier(trace, before, d);
      if Run(START, before).Running? {
        StepDisplaces(Run(START, before).state, trace[last], d);
      }
      assert DisplacedAt(trace, last, d) ==> exists i :: DisplacedAt(trace, i, d);
    }
  }

  lemma DisplacedEarlier(trace: seq<Segment>, before: seq<Segment>, d: Displacement)
    requires trace != [] && before == trace[..|trace| - 1]
    ensures (exists i :: DisplacedAt(trace, i, d)) <==>
      (exists i :: DisplacedAt(before, i, d)) || DisplacedAt(trace, |trace| - 1, d)
  {
    forall i | 0 <= i < |before| ensures DisplacedAt(trace, i, d) <==> DisplacedAt(before, i, d) {
      assert before[..i] == trace[..i] && before[i] == trace[i];
    }
    if i :| DisplacedAt(before, i, d) {
      assert DisplacedAt(trace, i, d);
    }
  }

  /** A pair that has received nothing waits under the key it was filed with. */
  ghost predicate WaitsAtItsKey(st: State)
  {
    forall k :: k in st.pending && st.pending[k].data == [] ==> st.pending[k].seqKey == k && st.pending[k].firstSeq == 0
  }

  lemma SpliceGrows(data: seq<byte>, offset: nat, payload: seq<byte>)
    requires payload != []
    ensures Splice(data, offset, payload).Some? ==> Splice(data, offset, payload).value != []
  {
  }

  lemma AbsorbWaits(st: State, key: uint32, seqNo: uint32, payload: seq<byte>)
    requires key in st.pending && payload != [] && Absorb(st, key, seqNo, payload).Running?
    requires forall k :: k in st.pending && k != key && st.pending[k].data == [] ==> st.pending[k].seqKey == k && st.pending[k].firstSeq == 0
    ensures WaitsAtItsKey(Absorb(st, key, seqNo, payload).state)
  {
    SpliceGrows(st.pending[key].data, Wrap64(seqNo - st.pending[key].firstSeq), payload);
  }

  /** `_handlePDU:` looks at non-empty payloads only. */
  lemma {:induction false} RunWaits(trace: seq<Segment>)
    requires Run(START, trace).Running?
    requires forall i :: 0 <= i < |trace| && trace[i].ServerData? ==> trace[i].payload != []
    ensures WaitsAtItsKey(Run(START, trace).state)
  {
    if trace != [] {
      var before, s := trace[..|trace| - 1], trace[|trace| - 1];
      RunWaits(before);
      var st := Run(START, before).state;
      if s.ServerData? {
        if s.ack in st.pending {
          AbsorbWaits(st, s.ack, s.seqNo, s.payload);
        } else if s.seqNo in st.pending {
          AbsorbWaits(Rekey(st, s.seqNo, s.ack), s.ack, s.seqNo, s.payload);
        }
      }
    }
  }

  /** A client payload whose head names no host is ignored, and is filed when a line of its body names one. */
  lemma BodyFilesRequest(st: State, ack: uint32, head: string, host: string)
    requires RequestOf(Some(head)).None? && LineSafe(host) && Trim(host) == host
    ensures Step(st, ClientData(ack, Some(head))) == Running(st)
    ensures var first := FromFirstLine(Split(head, IsNewline));
      first != [] && |Split(first[0], IsWhitespace)| >= 2 ==>
        var end := Step(st, ClientData(ack, Some(head + CRLF_CRLF + ("Host:" + host)))).state;
        |end.filed| == |st.filed| + 1 && ack in end.pending && end.pending[ack].request.host == host
  {
    BodyLineOverridesHost(head, host);
  }
}
