/** TCPStreamFollower as a class, and its two ways of feeding packets to `callback`. */
module TcpStreamFollower {
  import opened Bytes
  import opened Wrappers
  import opened StreamTable

  /** A captured PDU, or one in which `rfind_pdu` finds no IP or no TCP layer. */
  type Pdu<P> = Option<Packet<P>>

  datatype Exception = PduNotFound

  class Follower<C, P> {
    const behaviour: Behaviour<C, P>
    var sessions: map<StreamInfo, Stream<C>>
    var lastIdentifier: nat
    ghost var openings: nat
    /** The functor calls made, in order. */
    var events: seq<Event<C>>

    constructor (behaviour: Behaviour<C, P>)
      ensures this.behaviour == behaviour && View() == Start()
    {
      this.behaviour := behaviour;
      sessions, lastIdentifier, openings, events := map[], 0, 0, [];
    }

    ghost function View(): State<C>
      reads this
    {
      State(sessions, lastIdentifier, openings, events)
    }

    /** `callback`; it never asks the loop that feeds it to stop. */
    method Callback(pdu: Pdu<P>) returns (r: Result<bool, Exception>)
      modifies this
      ensures pdu.None? ==> r == Err(PduNotFound) && View() == old(View())
      ensures pdu.Some? ==> r == Ok(true) && View() == Step(behaviour, old(View()), pdu.value)
    {
      if pdu.None? {
        return Err(PduNotFound);
      }
      var p := pdu.value;
      var info := p.info;
      if info !in sessions {
        info := StreamInfo(info.serverAddr, info.clientAddr, info.serverPort, info.clientPort);
        if info !in sessions {
          if p.syn && !p.ack {
            sessions := sessions[info := Stream(lastIdentifier, behaviour.create(p))];
            lastIdentifier := (lastIdentifier + 1) % TWO_64;
            openings := openings + 1;
          }
          return Ok(true);
        }
      }
      var id := sessions[info].id;
      var (content, changed) := behaviour.update(sessions[info].content, p);
      sessions := sessions[info := Stream(id, content)];
      if changed {
        events := events + [Data(info, sessions[info])];
        sessions := sessions[info := Stream(id, behaviour.onData(content))];
      }
      if behaviour.finished(sessions[info].content) {
        events := events + [End(info, sessions[info])];
        sessions := sessions - {info};
      }
      assert View().sessions == Step(behaviour, old(View()), p).sessions;
      return Ok(true);
    }

    /** `follow_streams` over an iterator range: a PDU without IP and TCP ends it with the exception. */
    method FollowRange(pdus: seq<Pdu<P>>) returns (r: Result<(), Exception>)
      modifies this
      ensures r == (if None in pdus then Err(PduNotFound) else Ok(()))
      ensures View() == Run(behaviour, old(View()), BeforeFirstNone(pdus))
    {
      var start := 0;
      assert pdus[..|pdus|] == pdus;
      while start != |pdus|
        invariant 0 <= start <= |pdus| && None !in pdus[..start]
        invariant View() == Run(behaviour, old(View()), Present(pdus[..start]))
        decreases |pdus| - start
      {
        var more := Callback(pdus[start]);
        BeforeFirstNoneAt(pdus, start);
        PresentAppend(pdus, start);
        if more.Err? {
          return Err(more.error);
        }
        if !more.value {
          return Ok(());
        }
        RunAppend(behaviour, old(View()), Present(pdus[..start]), pdus[start].value);
        start := start + 1;
      }
      BeforeFirstNoneAll(pdus);
      return Ok(());
    }

    /** `follow_streams` over a sniffer: without a limit. */
    method FollowSniffer(pdus: seq<Pdu<P>>)
      modifies this
      ensures View() == Run(behaviour, old(View()), Present(pdus))
    {
      SniffLoop(pdus, 0);
      assert pdus[..|pdus|] == pdus;
    }

    /** `sniff_loop`: it swallows `pdu_not_found`, and counts such PDUs against the limit like all others. */
    method SniffLoop(pdus: seq<Pdu<P>>, maxPackets: uint32)
      modifies this
      ensures View() == Run(behaviour, old(View()), Present(pdus[..Sniffed(|pdus|, maxPackets)]))
    {
      var left := maxPackets;
      for i := 0 to |pdus|
        invariant maxPackets == 0 ==> left == 0
        invariant maxPackets > 0 ==> left == maxPackets - i > 0
        invariant View() == Run(behaviour, old(View()), Present(pdus[..i]))
      {
        var more := Callback(pdus[i]);
        PresentAppend(pdus, i);
        if pdus[i].Some? {
          RunAppend(behaviour, old(View()), Present(pdus[..i]), pdus[i].value);
          if !more.value {
            return;
          }
        } else {
          assert Present(pdus[..i + 1]) == Present(pdus[..i]);
        }
        if left != 0 {
          left := left - 1;
          if left == 0 {
            return;
          }
        }
      }
    }
  }

  /** How many of `n` PDUs the sniffing loop takes; zero stands for no limit. */
  function Sniffed(n: nat, maxPackets: uint32): (k: nat)
    ensures k <= n
  {
    if maxPackets == 0 || n < maxPackets then n else maxPackets
  }

  /** Without a limit all are taken; with one, the first `maxPackets` of them, and all when they are fewer. */
  lemma SniffedLimit(n: nat, maxPackets: uint32)
    ensures Sniffed(n, 0) == n
    ensures maxPackets > 0 && n >= maxPackets ==> Sniffed(n, maxPackets) == maxPackets
    ensures maxPackets > 0 && n < maxPackets ==> Sniffed(n, maxPackets) == n
  {
  }

  /** The packets among the PDUs. */
  ghost function Present<P>(pdus: seq<Pdu<P>>): seq<Packet<P>>
  {
    if pdus == [] then []
    else
      var last := pdus[|pdus| - 1];
      Present(pdus[..|pdus| - 1]) + (if last.Some? then [last.value] else [])
  }

  /** The packets up to the first PDU that is none. */
  ghost function BeforeFirstNone<P>(pdus: seq<Pdu<P>>): seq<Packet<P>>
  {
    if pdus == [] || pdus[0].None? then [] else [pdus[0].value] + BeforeFirstNone(pdus[1..])
  }

  function AllPresent<P>(packets: seq<Packet<P>>): seq<Pdu<P>>
  {
    seq(|packets|, i requires 0 <= i < |packets| => Some(packets[i]))
  }

  /** The sniffing loop's packets: all of them, in order, and PDUs without layers leave no trace. */
  lemma {:induction false} PresentSkips<P>(packets: seq<Packet<P>>, rest: seq<Pdu<P>>)
    ensures Present(AllPresent(packets)) == packets
    ensures Present(AllPresent(packets) + [None] + rest) == packets + Present(rest)
  {
    PresentAll(packets);
    PresentAfterNone(AllPresent(packets), rest);
  }

  lemma {:induction false} PresentAll<P>(packets: seq<Packet<P>>)
    ensures Present(AllPresent(packets)) == packets
  {
    if packets != [] {
      var n := |packets| - 1;
      PresentAll(packets[..n]);
      assert AllPresent(packets)[..n] == AllPresent(packets[..n]);
      assert packets == packets[..n] + [packets[n]];
    }
  }

  lemma {:induction false} PresentAfterNone<P>(pdus: seq<Pdu<P>>, rest: seq<Pdu<P>>)
    ensures Present(pdus + [None] + rest) == Present(pdus) + Present(rest)
  {
    var all := pdus + [None] + rest;
    if rest == [] {
      assert all[..|pdus|] == pdus;
    } else {
      var n := |rest| - 1;
      assert all[..|all| - 1] == pdus + [None] + rest[..n];
      PresentAfterNone(pdus, rest[..n]);
    }
  }

  /** The range loop's packets: those before the first PDU without layers. */
  lemma {:induction false} BeforeFirstNoneStops<P>(packets: seq<Packet<P>>, rest: seq<Pdu<P>>)
    ensures BeforeFirstNone(AllPresent(packets)) == packets
    ensures BeforeFirstNone(AllPresent(packets) + [None] + rest) == packets
  {
    var all := AllPresent(packets) + [None] + rest;
    if packets == [] {
      assert all[0] == None;
    } else {
      BeforeFirstNoneStops(packets[1..], rest);
      assert AllPresent(packets)[1..] == AllPresent(packets[1..]);
      assert all[1..] == AllPresent(packets[1..]) + [None] + rest && all[0] == Some(packets[0]);
    }
  }

  lemma PresentAppend<P>(pdus: seq<Pdu<P>>, i: nat)
    requires i < |pdus|
    ensures Present(pdus[..i + 1]) == Present(pdus[..i]) + (if pdus[i].Some? then [pdus[i].value] else [])
  {
    assert pdus[..i + 1][..i] == pdus[..i];
  }

  lemma RunAppend<C, P>(b: Behaviour<C, P>, st: State<C>, trace: seq<Packet<P>>, p: Packet<P>)
    ensures Run(b, st, trace + [p]) == Step(b, Run(b, st, trace), p)
  {
    assert (trace + [p])[..|trace|] == trace;
  }

  lemma {:induction false} PresentPrepend<P>(p: Packet<P>, pdus: seq<Pdu<P>>)
    ensures Present([Some(p)] + pdus) == [p] + Present(pdus)
  {
    var all: seq<Pdu<P>> := [Some(p)] + pdus;
    if pdus == [] {
      assert all[..0] == [];
    } else {
      assert all[..|pdus|] == [Some(p)] + pdus[..|pdus| - 1];
      PresentPrepend(p, pdus[..|pdus| - 1]);
    }
  }

  lemma {:induction false} BeforeFirstNoneAll<P>(pdus: seq<Pdu<P>>)
    requires None !in pdus
    ensures BeforeFirstNone(pdus) == Present(pdus)
  {
    if pdus != [] {
      assert pdus == [Some(pdus[0].value)] + pdus[1..];
      BeforeFirstNoneAll(pdus[1..]);
      PresentPrepend(pdus[0].value, pdus[1..]);
    }
  }

  lemma {:induction false} BeforeFirstNoneAt<P>(pdus: seq<Pdu<P>>, i: nat)
    requires i < |pdus| && None !in pdus[..i]
    ensures pdus[i].None? ==> BeforeFirstNone(pdus) == Present(pdus[..i])
  {
    if i > 0 {
      assert pdus[..i][0] == pdus[0];
      assert pdus[1..][..i - 1] == pdus[..i][1..];
      BeforeFirstNoneAt(pdus[1..], i - 1);
      assert pdus[..i] == [Some(pdus[0].value)] + pdus[1..][..i - 1];
      PresentPrepend(pdus[0].value, pdus[1..][..i - 1]);
    }
  }
}
