/** PDUs as a linked chain on the heap: search, cloning and concatenation (pdu.h). */
module PduChain {
  import opened Bytes
  import opened Wrappers

  /** One layer: the type flags it matches (its own and its base classes') and its header. */
  datatype Layer = Layer(flags: set<nat>, header: seq<byte>)

  class Pdu {
    const layer: Layer
    var inner: Pdu?

    constructor (layer: Layer, inner: Pdu?)
      ensures this.layer == layer && this.inner == inner
    {
      this.layer := layer;
      this.inner := inner;
    }
  }

  /** `nodes` are the PDUs from `head` down to the innermost one. */
  ghost predicate Chain(head: Pdu, nodes: seq<Pdu>)
    reads nodes
  {
    && nodes != [] && nodes[0] == head && nodes[|nodes| - 1].inner == null
    && forall i :: 0 <= i < |nodes| - 1 ==> nodes[i].inner == nodes[i + 1]
  }

  ghost function Layers(nodes: seq<Pdu>): seq<Layer>
  {
    seq(|nodes|, i requires 0 <= i < |nodes| => nodes[i].layer)
  }

  lemma ChainTail(head: Pdu, nodes: seq<Pdu>)
    requires Chain(head, nodes)
    ensures head.inner == null <==> |nodes| == 1
    ensures head.inner != null ==> Chain(head.inner, nodes[1..])
  {
    assert |nodes| > 1 ==> nodes[0].inner == nodes[1];
  }

  /** A PDU has one chain. */
  lemma {:induction false} ChainUnique(head: Pdu, a: seq<Pdu>, b: seq<Pdu>)
    requires Chain(head, a) && Chain(head, b)
    ensures a == b
    decreases |a|
  {
    ChainTail(head, a);
    ChainTail(head, b);
    if head.inner != null {
      ChainUnique(head.inner, a[1..], b[1..]);
    }
    assert a == [head] + a[1..] && b == [head] + b[1..];
  }

  /** A chain has no cycle: every suffix is the chain of its first PDU, and suffixes differ in length. */
  lemma ChainAcyclic(head: Pdu, nodes: seq<Pdu>)
    requires Chain(head, nodes)
    ensures forall i, j :: 0 <= i < j < |nodes| ==> nodes[i] != nodes[j]
  {
    forall i, j | 0 <= i < j < |nodes| ensures nodes[i] != nodes[j] {
      if nodes[i] == nodes[j] {
        ChainUnique(nodes[i], nodes[i..], nodes[j..]);
      }
    }
  }

  /** Every inner PDU has one owner. */
  lemma SingleOwner(head: Pdu, nodes: seq<Pdu>)
    requires Chain(head, nodes)
    ensures forall i, j :: 0 <= i < |nodes| && 0 <= j < |nodes| && nodes[i].inner == nodes[j].inner ==> i == j
    ensures forall i :: 0 <= i < |nodes| ==> nodes[i].inner != head
  {
    ChainAcyclic(head, nodes);
    forall i, j | 0 <= i < |nodes| && 0 <= j < |nodes| && nodes[i].inner == nodes[j].inner ensures i == j {
      assert i < |nodes| - 1 ==> nodes[i].inner == nodes[i + 1];
      assert j < |nodes| - 1 ==> nodes[j].inner == nodes[j + 1];
    }
    forall i | 0 <= i < |nodes| ensures nodes[i].inner != head {
      assert i < |nodes| - 1 ==> nodes[i].inner == nodes[i + 1] != nodes[0];
    }
  }

  // -------------------------------------------------------------------------
  // Search
  // -------------------------------------------------------------------------

  /** The index of the first layer that matches a type; the length when none does. */
  function FirstMatch(layers: seq<Layer>, flag: nat): (k: nat)
    ensures k <= |layers|
    ensures k < |layers| ==> flag in layers[k].flags
    ensures forall i :: 0 <= i < k ==> flag !in layers[i].flags
  {
    if layers == [] || flag in layers[0].flags then 0
    else
      var k := 1 + FirstMatch(layers[1..], flag);
      assert forall i :: 0 < i < k ==> layers[i] == layers[1..][i - 1];
      k
  }

  /** Non-const `find_pdu`: the first PDU of the chain that matches, or null. */
  method FindPdu(head: Pdu, flag: nat, ghost nodes: seq<Pdu>) returns (found: Pdu?)
    requires Chain(head, nodes)
    ensures var k := FirstMatch(Layers(nodes), flag);
      found == if k < |nodes| then nodes[k] else null
  {
    var pdu: Pdu? := head;
    ghost var i := 0;
    while pdu != null
      invariant 0 <= i <= |nodes|
      invariant pdu == if i < |nodes| then nodes[i] else null
      invariant forall k :: 0 <= k < i ==> flag !in nodes[k].layer.flags
      decreases |nodes| - i
    {
      if flag in pdu.layer.flags {
        assert forall k :: 0 <= k <= i ==> Layers(nodes)[k] == nodes[k].layer;
        return pdu;
      }
      pdu := pdu.inner;
      i := i + 1;
    }
    return null;
  }

  /** `rfind_pdu`: the exception when there is none. */
  method RfindPdu(head: Pdu, flag: nat, ghost nodes: seq<Pdu>) returns (r: Option<Pdu>)
    requires Chain(head, nodes)
    ensures r.None? <==> forall i :: 0 <= i < |nodes| ==> flag !in nodes[i].layer.flags
    ensures var k := FirstMatch(Layers(nodes), flag); k < |nodes| ==> r == Some(nodes[k])
  {
    var found := FindPdu(head, flag, nodes);
    ghost var layers := Layers(nodes);
    assert forall i :: 0 <= i < |nodes| ==> layers[i] == nodes[i].layer;
    if found == null {
      return None;
    }
    return Some(found);
  }

  /** The const overload drops its argument and searches for the class's own flag. */
  method FindPduConst(head: Pdu, flag: nat, classFlag: nat, ghost nodes: seq<Pdu>) returns (found: Pdu?)
    requires Chain(head, nodes)
    ensures var k := FirstMatch(Layers(nodes), classFlag);
      found == if k < |nodes| then nodes[k] else null
  {
    found := FindPdu(head, classFlag, nodes);
  }

  /** So it finds what it was asked for, in every chain, exactly when it is asked for the class's own flag. */
  lemma FindConstAgreesIff(flag: nat, classFlag: nat)
    ensures flag == classFlag <==> forall layers :: FirstMatch(layers, flag) == FirstMatch(layers, classFlag)
  {
    if flag != classFlag {
      FindConstMisses(flag, classFlag, []);
    }
  }

  /** For instance the chain of one PDU that matches the flag and nothing else: it is there and is not found. */
  lemma FindConstMisses(flag: nat, classFlag: nat, header: seq<byte>)
    requires flag != classFlag
    ensures var layers := [Layer({flag}, header)];
      FirstMatch(layers, flag) == 0 && FirstMatch(layers, classFlag) == |layers|
  {
    var layers := [Layer({flag}, header)];
    assert flag in layers[0].flags && classFlag !in layers[0].flags;
  }

  /** Searching a concatenation: the left part first. */
  lemma FirstMatchConcat(a: seq<Layer>, b: seq<Layer>, flag: nat)
    ensures FirstMatch(a + b, flag) ==
      if FirstMatch(a, flag) < |a| then FirstMatch(a, flag) else |a| + FirstMatch(b, flag)
  {
    var k, ka, kb := FirstMatch(a + b, flag), FirstMatch(a, flag), FirstMatch(b, flag);
    assert forall i :: 0 <= i < |a| ==> (a + b)[i] == a[i];
    assert forall i :: 0 <= i < |b| ==> (a + b)[|a| + i] == b[i];
  }

  // -------------------------------------------------------------------------
  // Cloning and concatenation
  // -------------------------------------------------------------------------

  /** `clone`, by its documented contract: new PDUs all the way down, with the same layers. */
  method Clone(head: Pdu, ghost nodes: seq<Pdu>) returns (copy: Pdu, ghost copies: seq<Pdu>)
    requires Chain(head, nodes)
    ensures Chain(copy, copies) && Layers(copies) == Layers(nodes)
    ensures forall i :: 0 <= i < |copies| ==> fresh(copies[i])
    decreases |nodes|
  {
    ChainTail(head, nodes);
    if head.inner == null {
      copy := new Pdu(head.layer, null);
      copies := [copy];
    } else {
      var innerCopy, innerCopies := Clone(head.inner, nodes[1..]);
      copy := new Pdu(head.layer, innerCopy);
      copies := [copy] + innerCopies;
      assert forall i :: 0 < i < |nodes| ==> Layers(nodes)[i] == Layers(nodes[1..])[i - 1];
      assert Layers(copies) == Layers(nodes);
    }
  }

  /**
   `lop /= rop`: a copy of the chain of `rop` is set below the innermost PDU of `lop`. Nothing else
   changes: `rop` keeps its chain, unless the two chains share that innermost PDU, when it grows too.
   */
  method Append(lop: Pdu, rop: Pdu, ghost ls: seq<Pdu>, ghost rs: seq<Pdu>) returns (ghost copies: seq<Pdu>)
    requires Chain(lop, ls) && Chain(rop, rs)
    modifies ls[|ls| - 1]
    ensures Chain(lop, ls + copies) && Layers(copies) == Layers(rs)
    ensures forall i :: 0 <= i < |copies| ==> fresh(copies[i])
    ensures Chain(rop, if ls[|ls| - 1] in rs then rs + copies else rs)
  {
    var last := lop;
    ghost var i := 0;
    while last.inner != null
      invariant 0 <= i < |ls| && last == ls[i]
      decreases |ls| - i
    {
      last := last.inner;
      i := i + 1;
    }
    InnermostIn(lop, ls, last);
    ChainAcyclic(lop, ls);
    ChainAcyclic(rop, rs);
    var copy;
    copy, copies := Clone(rop, rs);
    InnermostIn(rop, rs, last);
    ghost var joined := if last in rs then rs + copies else rs;
    last.inner := copy;
    assert forall k :: 0 <= k < |rs| - 1 ==> joined[k] == rs[k] && rs[k].inner == rs[k + 1];
    assert forall k :: 0 <= k < |joined| - 1 ==> joined[k].inner == joined[k + 1];
  }

  /** A PDU with nothing inside can only be the last of a chain. */
  lemma InnermostIn(head: Pdu, nodes: seq<Pdu>, p: Pdu)
    requires Chain(head, nodes) && p.inner == null
    ensures forall k :: 0 <= k < |nodes| - 1 ==> nodes[k] != p
    ensures p in nodes ==> p == nodes[|nodes| - 1]
  {
    forall k | 0 <= k < |nodes| - 1 ensures nodes[k] != p {
      assert nodes[k].inner == nodes[k + 1];
    }
  }

  /** `lop /= lop` doubles the chain. */
  method AppendSelf(lop: Pdu, ghost ls: seq<Pdu>) returns (ghost nodes: seq<Pdu>)
    requires Chain(lop, ls)
    modifies ls[|ls| - 1]
    ensures Chain(lop, nodes) && Layers(nodes) == Layers(ls) + Layers(ls)
  {
    ghost var copies := Append(lop, lop, ls, ls);
    nodes := ls + copies;
  }

  /** `lop / rop`: a new chain with the layers of both, which leaves both alone. */
  method Concat(lop: Pdu, rop: Pdu, ghost ls: seq<Pdu>, ghost rs: seq<Pdu>) returns (result: Pdu, ghost nodes: seq<Pdu>)
    requires Chain(lop, ls) && Chain(rop, rs)
    ensures Chain(result, nodes) && Layers(nodes) == Layers(ls) + Layers(rs)
    ensures forall i :: 0 <= i < |nodes| ==> fresh(nodes[i])
    ensures Chain(lop, ls) && Chain(rop, rs)
  {
    ghost var copies;
    result, copies := Clone(lop, ls);
    ghost var appended := Append(result, rop, copies, rs);
    nodes := copies + appended;
  }

  /** The search on `lop /= rop`: a layer of `lop` if one matches, else the copy of the first match in `rop`. */
  method FindAfterAppend(lop: Pdu, rop: Pdu, flag: nat, ghost ls: seq<Pdu>, ghost rs: seq<Pdu>)
    returns (found: Pdu?, ghost copies: seq<Pdu>)
    requires Chain(lop, ls) && Chain(rop, rs)
    modifies ls[|ls| - 1]
    ensures Chain(lop, ls + copies)
    ensures var k, m := FirstMatch(Layers(ls), flag), FirstMatch(Layers(rs), flag);
      found == if k < |ls| then ls[k] else if m < |copies| then copies[m] else null
  {
    copies := Append(lop, rop, ls, rs);
    found := FindPdu(lop, flag, ls + copies);
    assert Layers(ls + copies) == Layers(ls) + Layers(rs);
    FirstMatchConcat(Layers(ls), Layers(rs), flag);
    assert |copies| == |Layers(copies)| == |rs|;
  }
}
