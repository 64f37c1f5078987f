// Packets grouped into bidirectional flows.
module FlowTracker {
  import opened Wrappers
  import opened Packets

  // ------------------------------------------------------------ flow keys

  /** Python's `<` on strings: by the first differing character, a proper prefix first. */
  predicate StringLess(a: string, b: string)
    decreases |a|
  {
    b != "" && (a == "" || a[0] < b[0] || (a[0] == b[0] && StringLess(a[1..], b[1..])))
  }

  datatype Endpoint = Endpoint(host: string, port: nat)

  /** Python's `>` on (host, port) pairs. */
  predicate EndpointGreater(a: Endpoint, b: Endpoint) {
    StringLess(b.host, a.host) || (a.host == b.host && a.port > b.port)
  }

  datatype FlowKey = FlowKey(protocol: string, low: Endpoint, high: Endpoint)

  function KeyOf(p: ParsedPacket): FlowKey {
    var a := if p.srcPort.None? then Endpoint(p.source, 0) else Endpoint(p.source, PortOrZero(p.srcPort));
    var b := if p.srcPort.None? then Endpoint(p.destination, 0) else Endpoint(p.destination, PortOrZero(p.dstPort));
    if EndpointGreater(a, b) then FlowKey(p.protocol, b, a) else FlowKey(p.protocol, a, b)
  }

  lemma {:induction false} StringOrderIsTotal(a: string, b: string)
    ensures a == b || StringLess(a, b) || StringLess(b, a)
    ensures !(StringLess(a, b) && StringLess(b, a)) && !StringLess(a, a)
    decreases |a|
  {
    if a != "" {
      if b != "" && a[0] == b[0] {
        StringOrderIsTotal(a[1..], b[1..]);
        assert a == [a[0]] + a[1..] && b == [b[0]] + b[1..];
      }
      StringOrderIsTotal(a[1..], a[1..]);
    }
  }

  /** The endpoints a packet is filed under, sender first: without a source port both ports count as zero. */
  function Ends(p: ParsedPacket): (Endpoint, Endpoint) {
    if p.srcPort.None? then (Endpoint(p.source, 0), Endpoint(p.destination, 0))
    else (Endpoint(p.source, p.srcPort.value), Endpoint(p.destination, PortOrZero(p.dstPort)))
  }

  /** Two packets share a flow key exactly when their protocol is the same and their endpoints, in either order. */
  lemma SameKeyIff(p: ParsedPacket, q: ParsedPacket)
    ensures KeyOf(p) == KeyOf(q)
       <==> p.protocol == q.protocol && (Ends(p) == Ends(q) || Ends(p) == (Ends(q).1, Ends(q).0))
  {
    StringOrderIsTotal(p.source, p.destination);
    StringOrderIsTotal(q.source, q.destination);
    StringOrderIsTotal(p.source, p.source);
    StringOrderIsTotal(q.source, q.source);
    hide StringLess;
  }

  /** The same packet seen in the other direction. */
  function Reversed(p: ParsedPacket): ParsedPacket {
    p.(source := p.destination, destination := p.source, srcPort := p.dstPort, dstPort := p.srcPort)
  }

  /** Both ports are known, or neither is, or the only known one is zero. */
  predicate PortsPaired(p: ParsedPacket) {
    p.srcPort.Some? == p.dstPort.Some? || (PortOrZero(p.srcPort) == 0 && PortOrZero(p.dstPort) == 0)
  }

  /** The key does not depend on the direction exactly when the ports are paired. */
  lemma KeyIgnoresDirectionIff(p: ParsedPacket)
    ensures KeyOf(p) == KeyOf(Reversed(p)) <==> PortsPaired(p)
  {
    StringOrderIsTotal(p.source, p.destination);
    StringOrderIsTotal(p.source, p.source);
    hide StringLess;
  }

  /** A packet whose only known port is 53 is filed under another key than its reply. */
  lemma KeyDependsOnDirection(p: ParsedPacket)
    requires p.source == "a" && p.destination == "b" && p.srcPort == Some(53) && p.dstPort == None
    ensures KeyOf(p) == FlowKey(p.protocol, Endpoint("a", 53), Endpoint("b", 0))
    ensures KeyOf(Reversed(p)) == FlowKey(p.protocol, Endpoint("a", 0), Endpoint("b", 0))
  {
    assert StringLess("a", "b") && !StringLess("b", "a");
  }

  // ------------------------------------------------------------ the tracker

  datatype Flow = Flow(
    id: nat, source: string, destination: string, protocol: string, srcPort: Option<nat>, dstPort: Option<nat>,
    startTs: real, endTs: real, packetCount: nat, bytes: nat)

  datatype TrackerState = TrackerState(flows: map<FlowKey, Flow>, counter: nat)

  const NO_FLOWS := TrackerState(map[], 0)

  /** The flow a packet is counted into, before it is counted; the initiator is whoever is seen first. */
  function FlowFor(t: TrackerState, p: ParsedPacket): Flow {
    if KeyOf(p) in t.flows then t.flows[KeyOf(p)]
    else Flow(t.counter + 1, p.source, p.destination, p.protocol, p.srcPort, p.dstPort, p.ts, p.ts, 0, 0)
  }

  function Counted(f: Flow, p: ParsedPacket): Flow {
    f.(endTs := p.ts, packetCount := f.packetCount + 1, bytes := f.bytes + p.length)
  }

  function Track(t: TrackerState, p: ParsedPacket): TrackerState {
    TrackerState(t.flows[KeyOf(p) := Counted(FlowFor(t, p), p)],
                 if KeyOf(p) in t.flows then t.counter else t.counter + 1)
  }

  class FlowTracker {
    var flows: map<FlowKey, Flow>
    var counter: nat

    ghost function State(): TrackerState
      reads this
    {
      TrackerState(flows, counter)
    }

    constructor ()
      ensures State() == NO_FLOWS
    {
      flows, counter := map[], 0;
    }

    method Feed(p: ParsedPacket) returns (flow: Flow, started: bool)
      modifies this
      ensures State() == Track(old(State()), p)
      ensures flow == Counted(FlowFor(old(State()), p), p) && started == (KeyOf(p) !in old(flows))
    {
      var key := KeyOf(p);
      started := key !in flows;
      if started {
        counter := counter + 1;
        flow := Flow(counter, p.source, p.destination, p.protocol, p.srcPort, p.dstPort, p.ts, p.ts, 0, 0);
        flows := flows[key := flow];
      } else {
        flow := flows[key];
      }
      flow := flow.(endTs := p.ts);
      flow := flow.(packetCount := flow.packetCount + 1);
      flow := flow.(bytes := flow.bytes + p.length);
      flows := flows[key := flow];
    }
  }
}
