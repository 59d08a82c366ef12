// Rewriting one packet against the flow table, and the round trip of a request and its reply.
module RedirectRewrite {
  import opened Packet
  import opened NatPorts
  import opened VirtualRedirect

  const LOOPBACK_ROUTE := Route(true, true, 1, 0)

  /** How the redirect classifies a packet. */
  datatype Kind = Ignored | Request(target: TargetKey) | Reply(response: ResponseKey)

  function Classify(p: seq<byte>, route: Route, targets: Targets, responses: Responses): Kind {
    match Parse(p)
    case NotTCP => Ignored
    case TCP(_, a) =>
      if !route.outbound then Ignored
      else if Endpoint(a.dstIP, a.dstPort) in targets then Request(TargetKey(a.srcIP, a.srcPort, a.dstIP, a.dstPort))
      else if a.srcPort in responses && route.loopback && a.srcIP == LOOPBACK_IPV4 && a.dstIP == LOOPBACK_IPV4
      then Reply(ResponseKey(a.srcPort, a.dstPort))
      else Ignored
  }

  /** Which packets are redirected: outbound ones to a target of some rule, as requests under their four-tuple; and
      outbound ones on loopback from a listener of some rule, as replies under the listener's and the NAT port. */
  lemma ClassifyMeans(p: seq<byte>, route: Route, targets: Targets, responses: Responses)
    ensures Parse(p).NotTCP? || !route.outbound ==> Classify(p, route, targets, responses) == Ignored
    ensures Parse(p).TCP? && route.outbound ==>
              var Addressing(srcIP, srcPort, dstIP, dstPort) := Parse(p).addressing;
              var kind := Classify(p, route, targets, responses);
              && (kind.Request? <==> Endpoint(dstIP, dstPort) in targets)
              && (kind.Request? ==> kind.target == TargetKey(srcIP, srcPort, dstIP, dstPort))
              && (kind.Reply? <==>
                  && Endpoint(dstIP, dstPort) !in targets && srcPort in responses && route.loopback
                  && srcIP == dstIP == Dotted(127, 0, 0, 1))
              && (kind.Reply? ==> kind.response == ResponseKey(srcPort, dstPort))
  {
    hide Parse;
  }

  /** The rule of a stored flow is the one its listener was loaded with. */
  lemma ListenerRule(t: RedirectTable, key: ResponseKey)
    requires t.Valid() && key in t.responseFlows
    ensures key.localPort in t.responses && t.responseFlows[key].rule == t.responses[key.localPort]
    ensures Holds(t.targetFlows, t.responseFlows[key]) && Fits(t.targets, t.responseFlows[key])
  {
    var f := t.responseFlows[key];
    assert f.responseKey == key && t.targetFlows[f.targetKey] == f;
    assert Fits(t.targets, f);
  }

  lemma FlowFits(table: RedirectTable, flow: Flow)
    requires table.Valid() && Holds(table.targetFlows, flow)
    ensures flow.targetKey.Target() in table.targets && flow.rule == table.targets[flow.targetKey.Target()]
    ensures flow.rule.virtualPort == flow.targetKey.targetPort
  {
    assert Fits(table.targets, table.targetFlows[flow.targetKey]);
  }

  /** What a rewrite leaves of the table besides the packet's own flow. */
  twostate predicate OthersKept(t: RedirectTable, new flow: Flow?)
    reads t, t.targetFlows.Values
  {
    && t.targets == old(t.targets) && t.responses == old(t.responses)
    && (forall k | k in t.targetFlows ::
          || (k in old(t.targetFlows) && t.targetFlows[k] == old(t.targetFlows)[k])
          || (t.targetFlows[k] == flow && fresh(t.targetFlows[k])))
  }

  /** The flows of a swept table once it holds a connection's flow, with a victim removed to make room. */
  ghost function Ensured(swept: TargetFlows, flow: Flow, victim: Flow?): TargetFlows {
    if flow.targetKey in swept then swept
    else (if victim == null then swept else swept - {victim.targetKey})[flow.targetKey := flow]
  }

  /** What the flags of a flow's packet leave of the table. */
  ghost function AfterFlags(tf: TargetFlows, flow: Flow, flags: byte): TargetFlows {
    if HasFlag(flags, RST) then tf - {flow.targetKey} else tf
  }

  /** Whether a flow counts as closing after a packet with these flags. */
  predicate ClosingAfter(closing: bool, flags: byte) {
    HasFlag(flags, FIN) || (closing && !HasFlag(flags, SYN))
  }

  /** A request leaves for the loopback listener under its flow's NAT port. Of the swept table one flow goes if there
      was no room for a new one, and a reset also removes the packet's own. */
  twostate predicate RequestSent(t: RedirectTable, before: seq<byte>, after: seq<byte>, route: Route, new flow: Flow,
                                 new victim: Flow?, now: int, later: int)
    requires Parse(before).TCP?
    reads t, flow
  {
    var TCP(ihl, a) := Parse(before);
    var key := TargetKey(a.srcIP, a.srcPort, a.dstIP, a.dstPort);
    var flags := before[ihl + 13];
    var swept := old(t.Swept(now));
    && flow.targetKey == key
    && flow.ifIdx == route.ifIdx && flow.subIfIdx == route.subIfIdx && flow.lastSeen == later
    && after == WithAddressing(before, ihl, flow.OnLoopback())
    && (if key in swept then flow == swept[key] else fresh(flow))
    && (victim != null <==> key !in swept && |swept| == 8192)
    && (victim != null ==> Holds(swept, victim))
    && t.targetFlows == AfterFlags(Ensured(swept, flow, victim), flow, flags)
    && t.lastFlowCleanup == (if now - old(t.lastFlowCleanup) < SWEEP_PERIOD then old(t.lastFlowCleanup) else now)
    && (!HasFlag(flags, RST) ==>
          flow.closing == ClosingAfter(if key in swept then old(swept[key].closing) else false, flags))
  }

  /** A reply leaves on its flow's interface with the request's addressing swapped; a reset also removes the flow. */
  twostate predicate ReplySent(t: RedirectTable, before: seq<byte>, after: seq<byte>, newRoute: Route, flow: Flow,
                               later: int)
    requires Parse(before).TCP?
    reads t, flow
  {
    var TCP(ihl, a) := Parse(before);
    var key := ResponseKey(a.srcPort, a.dstPort);
    var flags := before[ihl + 13];
    && key in old(t.responseFlows) && flow == old(t.responseFlows)[key]
    && flow.lastSeen == later && unchanged(flow`ifIdx, flow`subIfIdx)
    && newRoute == Route(false, false, flow.ifIdx, flow.subIfIdx)
    && after == WithAddressing(before, ihl, flow.Original().Swapped())
    && t.targetFlows == AfterFlags(old(t.targetFlows), flow, flags)
    && (!HasFlag(flags, RST) ==> flow.closing == ClosingAfter(old(flow.closing), flags))
  }

  method RewritePacket(packet: array<byte>, route: Route, table: RedirectTable?, now: int, later: int)
    returns (newRoute: Route, action: Action, ghost flow: Flow?, ghost victim: Flow?)
    requires table != null ==> table.Valid()
    modifies packet
    modifies if table == null then {} else {table}
    modifies if table == null then {} else table.targetFlows.Values
    ensures action != Drop && (action == Inject <==> flow != null)
    ensures action == Pass ==> packet[..] == old(packet[..]) && newRoute == route && (table == null || unchanged(table))
    ensures table == null ==> action == Pass
    ensures table != null ==> table.Valid() && OthersKept(table, flow)
    ensures table != null ==> forall f | f in old(table.targetFlows.Values) && f != flow :: unchanged(f)
    ensures table != null ==>
              match old(Classify(packet[..], route, table.targets, table.responses))
              case Ignored => action == Pass && victim == null
              case Request(key) =>
                && action == Inject && newRoute == Route(true, true, 1, 0) && flow.targetKey == key
                && RequestSent(table, old(packet[..]), packet[..], route, flow, victim, now, later)
              case Reply(key) =>
                && victim == null && (action == Inject <==> key in old(table.responseFlows))
                && (action == Inject ==>
                      && flow in old(table.targetFlows.Values)
                      && ReplySent(table, old(packet[..]), packet[..], newRoute, flow, later))
  {
    hide RedirectTable.Valid, IsIPv4TCP, HeaderLength, ReadUint16, ReadUint32;
    newRoute, action, flow, victim := route, Pass, null, null;
    if table == null {
      return;
    }
    var parsed := Parse(packet[..]);
    if parsed.NotTCP? || !route.outbound {
      return;
    }
    var TCP(ihl, a) := parsed;
    var endpoint := Endpoint(a.dstIP, a.dstPort);
    if endpoint in table.targets {
      newRoute, action, flow, victim := RewriteRequest(packet, ihl, a, route, table, now, later);
    } else if a.srcPort in table.responses && route.loopback && a.srcIP == LOOPBACK_IPV4 && a.dstIP == LOOPBACK_IPV4 {
      newRoute, action, flow := RewriteReply(packet, ihl, a, route, table, later);
    }
  }

  lemma ParsedLength(p: seq<byte>)
    requires Parse(p).TCP?
    ensures Parse(p).ihl >= 20 && Parse(p).ihl + 20 <= |p|
  {
  }

  /** Overwrites the packet's addressing and lets its flow see its flags. */
  method Emit(packet: array<byte>, ihl: nat, a: Addressing, flags: byte, table: RedirectTable, flow: Flow, later: int)
    requires 20 <= ihl && ihl + 4 <= packet.Length
    requires table.Valid() && Holds(table.targetFlows, flow)
    modifies packet, table`targetFlows, table`responseFlows, flow`lastSeen, flow`closing
    ensures packet[..] == WithAddressing(old(packet[..]), ihl, a)
    ensures table.Valid() && flow.lastSeen == later
    ensures table.targetFlows == AfterFlags(old(table.targetFlows), flow, flags)
    ensures !HasFlag(flags, RST) ==> flow.closing == ClosingAfter(old(flow.closing), flags)
    ensures forall k | k in table.targetFlows ::
              k in old(table.targetFlows) && table.targetFlows[k] == old(table.targetFlows)[k]
  {
    PutAddressing(packet, ihl, a);
    table.UpdateFlowState(flow, flags, later);
  }

  method RewriteRequest(packet: array<byte>, ihl: nat, a: Addressing, route: Route, table: RedirectTable, now: int,
                        later: int)
    returns (newRoute: Route, action: Action, ghost flow: Flow?, ghost victim: Flow?)
    requires table.Valid() && Parse(packet[..]) == TCP(ihl, a) && Endpoint(a.dstIP, a.dstPort) in table.targets
    modifies packet, table, table.targetFlows.Values
    ensures action == Inject && newRoute == LOOPBACK_ROUTE && flow != null
    ensures table.Valid() && OthersKept(table, flow)
    ensures forall f | f in old(table.targetFlows.Values) && f != flow :: unchanged(f)
    ensures RequestSent(table, old(packet[..]), packet[..], route, flow, victim, now, later)
  {
    hide RedirectTable.Valid, IsIPv4TCP, HeaderLength, ReadUint16, ReadUint32, Parse, WithAddressing;
    hide RedirectTable.Swept, ExpiredKeys, Fits, HasFlag, Holds, AfterFlags, ClosingAfter;
    ParsedLength(packet[..]);
    var flags := packet[ihl + 13];
    var rule := table.targets[Endpoint(a.dstIP, a.dstPort)];
    var key := TargetKey(a.srcIP, a.srcPort, a.dstIP, a.dstPort);
    var found, ok;
    found, ok, victim := table.EnsureTargetFlow(key, rule, route.ifIdx, route.subIfIdx, now);
    if !ok {
      return route, Drop, null, null;
    }
    FlowFits(table, found);
    Emit(packet, ihl, Addressing(LOOPBACK_IPV4, found.responseKey.natPort, LOOPBACK_IPV4, rule.localPort),
         flags, table, found, later);
    return LOOPBACK_ROUTE, Inject, found, victim;
  }

  method RewriteReply(packet: array<byte>, ihl: nat, a: Addressing, route: Route, table: RedirectTable, later: int)
    returns (newRoute: Route, action: Action, ghost flow: Flow?)
    requires table.Valid() && Parse(packet[..]) == TCP(ihl, a) && a.srcPort in table.responses
    modifies packet, table, table.targetFlows.Values
    ensures action == if ResponseKey(a.srcPort, a.dstPort) in old(table.responseFlows) then Inject else Pass
    ensures table.Valid() && OthersKept(table, flow)
    ensures forall f | f in old(table.targetFlows.Values) && f != flow :: unchanged(f)
    ensures action == Pass ==> newRoute == route && flow == null && unchanged(table) && packet[..] == old(packet[..])
    ensures action == Inject ==> flow != null && flow in old(table.targetFlows.Values)
    ensures action == Inject ==> ReplySent(table, old(packet[..]), packet[..], newRoute, flow, later)
  {
    hide RedirectTable.Valid, IsIPv4TCP, HeaderLength, ReadUint16, ReadUint32, Parse, WithAddressing;
    ParsedLength(packet[..]);
    var flags := packet[ihl + 13];
    var rule := table.responses[a.srcPort];
    var key := ResponseKey(a.srcPort, a.dstPort);
    if key !in table.responseFlows {
      return route, Pass, null;
    }
    ListenerRule(table, key);
    var found := table.responseFlows[key];
    if found.rule != rule {
      return route, Pass, null;
    }
    FlowFits(table, found);
    assert found in old(table.targetFlows.Values);
    Emit(packet, ihl,
         Addressing(found.targetKey.targetIP, rule.virtualPort, found.targetKey.sourceIP, found.targetKey.sourcePort),
         flags, table, found, later);
    return Route(false, false, found.ifIdx, found.subIfIdx), Inject, found;
  }
}
