// A request, any traffic, and the reply: what the redirected application gets to see.
module RedirectRoundTrip {
  import opened Collections
  import opened Packet
  import opened VirtualRedirect
  import opened RedirectRewrite

  /** A packet as captured: its bytes, where it came from, and the two clock readings its rewrite makes. */
  datatype Event = Event(packet: seq<byte>, route: Route, now: int, later: int)

  predicate RequestOf(e: Event, key: TargetKey, targets: Targets, responses: Responses) {
    Classify(e.packet, e.route, targets, responses) == Request(key)
  }

  /** The route of the last request of a connection, or first when the traffic holds none. */
  function LastRoute(traffic: seq<Event>, key: TargetKey, first: Route, targets: Targets, responses: Responses): Route {
    if traffic == [] then first
    else
      var e := traffic[|traffic| - 1];
      if RequestOf(e, key, targets, responses) then e.route
      else LastRoute(traffic[..|traffic| - 1], key, first, targets, responses)
  }

  /** Whether a packet carries the reset flag. */
  predicate Resets(p: seq<byte>)
    requires Parse(p).TCP?
  {
    HasFlag(p[Parse(p).ihl + 13], RST)
  }

  method Deliver(table: RedirectTable, e: Event)
    returns (bytes: seq<byte>, newRoute: Route, action: Action, ghost flow: Flow?, ghost victim: Flow?)
    requires table.Valid()
    modifies table, table.targetFlows.Values
    ensures action != Drop && (action == Inject <==> flow != null)
    ensures action == Pass ==> bytes == e.packet && newRoute == e.route && unchanged(table)
    ensures table.Valid() && OthersKept(table, flow)
    ensures forall f | f in old(table.targetFlows.Values) && f != flow :: unchanged(f)
    ensures match old(Classify(e.packet, e.route, table.targets, table.responses))
            case Ignored => action == Pass && victim == null
            case Request(key) =>
              && action == Inject && newRoute == LOOPBACK_ROUTE && flow.targetKey == key
              && RequestSent(table, e.packet, bytes, e.route, flow, victim, e.now, e.later)
            case Reply(key) =>
              && victim == null && (action == Inject <==> key in old(table.responseFlows))
              && (action == Inject ==>
                    flow in old(table.targetFlows.Values) && ReplySent(table, e.packet, bytes, newRoute, flow, e.later))
  {
    hide RedirectTable.Valid, RedirectTable.Swept, ExpiredKeys, Parse, WithAddressing, Classify, HasFlag;
    var buffer := new byte[|e.packet|](i requires 0 <= i < |e.packet| => e.packet[i]);
    assert buffer[..] == e.packet;
    newRoute, action, flow, victim := RewritePacket(buffer, e.route, table, e.now, e.later);
    bytes := buffer[..];
  }

  /** The interface a flow remembers, as long as the table still holds it. */
  ghost predicate Remembers(table: RedirectTable, flow: Flow, route: Route)
    reads table, flow
  {
    Holds(table.targetFlows, flow) ==> flow.ifIdx == route.ifIdx && flow.subIfIdx == route.subIfIdx
  }

  /** Whether a packet leaves a held flow in the table: a flow goes when a sweep finds it expired, when it makes room
      for another one, and with a reset of its own. */
  twostate predicate Survives(table: RedirectTable, e: Event, flow: Flow, new victim: Flow?)
    reads table
  {
    match old(Classify(e.packet, e.route, table.targets, table.responses))
    case Ignored => true
    case Request(key) =>
      flow.targetKey in old(table.Swept(e.now)) && flow != victim && !(key == flow.targetKey && Resets(e.packet))
    case Reply(key) => !(key == flow.responseKey && Resets(e.packet))
  }

  lemma Classified(e: Event, targets: Targets, responses: Responses)
    ensures var kind := Classify(e.packet, e.route, targets, responses);
            kind != Ignored ==>
              && Parse(e.packet).TCP?
              && var a := Parse(e.packet).addressing;
                 kind == Request(TargetKey(a.srcIP, a.srcPort, a.dstIP, a.dstPort)) ||
                 (kind.Reply? && kind.response.localPort == a.srcPort && kind.response.natPort == a.dstPort)
  {
    hide IsIPv4TCP, HeaderLength, ReadUint16, ReadUint32;
  }

  lemma SweptIsPart(table: RedirectTable, now: int)
    ensures forall k | k in table.Swept(now) :: k in table.targetFlows && table.Swept(now)[k] == table.targetFlows[k]
    ensures |table.Swept(now)| <= |table.targetFlows|
  {
    var swept := table.Swept(now);
    assert swept.Keys <= table.targetFlows.Keys;
    SubsetSize(swept.Keys, table.targetFlows.Keys);
  }

  lemma RepliesFind(table: RedirectTable, flow: Flow)
    requires table.Valid() && Holds(table.targetFlows, flow)
    ensures flow.responseKey in table.responseFlows
    ensures forall k | k in table.responseFlows :: table.responseFlows[k] == flow <==> k == flow.responseKey
    ensures forall k | k in table.responseFlows && k != flow.responseKey ::
              table.responseFlows[k].targetKey != flow.targetKey
  {
  }

  /** Which of the flows held before a request are held after it. */
  lemma EnsuredHolds(tf: TargetFlows, swept: TargetFlows, sender: Flow, victim: Flow?, flags: byte, flow: Flow)
    requires Holds(tf, flow) && forall k | k in swept :: k in tf && swept[k] == tf[k]
    requires if sender.targetKey in swept then victim == null && sender == swept[sender.targetKey] else sender != flow
    requires victim != null ==> Holds(swept, victim)
    ensures Holds(AfterFlags(Ensured(swept, sender, victim), sender, flags), flow) <==>
              && flow.targetKey in swept && flow != victim
              && !(sender.targetKey == flow.targetKey && HasFlag(flags, RST))
  {
    hide HasFlag;
  }

  lemma EnsuredSize(swept: TargetFlows, sender: Flow, victim: Flow?, flags: byte)
    ensures |AfterFlags(Ensured(swept, sender, victim), sender, flags)| <= |swept| + 1
  {
    hide HasFlag;
    var ensured := Ensured(swept, sender, victim);
    assert ensured.Keys <= swept.Keys + {sender.targetKey};
    SubsetSize(ensured.Keys, swept.Keys + {sender.targetKey});
    SubsetSize(AfterFlags(ensured, sender, flags).Keys, ensured.Keys);
  }

  /** A packet changes what a flow remembers only if it is a request of that flow; a lost flow never returns. */
  method DeliverOther(table: RedirectTable, e: Event, ghost flow: Flow, ghost route: Route)
    returns (ghost victim: Flow?)
    requires table.Valid() && Remembers(table, flow, route)
    modifies table, table.targetFlows.Values
    ensures table.Valid() && table.targets == old(table.targets) && table.responses == old(table.responses)
    ensures forall k | k in table.targetFlows ::
              table.targetFlows[k] in old(table.targetFlows.Values) || fresh(table.targetFlows[k])
    ensures Holds(table.targetFlows, flow) <==> old(Holds(table.targetFlows, flow)) && Survives(table, e, flow, victim)
    ensures victim != null ==> |old(table.targetFlows)| >= 8192
    ensures |table.targetFlows| <= |old(table.targetFlows)| + 1
    ensures Holds(table.targetFlows, flow) ==> flow.lastSeen == old(flow.lastSeen) || flow.lastSeen == e.later
    ensures Remembers(table, flow,
                      if RequestOf(e, flow.targetKey, table.targets, table.responses) then e.route else route)
  {
    hide RedirectTable.Valid, RedirectTable.Swept, ExpiredKeys, Parse, WithAddressing, Classify, HasFlag;
    var bytes, newRoute, action;
    ghost var touched;
    Classified(e, table.targets, table.responses);
    SweptIsPart(table, e.now);
    if Holds(table.targetFlows, flow) {
      RepliesFind(table, flow);
    }
    ghost var tf, swept, held := table.targetFlows, table.Swept(e.now), Holds(table.targetFlows, flow);
    bytes, newRoute, action, touched, victim := Deliver(table, e);
    if old(Classify(e.packet, e.route, table.targets, table.responses)).Request? {
      ParsedLength(e.packet);
      var flags := e.packet[Parse(e.packet).ihl + 13];
      EnsuredSize(swept, touched, victim, flags);
      if held {
        EnsuredHolds(tf, swept, touched, victim, flags, flow);
      }
    }
  }

  /** The reply's key finds the flow, because no target is a loopback address. */
  lemma ReplyFindsFlow(table: RedirectTable, flow: Flow, reply: seq<byte>, route: Route)
    requires table.Valid() && Holds(table.targetFlows, flow)
    requires Parse(reply).TCP? && Parse(reply).addressing == flow.OnLoopback().Swapped()
    requires route.outbound && route.loopback
    ensures Classify(reply, route, table.targets, table.responses) == Reply(flow.responseKey)
    ensures flow.responseKey in table.responseFlows && table.responseFlows[flow.responseKey] == flow
  {
    assert Fits(table.targets, table.targetFlows[flow.targetKey]);
    var source := Endpoint(LOOPBACK_IPV4, flow.responseKey.natPort);
    assert source !in table.targets;
  }

  /** The flow of a request has the request's own four-tuple. */
  lemma OriginalOf(p: seq<byte>, flow: Flow)
    requires Parse(p).TCP?
    requires var a := Parse(p).addressing; flow.targetKey == TargetKey(a.srcIP, a.srcPort, a.dstIP, a.dstPort)
    ensures flow.Original() == Parse(p).addressing
  {
  }

  lemma ResetKept(p: seq<byte>, q: seq<byte>)
    requires Parse(p).TCP? && Parse(q).TCP? && Parse(p).ihl == Parse(q).ihl && |p| == |q|
    requires forall i | 0 <= i < |p| && !InAddressing(Parse(p).ihl, i) :: p[i] == q[i]
    ensures Resets(p) == Resets(q)
  {
    ParsedLength(p);
  }

  lemma RecentIsNotSwept(table: RedirectTable, flow: Flow, now: int)
    requires Holds(table.targetFlows, flow) && now - flow.lastSeen < CLOSING_TTL
    ensures flow.targetKey in table.Swept(now)
  {
  }

  /** The request leaves for the listener on loopback and, unless it is a reset, its flow is in the table. */
  method SendRequest(table: RedirectTable, request: Event, ghost key: TargetKey)
    returns (sent: seq<byte>, ghost flow: Flow)
    requires table.Valid() && RequestOf(request, key, table.targets, table.responses)
    modifies table, table.targetFlows.Values
    ensures table.Valid() && table.targets == old(table.targets) && table.responses == old(table.responses)
    ensures forall k | k in table.targetFlows ::
              table.targetFlows[k] in old(table.targetFlows.Values) || fresh(table.targetFlows[k])
    ensures |table.targetFlows| <= |old(table.targetFlows)| + 1
    ensures flow in old(table.targetFlows.Values) || fresh(flow)
    ensures flow.targetKey == key && flow.Original() == Parse(request.packet).addressing
    ensures flow.ifIdx == request.route.ifIdx && flow.subIfIdx == request.route.subIfIdx
    ensures flow.lastSeen == request.later
    ensures Parse(sent) == TCP(Parse(request.packet).ihl, flow.OnLoopback()) && |sent| == |request.packet|
    ensures forall i | 0 <= i < |sent| && !InAddressing(Parse(sent).ihl, i) :: sent[i] == request.packet[i]
    ensures if Resets(request.packet) then key !in table.targetFlows else Holds(table.targetFlows, flow)
  {
    hide RedirectTable.Valid, RedirectTable.Swept, ExpiredKeys, IsIPv4TCP, HeaderLength, ReadUint16, ReadUint32,
         WithAddressing, HasFlag;
    var sentRoute, sentAction;
    ghost var created, victim;
    Classified(request, table.targets, table.responses);
    SweptIsPart(table, request.now);
    ghost var swept := table.Swept(request.now);
    sent, sentRoute, sentAction, created, victim := Deliver(table, request);
    flow := created;
    ParsedLength(request.packet);
    EnsuredSize(swept, flow, victim, request.packet[Parse(request.packet).ihl + 13]);
    ParseWithAddressing(request.packet, flow.OnLoopback());
    OriginalOf(request.packet, flow);
  }

  /** Traffic that cannot take a flow out of the table: its packets fall into less than the time after which a flow
      can expire, none of its own is a reset, and it is too little to fill the table. */
  ghost predicate Undisturbed(traffic: seq<Event>, flow: Flow, start: int, flows: nat, targets: Targets,
                              responses: Responses) {
    && flows + |traffic| < 8192
    && forall i | 0 <= i < |traffic| ::
         && start <= traffic[i].later && traffic[i].now - start < CLOSING_TTL
         && match Classify(traffic[i].packet, traffic[i].route, targets, responses)
            case Ignored => true
            case Request(key) => !(key == flow.targetKey && Resets(traffic[i].packet))
            case Reply(key) => !(key == flow.responseKey && Resets(traffic[i].packet))
  }

  /** After any request and any traffic, a flow still in the table remembers the interface of the connection's last
      request; and undisturbed traffic leaves it there. */
  method Carry(table: RedirectTable, request: Event, traffic: seq<Event>, ghost key: TargetKey, ghost start: int)
    returns (sent: seq<byte>, ghost flow: Flow)
    requires table.Valid() && RequestOf(request, key, table.targets, table.responses)
    modifies table, table.targetFlows.Values
    ensures table.Valid() && table.targets == old(table.targets) && table.responses == old(table.responses)
    ensures forall k | k in table.targetFlows ::
              table.targetFlows[k] in old(table.targetFlows.Values) || fresh(table.targetFlows[k])
    ensures flow in old(table.targetFlows.Values) || fresh(flow)
    ensures flow.targetKey == key && flow.Original() == Parse(request.packet).addressing
    ensures Parse(sent).TCP? && Parse(sent).addressing == flow.OnLoopback()
    ensures Remembers(table, flow, LastRoute(traffic, key, request.route, table.targets, table.responses))
    ensures start <= request.later && !Resets(request.packet) &&
            Undisturbed(traffic, flow, start, |old(table.targetFlows)|, table.targets, table.responses)
            ==> Holds(table.targetFlows, flow)
  {
    hide RedirectTable.Valid, RedirectTable.Swept, ExpiredKeys, Parse, WithAddressing, Classify, HasFlag;
    ghost var ts, rs, size := table.targets, table.responses, |table.targetFlows|;
    sent, flow := SendRequest(table, request, key);
    assert Parse(request.packet).TCP? by { Classified(request, ts, rs); }
    ghost var quiet :=
      start <= request.later && !Resets(request.packet) && Undisturbed(traffic, flow, start, size, ts, rs);
    for i := 0 to |traffic|
      invariant table.Valid() && table.targets == ts && table.responses == rs
      invariant forall k | k in table.targetFlows ::
                  table.targetFlows[k] in old(table.targetFlows.Values) || fresh(table.targetFlows[k])
      invariant |table.targetFlows| <= size + 1 + i
      invariant quiet ==> Holds(table.targetFlows, flow) && start <= flow.lastSeen
      invariant Remembers(table, flow, LastRoute(traffic[..i], key, request.route, ts, rs))
    {
      assert traffic[..i + 1][..i] == traffic[..i];
      if quiet {
        RecentIsNotSwept(table, flow, traffic[i].now);
      }
      ghost var victim := DeliverOther(table, traffic[i], flow, LastRoute(traffic[..i], key, request.route, ts, rs));
    }
    assert traffic[..|traffic|] == traffic;
  }

  /** A reply as the application gets to see it: sent by the target to the request's source, unchanged elsewhere. */
  ghost predicate Answered(answer: seq<byte>, outRoute: Route, action: Action, reply: seq<byte>, original: Addressing,
                           ifIdx: uint32, subIfIdx: uint32)
    requires Parse(reply).TCP?
  {
    && action == Inject && outRoute == Route(false, false, ifIdx, subIfIdx)
    && Parse(answer) == TCP(Parse(reply).ihl, original.Swapped()) && |answer| == |reply|
    && forall i | 0 <= i < |answer| && !InAddressing(Parse(reply).ihl, i) :: answer[i] == reply[i]
  }

  /** The listener's reply on a flow comes out as if the target had answered directly, provided the flow is in the
      table; and then it stays there unless the reply is a reset. */
  method AnswerReply(table: RedirectTable, reply: Event, ghost flow: Flow)
    returns (answer: seq<byte>, outRoute: Route, action: Action)
    requires table.Valid() && Parse(reply.packet).TCP? && reply.route.outbound && reply.route.loopback
    requires Parse(reply.packet).addressing == flow.OnLoopback().Swapped()
    modifies table, table.targetFlows.Values
    ensures table.Valid() && table.targets == old(table.targets) && table.responses == old(table.responses)
    ensures Holds(table.targetFlows, flow) ==> old(Holds(table.targetFlows, flow))
    ensures old(Holds(table.targetFlows, flow)) ==>
              && Answered(answer, outRoute, action, reply.packet, flow.Original(), old(flow.ifIdx), old(flow.subIfIdx))
              && table.targetFlows ==
                   (if Resets(reply.packet) then old(table.targetFlows) - {flow.targetKey} else old(table.targetFlows))
              && flow.lastSeen == reply.later && unchanged(flow`ifIdx, flow`subIfIdx)
              && forall f | f in old(table.targetFlows.Values) && f != flow :: unchanged(f)
  {
    hide RedirectTable.Valid, RedirectTable.Swept, ExpiredKeys, IsIPv4TCP, HeaderLength, ReadUint16, ReadUint32,
         WithAddressing, HasFlag;
    if Holds(table.targetFlows, flow) {
      ReplyFindsFlow(table, flow, reply.packet, reply.route);
      ParsedLength(reply.packet);
      ParseWithAddressing(reply.packet, flow.Original().Swapped());
    }
    ghost var owner, victim;
    answer, outRoute, action, owner, victim := Deliver(table, reply);
  }

  /** For any request, any traffic in between and any reply with the swapped addressing: the reply comes out as if the
      target had answered directly, exactly while the request's flow is in the table. */
  method RoundTrip(table: RedirectTable, request: Event, traffic: seq<Event>, body: Event, ghost key: TargetKey,
                   ghost start: int)
    returns (answer: seq<byte>, outRoute: Route, action: Action, ghost flow: Flow, ghost before: TargetFlows)
    requires table.Valid() && RequestOf(request, key, table.targets, table.responses)
    requires Parse(body.packet).TCP? && body.route.outbound && body.route.loopback
    modifies table, table.targetFlows.Values
    ensures table.Valid() && flow.targetKey == key
    ensures Holds(before, flow) ==>
              && (var last := LastRoute(traffic, key, request.route, table.targets, table.responses);
                  Answered(answer, outRoute, action, body.packet, Parse(request.packet).addressing, last.ifIdx,
                           last.subIfIdx))
              && table.targetFlows == (if Resets(body.packet) then before - {key} else before)
    ensures Holds(table.targetFlows, flow) ==> Holds(before, flow)
    ensures start <= request.later && !Resets(request.packet) &&
            Undisturbed(traffic, flow, start, |old(table.targetFlows)|, table.targets, table.responses)
            ==> Holds(before, flow)
  {
    hide RedirectTable.Valid, RedirectTable.Swept, ExpiredKeys, IsIPv4TCP, HeaderLength, ReadUint16, ReadUint32,
         WithAddressing, HasFlag, Undisturbed;
    var sent;
    sent, flow := Carry(table, request, traffic, key, start);
    before := table.targetFlows;
    ParsedLength(body.packet);
    var addressing := Parse(sent).addressing.Swapped();
    var reply := WithAddressing(body.packet, Parse(body.packet).ihl, addressing);
    ParseWithAddressing(body.packet, addressing);
    ResetKept(body.packet, reply);
    answer, outRoute, action := AnswerReply(table, body.(packet := reply), flow);
  }
}
