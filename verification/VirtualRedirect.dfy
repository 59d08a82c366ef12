// The flow table of the virtual redirect and the packet rewrite that uses it.
module VirtualRedirect {
  import opened Packet
  import opened NatPorts
  import opened Sorting

  const MAX_ENDPOINTS: nat := 48
  const MAX_FLOWS: nat := 8192
  const EVICT_SAMPLE: nat := 32
  const SECOND: int := 1_000_000_000
  const FLOW_IDLE_TTL: int := 24 * 3600 * SECOND
  const CLOSING_TTL: int := 600 * SECOND
  const SWEEP_PERIOD: int := 60 * SECOND

  datatype Endpoint = Endpoint(ip: uint32, port: uint16)
  datatype Rule = Rule(virtualIP: uint32, virtualPort: uint16, localPort: uint16) {
    function Target(): Endpoint { Endpoint(virtualIP, virtualPort) }
  }
  datatype TargetKey = TargetKey(sourceIP: uint32, sourcePort: uint16, targetIP: uint32, targetPort: uint16) {
    function Target(): Endpoint { Endpoint(targetIP, targetPort) }
  }
  datatype Route = Route(outbound: bool, loopback: bool, ifIdx: uint32, subIfIdx: uint32)
  datatype Action = Pass | Inject | Drop

  /** One redirected connection. Its keys and its rule are fixed when it is created. */
  class Flow {
    const targetKey: TargetKey
    const responseKey: ResponseKey
    const rule: Rule
    var lastSeen: int
    var closing: bool
    var ifIdx: uint32
    var subIfIdx: uint32

    constructor (key: TargetKey, natPort: uint16, rule: Rule, now: int, ifIdx: uint32, subIfIdx: uint32)
      ensures targetKey == key && responseKey == ResponseKey(rule.localPort, natPort) && this.rule == rule
      ensures lastSeen == now && !closing && this.ifIdx == ifIdx && this.subIfIdx == subIfIdx
    {
      targetKey := key;
      responseKey := ResponseKey(rule.localPort, natPort);
      this.rule := rule;
      lastSeen := now;
      closing := false;
      this.ifIdx := ifIdx;
      this.subIfIdx := subIfIdx;
    }

    predicate Expired(now: int)
      reads this
    {
      now - lastSeen >= if closing then CLOSING_TTL else FLOW_IDLE_TTL
    }

    function OnLoopback(): Addressing {
      Addressing(LOOPBACK_IPV4, responseKey.natPort, LOOPBACK_IPV4, rule.localPort)
    }

    function Original(): Addressing {
      Addressing(targetKey.sourceIP, targetKey.sourcePort, targetKey.targetIP, targetKey.targetPort)
    }
  }

  type TargetFlows = map<TargetKey, Flow>
  type ResponseFlows = map<ResponseKey, Flow>

  /** The two maps hold the same flows, each under its own key. */
  ghost predicate Inverse(tf: TargetFlows, rf: ResponseFlows) {
    && (forall k | k in tf :: tf[k].targetKey == k && tf[k].responseKey in rf && rf[tf[k].responseKey] == tf[k])
    && (forall k | k in rf :: rf[k].responseKey == k && rf[k].targetKey in tf && tf[rf[k].targetKey] == rf[k])
  }

  lemma {:induction false} InverseMapsHaveEqualSize(tf: TargetFlows, rf: ResponseFlows)
    requires Inverse(tf, rf)
    ensures |tf| == |rf|
    decreases |tf|
  {
    if tf == map[] {
      assert forall k :: k !in rf;
      assert rf == map[];
    } else {
      var k :| k in tf;
      var r := tf[k].responseKey;
      var tf', rf' := tf - {k}, rf - {r};
      assert tf.Keys == tf'.Keys + {k} && rf.Keys == rf'.Keys + {r};
      assert Inverse(tf', rf');
      InverseMapsHaveEqualSize(tf', rf');
      assert |tf.Keys| == |tf'.Keys| + 1 && |rf.Keys| == |rf'.Keys| + 1;
    }
  }

  ghost predicate Holds(tf: TargetFlows, f: Flow) {
    f.targetKey in tf && tf[f.targetKey] == f
  }

  lemma StoredFlowHolds(tf: TargetFlows, rf: ResponseFlows, k: TargetKey)
    requires Inverse(tf, rf) && k in tf
    ensures Holds(tf, tf[k]) && tf[k].targetKey == k
  {
  }

  lemma RemovalKeepsInverse(tf: TargetFlows, rf: ResponseFlows, f: Flow)
    requires Inverse(tf, rf) && Holds(tf, f)
    ensures Inverse(tf - {f.targetKey}, rf - {f.responseKey})
    ensures |tf - {f.targetKey}| == |tf| - 1
  {
    var tf', rf' := tf - {f.targetKey}, rf - {f.responseKey};
    assert tf.Keys == tf'.Keys + {f.targetKey};
    assert |tf.Keys| == |tf'.Keys| + 1;
    assert forall k | k in tf' :: rf[tf[k].responseKey] == tf[k];
    assert forall k | k in rf' :: tf[rf[k].targetKey] == rf[k];
  }

  lemma InverseIsKeyed(tf: TargetFlows, rf: ResponseFlows)
    requires Inverse(tf, rf)
    ensures Keyed(tf)
  {
  }

  lemma InsertionKeepsInverse(tf: TargetFlows, rf: ResponseFlows, f: Flow)
    requires Inverse(tf, rf) && f.targetKey !in tf && f.responseKey !in rf
    ensures Inverse(tf[f.targetKey := f], rf[f.responseKey := f])
    ensures |tf[f.targetKey := f]| == |tf| + 1
  {
    assert tf[f.targetKey := f].Keys == tf.Keys + {f.targetKey};
  }

  /** Two flows of one listener never share a NAT port. */
  lemma DistinctNATPorts(tf: TargetFlows, rf: ResponseFlows, a: TargetKey, b: TargetKey)
    requires Inverse(tf, rf) && a in tf && b in tf && a != b
    ensures tf[a].responseKey != tf[b].responseKey
  {
    assert tf[a].targetKey != tf[b].targetKey;
  }

  /** What normalizeVirtualIPv4 lets through: no zero, multicast, loopback or link-local address. */
  predicate UsableIP(ip: uint32) {
    var first := ip / 0x100_0000;
    0 < first < 224 && first != 127 && ip / 0x1_0000 != 0xa9fe
  }

  /** In dotted form: not in 0.0.0.0/8, 127.0.0.0/8, 169.254.0.0/16, nor from 224.0.0.0 on. */
  lemma UsableDotted(a: byte, b: byte, c: byte, d: byte)
    ensures UsableIP(Dotted(a, b, c, d)) <==> a != 0 && a != 127 && a < 224 && !(a == 169 && b == 254)
  {
  }

  ghost predicate RulesAccepted(rules: seq<Rule>) {
    && |rules| <= 48
    && (forall i | 0 <= i < |rules| ::
          UsableIP(rules[i].virtualIP) && rules[i].virtualPort != 0 && rules[i].localPort != 0)
    && (forall i, j | 0 <= i < j < |rules| ::
          rules[i].Target() != rules[j].Target() && rules[i].localPort != rules[j].localPort)
  }

  /** Go's order of strings. */
  predicate TextBefore(a: string, b: string) {
    b != "" && (a == "" || a[0] < b[0] || (a[0] == b[0] && TextBefore(a[1..], b[1..])))
  }

  lemma {:induction false} TextOrder(a: string, b: string, c: string)
    ensures !TextBefore(a, a)
    ensures TextBefore(a, b) && TextBefore(b, c) ==> TextBefore(a, c)
    ensures TextBefore(a, b) || TextBefore(b, a) || a == b
  {
    if a != "" {
      TextOrder(a[1..], if b == "" then "" else b[1..], if c == "" then "" else c[1..]);
      assert a == [a[0]] + a[1..];
      assert b != "" ==> b == [b[0]] + b[1..];
    }
  }

  /** The order of a dictionary: a text comes before its continuations, and else the first difference decides. */
  lemma {:induction false} TextOrderDecides(common: string, a: char, b: char, s: string, t: string)
    ensures TextBefore(common, common + [a] + s) && !TextBefore(common + [a] + s, common)
    ensures a != b ==> (TextBefore(common + [a] + s, common + [b] + t) <==> a < b)
  {
    if common != "" {
      TextOrderDecides(common[1..], a, b, s, t);
      assert (common + [a] + s)[1..] == common[1..] + [a] + s && (common + [b] + t)[1..] == common[1..] + [b] + t;
    } else {
      assert common + [a] + s == [a] + s && common + [b] + t == [b] + t;
    }
  }

  /** Rules are listed by the text of their address, then by port. */
  predicate RuleBefore(text: uint32 -> string, a: Rule, b: Rule) {
    if text(a.virtualIP) != text(b.virtualIP) then TextBefore(text(a.virtualIP), text(b.virtualIP))
    else a.virtualPort < b.virtualPort
  }

  lemma NotBefore(text: uint32 -> string, a: Rule, b: Rule)
    requires !RuleBefore(text, a, b)
    ensures !TextBefore(text(a.virtualIP), text(b.virtualIP))
    ensures text(a.virtualIP) == text(b.virtualIP) ==> b.virtualPort <= a.virtualPort
  {
    TextOrder(text(a.virtualIP), text(a.virtualIP), text(a.virtualIP));
  }

  lemma RuleOrder(text: uint32 -> string)
    ensures StrictWeak((a: Rule, b: Rule) => RuleBefore(text, a, b))
  {
    forall a: Rule, b: Rule, c: Rule
      ensures !RuleBefore(text, a, a)
      ensures RuleBefore(text, a, b) && RuleBefore(text, b, c) ==> RuleBefore(text, a, c)
      ensures !RuleBefore(text, a, b) && !RuleBefore(text, b, c) ==> !RuleBefore(text, a, c)
    {
      var x, y, z := text(a.virtualIP), text(b.virtualIP), text(c.virtualIP);
      TextOrder(x, y, z);
      TextOrder(y, z, x);
      TextOrder(z, x, y);
      TextOrder(z, y, x);
      TextOrder(x, z, x);
      hide TextBefore;
    }
  }

  /** Accepts a rule list exactly when every rule is usable and none repeats an endpoint or a local port, and lists
      the same rules in their order; text writes an address. */
  method NormalizeRules(values: seq<Rule>, text: uint32 -> string) returns (ok: bool, rules: seq<Rule>)
    ensures ok <==> RulesAccepted(values)
    ensures ok ==> multiset(rules) == multiset(values) && |rules| == |values|
    ensures ok ==> forall i, j | 0 <= i < j < |rules| ::
              && !TextBefore(text(rules[j].virtualIP), text(rules[i].virtualIP))
              && (text(rules[i].virtualIP) == text(rules[j].virtualIP) ==> rules[i].virtualPort <= rules[j].virtualPort)
  {
    rules := [];
    if |values| > MAX_ENDPOINTS {
      return false, rules;
    }
    var targets: set<Endpoint>, localPorts: set<uint16> := {}, {};
    for i := 0 to |values|
      invariant targets == set j | 0 <= j < i :: values[j].Target()
      invariant localPorts == set j | 0 <= j < i :: values[j].localPort
      invariant RulesAccepted(values[..i])
    {
      var value := values[i];
      assert forall j | 0 <= j < i :: values[..i+1][j] == values[j];
      if !UsableIP(value.virtualIP) || value.virtualPort == 0 || value.localPort == 0 {
        return false, rules;
      }
      if value.Target() in targets || value.localPort in localPorts {
        return false, rules;
      }
      targets, localPorts := targets + {value.Target()}, localPorts + {value.localPort};
    }
    assert values[..|values|] == values;
    RuleOrder(text);
    var before := (a: Rule, b: Rule) => RuleBefore(text, a, b);
    StableSortSorts(values, before);
    rules := StableSort(values, before);
    hide RuleBefore;
    forall i, j | 0 <= i < j < |rules|
      ensures !TextBefore(text(rules[j].virtualIP), text(rules[i].virtualIP))
      ensures text(rules[i].virtualIP) == text(rules[j].virtualIP) ==> rules[i].virtualPort <= rules[j].virtualPort
    {
      assert !before(rules[j], rules[i]);
      NotBefore(text, rules[j], rules[i]);
    }
    return true, rules;
  }

  type Targets = map<Endpoint, Rule>
  type Responses = map<uint16, Rule>

  /** Targets and listeners are in one-to-one correspondence, and no target is a loopback address. */
  ghost predicate RulesValid(targets: Targets, responses: Responses) {
    && (forall e | e in targets ::
          && targets[e].Target() == e && e.ip != LOOPBACK_IPV4 && targets[e].localPort != 0
          && targets[e].localPort in responses && responses[targets[e].localPort] == targets[e])
    && (forall p | p in responses ::
          responses[p].localPort == p && responses[p].Target() in targets && targets[responses[p].Target()] == responses[p])
  }

  lemma EmptyRules()
    ensures RulesValid(map[], map[])
  {
  }

  lemma UsableIsNotLoopback(ip: uint32)
    requires UsableIP(ip)
    ensures ip != LOOPBACK_IPV4
  {
  }

  lemma RuleAdded(targets: Targets, responses: Responses, rule: Rule)
    requires RulesValid(targets, responses)
    requires rule.virtualIP != LOOPBACK_IPV4 && rule.localPort != 0
    requires rule.Target() !in targets && rule.localPort !in responses
    ensures RulesValid(targets[rule.Target() := rule], responses[rule.localPort := rule])
    ensures |targets[rule.Target() := rule]| == |targets| + 1
  {
    var ts, rs := targets[rule.Target() := rule], responses[rule.localPort := rule];
    assert ts.Keys == targets.Keys + {rule.Target()};
    forall e | e in ts
      ensures ts[e].Target() == e && e.ip != LOOPBACK_IPV4 && ts[e].localPort != 0
      ensures ts[e].localPort in rs && rs[ts[e].localPort] == ts[e]
    {
      assert e == rule.Target() || (e in targets && targets[e].localPort in responses);
    }
    forall p | p in rs
      ensures rs[p].localPort == p && rs[p].Target() in ts && ts[rs[p].Target()] == rs[p]
    {
      assert p == rule.localPort || (p in responses && responses[p].Target() in targets);
    }
  }

  /** A flow agrees with the rules that were loaded, and its NAT port is usable. */
  ghost predicate Fits(targets: Targets, f: Flow) {
    && f.targetKey.Target() in targets && targets[f.targetKey.Target()] == f.rule
    && f.responseKey.localPort == f.rule.localPort
    && f.responseKey.natPort != 0 && f.responseKey.natPort != f.rule.localPort
  }

  ghost predicate AllFit(targets: Targets, tf: TargetFlows) {
    forall k | k in tf :: Fits(targets, tf[k])
  }

  method LoadRules(rules: seq<Rule>) returns (targets: Targets, responses: Responses)
    requires RulesAccepted(rules)
    ensures RulesValid(targets, responses) && |targets| == |rules|
    ensures forall i | 0 <= i < |rules| :: rules[i].Target() in targets && targets[rules[i].Target()] == rules[i]
  {
    hide UsableIP, RulesValid;
    EmptyRules();
    targets, responses := map[], map[];
    for i := 0 to |rules|
      invariant RulesValid(targets, responses) && |targets| == i
      invariant forall j | i <= j < |rules| :: rules[j].Target() !in targets && rules[j].localPort !in responses
      invariant forall j | 0 <= j < i :: rules[j].Target() in targets && targets[rules[j].Target()] == rules[j]
    {
      var rule := rules[i];
      UsableIsNotLoopback(rule.virtualIP);
      RuleAdded(targets, responses, rule);
      targets := targets[rule.Target() := rule];
      responses := responses[rule.localPort := rule];
    }
  }

  ghost function ExpiredKeys(tf: TargetFlows, now: int): set<TargetKey>
    reads tf.Values
  {
    set k | k in tf && tf[k].Expired(now)
  }

  /** The flows left once the sweep has still the keys of todo to look at. */
  ghost function Remaining(tf: TargetFlows, expired: set<TargetKey>, todo: set<TargetKey>): TargetFlows {
    tf - (expired - todo)
  }

  lemma SweepBounds(tf: TargetFlows, expired: set<TargetKey>)
    requires expired <= tf.Keys
    ensures Remaining(tf, expired, tf.Keys) == tf && Remaining(tf, expired, {}) == tf - expired
  {
    assert expired - {} == expired;
  }

  lemma SweepStep(tf: TargetFlows, expired: set<TargetKey>, todo: set<TargetKey>, k: TargetKey)
    requires k in todo && todo <= tf.Keys
    ensures k in Remaining(tf, expired, todo) && Remaining(tf, expired, todo)[k] == tf[k]
    ensures Remaining(tf, expired, todo - {k}) ==
              if k in expired then Remaining(tf, expired, todo) - {k} else Remaining(tf, expired, todo)
  {
    var left, right := Remaining(tf, expired, todo - {k}), Remaining(tf, expired, todo);
    assert k in expired ==> left.Keys == right.Keys - {k};
    assert k !in expired ==> left.Keys == right.Keys;
  }

  ghost predicate Keyed(tf: TargetFlows) {
    forall k | k in tf :: tf[k].targetKey == k
  }

  /** The least recently seen flow of a sample taken in no particular order. */
  method OldestOfSample(flows: TargetFlows) returns (ghost sample: set<Flow>, candidate: Flow?)
    requires Keyed(flows)
    ensures |sample| == if |flows| < 32 then |flows| else 32
    ensures forall f | f in sample :: Holds(flows, f)
    ensures candidate == null <==> |flows| == 0
    ensures candidate != null ==> candidate in sample && forall f | f in sample :: candidate.lastSeen <= f.lastSeen
  {
    candidate := null;
    sample := {};
    var checked := 0;
    var todo := flows.Keys;
    while todo != {} && checked < EVICT_SAMPLE
      invariant todo <= flows.Keys && |todo| + checked == |flows|
      invariant |sample| == checked <= EVICT_SAMPLE
      invariant forall f | f in sample :: Holds(flows, f) && f.targetKey !in todo
      invariant candidate == null <==> checked == 0
      invariant candidate != null ==> candidate in sample && forall f | f in sample :: candidate.lastSeen <= f.lastSeen
    {
      var k :| k in todo;
      var flow := flows[k];
      assert flow !in sample;
      if candidate == null || flow.lastSeen < candidate.lastSeen {
        candidate := flow;
      }
      todo, checked, sample := todo - {k}, checked + 1, sample + {flow};
    }
  }

  lemma RemovalKeepsFit(targets: Targets, tf: TargetFlows, k: TargetKey)
    requires AllFit(targets, tf)
    ensures AllFit(targets, tf - {k})
  {
  }

  lemma InsertionKeepsFit(targets: Targets, tf: TargetFlows, f: Flow)
    requires AllFit(targets, tf) && Fits(targets, f)
    ensures AllFit(targets, tf[f.targetKey := f])
  {
  }

  /** A flow that is being closed lasts ten minutes without a packet, any other one a day. */
  lemma FlowLasts(f: Flow, now: int)
    ensures f.closing ==> (f.Expired(now) <==> now - f.lastSeen >= 10 * 60 * 1_000_000_000)
    ensures !f.closing ==> (f.Expired(now) <==> now - f.lastSeen >= 24 * 60 * 60 * 1_000_000_000)
  {
  }

  class RedirectTable {
    var targets: Targets
    var responses: Responses
    var targetFlows: TargetFlows
    var responseFlows: ResponseFlows
    var nextNATPort: uint16
    var lastFlowCleanup: int

    ghost predicate Valid()
      reads this
    {
      && RulesValid(targets, responses)
      && Inverse(targetFlows, responseFlows)
      && AllFit(targets, targetFlows)
      && |targetFlows| <= MAX_FLOWS
      && nextNATPort >= FIRST_NAT_PORT
    }

    /** The flows that a sweep at the given time leaves. */
    ghost function Swept(now: int): TargetFlows
      reads this, targetFlows.Values
    {
      if now - lastFlowCleanup < SWEEP_PERIOD then targetFlows
      else targetFlows - ExpiredKeys(targetFlows, now)
    }

    constructor (rules: seq<Rule>, now: int)
      requires RulesAccepted(rules)
      ensures Valid() && targetFlows == map[] && lastFlowCleanup == now && nextNATPort == 49152
      ensures forall i | 0 <= i < |rules| :: rules[i].Target() in targets && targets[rules[i].Target()] == rules[i]
      ensures |targets| == |rules|
    {
      targetFlows, responseFlows := map[], map[];
      nextNATPort, lastFlowCleanup := INITIAL_NAT_PORT, now;
      var ts, rs := LoadRules(rules);
      targets, responses := ts, rs;
    }

    method RemoveFlow(flow: Flow?)
      requires Valid() && (flow != null ==> Holds(targetFlows, flow))
      modifies `targetFlows, `responseFlows
      ensures Valid()
      ensures targetFlows == if flow == null then old(targetFlows) else old(targetFlows) - {flow.targetKey}
      ensures flow != null ==> |targetFlows| == |old(targetFlows)| - 1
    {
      hide RulesValid, Inverse, AllFit;
      if flow == null {
        return;
      }
      RemovalKeepsFit(targets, targetFlows, flow.targetKey);
      RemovalKeepsInverse(targetFlows, responseFlows, flow);
      targetFlows := targetFlows - {flow.targetKey};
      responseFlows := responseFlows - {flow.responseKey};
    }

    /** At most once a sweep period, removes every expired flow. */
    method CleanupFlows(now: int)
      requires Valid()
      modifies `targetFlows, `responseFlows, `lastFlowCleanup
      ensures Valid()
      ensures targetFlows == old(Swept(now))
      ensures forall k | k in targetFlows :: k in old(targetFlows) && targetFlows[k] == old(targetFlows)[k]
      ensures forall k | k in old(targetFlows) ::
                k in targetFlows <==>
                || now - old(lastFlowCleanup) < 60 * 1_000_000_000
                || now - old(targetFlows)[k].lastSeen <
                     (if old(targetFlows)[k].closing then 10 * 60 * 1_000_000_000 else 24 * 60 * 60 * 1_000_000_000)
      ensures lastFlowCleanup == if now - old(lastFlowCleanup) < SWEEP_PERIOD then old(lastFlowCleanup) else now
    {
      hide RulesValid, Inverse, AllFit;
      if now - lastFlowCleanup < SWEEP_PERIOD {
        return;
      }
      lastFlowCleanup := now;
      SweepExpired(now);
    }

    method SweepExpired(now: int)
      requires Valid()
      modifies `targetFlows, `responseFlows
      ensures Valid()
      ensures targetFlows == old(targetFlows) - old(ExpiredKeys(targetFlows, now))
    {
      hide RulesValid, Inverse, AllFit, Remaining;
      ghost var before, expired := targetFlows, ExpiredKeys(targetFlows, now);
      SweepBounds(before, expired);
      var todo := targetFlows.Keys;
      while todo != {}
        invariant Valid() && todo <= before.Keys
        invariant targetFlows == Remaining(before, expired, todo)
      {
        var k :| k in todo;
        SweepStep(before, expired, todo, k);
        StoredFlowHolds(targetFlows, responseFlows, k);
        var flow := targetFlows[k];
        if flow.Expired(now) {
          RemoveFlow(flow);
        }
        todo := todo - {k};
      }
    }

    /** Makes room by removing the least recently seen flow of a sample. */
    method EvictStaleFlow() returns (ghost sample: set<Flow>, victim: Flow?)
      requires Valid()
      modifies `targetFlows, `responseFlows
      ensures Valid()
      ensures |sample| == if |old(targetFlows)| < 32 then |old(targetFlows)| else 32
      ensures forall f | f in sample :: Holds(old(targetFlows), f)
      ensures victim == null <==> |old(targetFlows)| == 0
      ensures victim != null ==> victim in sample && forall f | f in sample :: victim.lastSeen <= f.lastSeen
      ensures targetFlows == if victim == null then old(targetFlows) else old(targetFlows) - {victim.targetKey}
      ensures victim != null ==> |targetFlows| == |old(targetFlows)| - 1
    {
      hide RulesValid, Inverse, AllFit;
      InverseIsKeyed(targetFlows, responseFlows);
      sample, victim := OldestOfSample(targetFlows);
      RemoveFlow(victim);
    }

    /** Takes the preferred port if it is free, and otherwise the first free one in cyclic order. */
    method AllocateNATPort(preferred: uint16, localPort: uint16) returns (port: uint16, ok: bool, ghost tries: nat)
      requires nextNATPort >= FIRST_NAT_PORT
      modifies `nextNATPort
      ensures ok <==> (Free(responseFlows.Keys, localPort, preferred) ||
                       exists p: uint16 :: p >= 1024 && Free(responseFlows.Keys, localPort, p))
      ensures ok ==> port != 0 && port != localPort && ResponseKey(localPort, port) !in responseFlows
      ensures preferred != 0 && preferred != localPort && ResponseKey(localPort, preferred) !in responseFlows ==>
                ok && port == preferred
      ensures !ok ==> forall p: uint16 | p >= 1024 :: p == localPort || ResponseKey(localPort, p) in responseFlows
      ensures Free(responseFlows.Keys, localPort, preferred) ==> port == preferred && nextNATPort == old(nextNATPort)
      ensures ok && !Free(responseFlows.Keys, localPort, preferred) ==>
                && port == PortAfter(old(nextNATPort), tries) && nextNATPort == PortAfter(old(nextNATPort), tries + 1)
                && forall i: nat | i < tries :: !Free(responseFlows.Keys, localPort, PortAfter(old(nextNATPort), i))
      ensures nextNATPort >= FIRST_NAT_PORT
    {
      tries := 0;
      if preferred != 0 && preferred != localPort && ResponseKey(localPort, preferred) !in responseFlows {
        return preferred, true, 0;
      }
      ghost var start := nextNATPort;
      PortAfterStep(start, 0);
      var attempts := 0;
      while attempts < MAX_ATTEMPTS
        invariant attempts <= MAX_ATTEMPTS
        invariant nextNATPort == PortAfter(start, attempts)
        invariant forall i: nat | i < attempts :: !Free(responseFlows.Keys, localPort, PortAfter(start, i))
      {
        port := nextNATPort;
        PortAfterStep(start, attempts);
        nextNATPort := NextPort(nextNATPort);
        if port != 0 && port != localPort && ResponseKey(localPort, port) !in responseFlows {
          assert port >= FIRST_NAT_PORT && Free(responseFlows.Keys, localPort, port);
          return port, true, attempts;
        }
        attempts := attempts + 1;
      }
      forall p: uint16 | p >= FIRST_NAT_PORT
        ensures !Free(responseFlows.Keys, localPort, p)
      {
        var n := EveryPortVisited(start, p);
      }
      assert forall p: uint16 | p >= FIRST_NAT_PORT ::
          !Free(responseFlows.Keys, localPort, p) ==> p == localPort || ResponseKey(localPort, p) in responseFlows;
      return 0, false, 0;
    }

    /** Finds or creates the flow of a connection. In a valid table this never fails. */
    method EnsureTargetFlow(key: TargetKey, rule: Rule, ifIdx: uint32, subIfIdx: uint32, now: int)
      returns (flow: Flow?, ok: bool, ghost victim: Flow?)
      requires Valid() && key.Target() in targets && targets[key.Target()] == rule
      modifies `targetFlows, `responseFlows, `nextNATPort, `lastFlowCleanup, targetFlows.Values
      ensures ok && flow != null && Valid() && Holds(targetFlows, flow) && flow.targetKey == key
      ensures flow in old(targetFlows.Values) || fresh(flow)
      ensures forall k | k in targetFlows ::
                (k in old(targetFlows) && targetFlows[k] == old(targetFlows)[k]) || (targetFlows[k] == flow && fresh(flow))
      ensures flow.lastSeen == now && flow.ifIdx == ifIdx && flow.subIfIdx == subIfIdx
      ensures key in old(Swept(now)) ==>
                flow == old(Swept(now)[key]) && targetFlows == old(Swept(now)) && flow.closing == old(flow.closing)
      ensures key !in old(Swept(now)) ==>
                && fresh(flow) && !flow.closing
                && targetFlows == (if victim == null then old(Swept(now)) else old(Swept(now)) - {victim.targetKey})[key := flow]
      ensures victim != null <==> key !in old(Swept(now)) && |old(Swept(now))| == 8192
      ensures victim != null ==> Holds(old(Swept(now)), victim)
      ensures lastFlowCleanup == if now - old(lastFlowCleanup) < SWEEP_PERIOD then old(lastFlowCleanup) else now
      ensures forall f | f in old(targetFlows.Values) && f != flow :: unchanged(f)
    {
      hide RulesValid, Inverse, AllFit, ExpiredKeys, Swept;
      victim := null;
      CleanupFlows(now);
      if key in targetFlows {
        StoredFlowHolds(targetFlows, responseFlows, key);
        assert targetFlows[key] in old(targetFlows.Values);
        flow := targetFlows[key];
        flow.lastSeen, flow.ifIdx, flow.subIfIdx := now, ifIdx, subIfIdx;
        return flow, true, null;
      }
      if |targetFlows| >= MAX_FLOWS {
        ghost var sample;
        sample, victim := EvictStaleFlow();
      }
      hide RulesValid, Inverse, AllFit;
      assert rule.localPort == targets[key.Target()].localPort;
      InverseMapsHaveEqualSize(targetFlows, responseFlows);
      SomePortFree(responseFlows.Keys, rule.localPort);
      flow, ok := CreateFlow(key, rule, ifIdx, subIfIdx, now);
    }

    /** Adds a flow under a free NAT port to a table that has room. */
    method CreateFlow(key: TargetKey, rule: Rule, ifIdx: uint32, subIfIdx: uint32, now: int)
      returns (flow: Flow?, ok: bool)
      requires Valid() && |targetFlows| < MAX_FLOWS && key !in targetFlows
      requires key.Target() in targets && targets[key.Target()] == rule
      modifies `targetFlows, `responseFlows, `nextNATPort
      ensures ok && flow != null && fresh(flow) && Valid()
      ensures flow.targetKey == key && flow.lastSeen == now && !flow.closing && flow.ifIdx == ifIdx && flow.subIfIdx == subIfIdx
      ensures targetFlows == old(targetFlows)[key := flow]
      ensures Free(old(responseFlows.Keys), rule.localPort, key.sourcePort) ==> flow.responseKey.natPort == key.sourcePort
    {
      hide RulesValid, Inverse, AllFit;
      assert rule.localPort == targets[key.Target()].localPort;
      InverseMapsHaveEqualSize(targetFlows, responseFlows);
      SomePortFree(responseFlows.Keys, rule.localPort);
      var natPort;
      ghost var tries;
      natPort, ok, tries := AllocateNATPort(key.sourcePort, rule.localPort);
      if !ok {
        return null, false;
      }
      flow := new Flow(key, natPort, rule, now, ifIdx, subIfIdx);
      InsertionKeepsInverse(targetFlows, responseFlows, flow);
      InsertionKeepsFit(targets, targetFlows, flow);
      targetFlows := targetFlows[key := flow];
      responseFlows := responseFlows[flow.responseKey := flow];
    }

    /** Follows the TCP flags of a packet of the flow; a reset removes it. */
    method UpdateFlowState(flow: Flow, flags: byte, now: int)
      requires Valid() && Holds(targetFlows, flow)
      modifies `targetFlows, `responseFlows, flow`lastSeen, flow`closing
      ensures Valid()
      ensures targetFlows == if HasFlag(flags, RST) then old(targetFlows) - {flow.targetKey} else old(targetFlows)
      ensures if HasFlag(flags, RST) then flow.targetKey !in targetFlows else Holds(targetFlows, flow)
      ensures forall k | k in targetFlows :: k in old(targetFlows) && targetFlows[k] == old(targetFlows)[k]
      ensures flow.lastSeen == now
      ensures !HasFlag(flags, RST) ==>
                flow.closing == (HasFlag(flags, FIN) || (old(flow.closing) && !HasFlag(flags, SYN)))
    {
      hide RulesValid, Inverse, AllFit;
      flow.lastSeen := now;
      if HasFlag(flags, SYN) {
        flow.closing := false;
      }
      if HasFlag(flags, RST) {
        RemoveFlow(flow);
        return;
      }
      if HasFlag(flags, FIN) {
        flow.closing := true;
      }
    }
  }
}
