// The connection limiter as a function of its tracked entries, its ledger of leases and admissions,
// and the invariant that ties the two together.
module LimiterModel {
  import opened Collections
  import opened Timestamps

  datatype Limits = Limits(maxActive: int, maxPerIP: int, maxRate: int, window: int, maxItems: int)
  datatype Entry = Entry(active: nat, attempts: seq<int>, lastSeen: int)
  type Entries = map<string, Entry>

  datatype Reason =
    | Admitted
    | GlobalConcurrentConnections
    | TrackedRemoteIPCapacity
    | PerIPConcurrentConnections
    | PerIPNewConnectionRate

  /** What acquire hands out: the right to one connection from an address, given back at most once. */
  class Lease {
    const ip: string
    var released: bool

    constructor (ip: string)
      ensures this.ip == ip && !released
    {
      this.ip := ip;
      released := false;
    }
  }

  /** The full history: unreleased leases, all admissions of an address, those since it was last evicted
      for capacity, the addresses ever evicted that way, and the latest clock reading. */
  datatype Ledger = Ledger(open: set<Lease>, admitted: map<string, seq<int>>, since: map<string, seq<int>>,
                           evicted: set<string>, clock: int) {
    function At(now: int): Ledger { this.(clock := now) }
  }

  ghost function LeasesOf(open: set<Lease>, ip: string): set<Lease> {
    set l | l in open && l.ip == ip
  }

  function Attempts(m: Entries, ip: string): seq<int> {
    if ip in m then m[ip].attempts else []
  }

  predicate Idle(e: Entry) {
    e.active == 0 && e.attempts == []
  }

  function Pruned(e: Entry, now: int, cfg: Limits): Entry {
    e.(attempts := if cfg.maxRate <= 0 then [] else Recent(e.attempts, now - cfg.window))
  }

  function PruneOne(m: Entries, ip: string, now: int, cfg: Limits): Entries {
    if ip !in m then m
    else if Idle(Pruned(m[ip], now, cfg)) then m - {ip}
    else m[ip := Pruned(m[ip], now, cfg)]
  }

  function PruneAll(m: Entries, now: int, cfg: Limits): Entries {
    map ip | ip in m && !Idle(Pruned(m[ip], now, cfg)) :: Pruned(m[ip], now, cfg)
  }

  /** The entries once a sweep over all of them has still those of todo to prune. */
  ghost function Swept(m: Entries, todo: set<string>, now: int, cfg: Limits): Entries {
    map ip | ip in m && (ip in todo || !Idle(Pruned(m[ip], now, cfg))) ::
      if ip in todo then m[ip] else Pruned(m[ip], now, cfg)
  }

  lemma SweepBounds(m: Entries, now: int, cfg: Limits)
    ensures Swept(m, m.Keys, now, cfg) == m && Swept(m, {}, now, cfg) == PruneAll(m, now, cfg)
  {
  }

  lemma SweepStep(m: Entries, todo: set<string>, ip: string, now: int, cfg: Limits)
    requires ip in todo && todo <= m.Keys
    ensures ip in Swept(m, todo, now, cfg)
    ensures PruneOne(Swept(m, todo, now, cfg), ip, now, cfg) == Swept(m, todo - {ip}, now, cfg)
  {
  }

  function Charged(e: Entry, now: int, cfg: Limits): Entry {
    Entry(e.active + 1, if cfg.maxRate > 0 then e.attempts + [now] else e.attempts, now)
  }

  /** Counts agree with the unreleased leases, and the concurrent limits hold. */
  ghost predicate LeasesAgree(m: Entries, activeTotal: nat, open: set<Lease>, cfg: Limits) {
    && activeTotal == |open|
    && (forall l | l in open :: l.ip in m)
    && (forall ip | ip in m :: m[ip].active == |LeasesOf(open, ip)|)
    && (cfg.maxActive > 0 ==> activeTotal <= cfg.maxActive)
    && (cfg.maxPerIP > 0 ==> forall ip | ip in m :: m[ip].active <= cfg.maxPerIP)
  }

  /** The pruned attempts still answer for the address's history, and the rate limit holds on that history. */
  ghost predicate RateAgrees(attempts: seq<int>, since: seq<int>, clock: int, cfg: Limits) {
    cfg.maxRate > 0 ==>
      AgreeFrom(attempts, since, clock - cfg.window) && RateBounded(since, cfg.window, cfg.maxRate)
  }

  ghost predicate RatesAgree(m: Entries, g: Ledger, cfg: Limits) {
    && (forall ip | ip !in g.evicted :: History(g.since, ip) == History(g.admitted, ip))
    && (forall ip :: RateAgrees(Attempts(m, ip), History(g.since, ip), g.clock, cfg))
  }

  ghost predicate Inv(m: Entries, activeTotal: nat, g: Ledger, cfg: Limits) {
    && cfg.maxItems > 0 && cfg.window > 0
    && |m| <= cfg.maxItems
    && (forall ip | ip in m :: !Idle(m[ip]))
    && LeasesAgree(m, activeTotal, g.open, cfg)
    && RatesAgree(m, g, cfg)
  }

  // ---- Sums over the tracked addresses ----

  ghost function SumActive(m: Entries): nat {
    if m == map[] then 0
    else
      var ip :| ip in m;
      m[ip].active + SumActive(m - {ip})
  }

  /** The number of unreleased leases is the sum of the per-address counters. */
  lemma {:induction false} ActiveIsSumOfEntries(m: Entries, open: set<Lease>)
    requires forall l | l in open :: l.ip in m
    requires forall ip | ip in m :: m[ip].active == |LeasesOf(open, ip)|
    ensures SumActive(m) == |open|
  {
    if m == map[] {
      assert open == {};
    } else {
      var ip :| ip in m && SumActive(m) == m[ip].active + SumActive(m - {ip});
      var mine := LeasesOf(open, ip);
      forall other | other in m - {ip}
        ensures LeasesOf(open, other) == LeasesOf(open - mine, other)
      {
      }
      ActiveIsSumOfEntries(m - {ip}, open - mine);
      assert open == (open - mine) + mine;
    }
  }

  // ---- What each step keeps ----

  lemma SubmapSize(a: Entries, b: Entries)
    requires a.Keys <= b.Keys
    ensures |a| <= |b|
  {
    SubsetSize(a.Keys, b.Keys);
  }

  lemma NoLeaseNoActive(open: set<Lease>, ip: string, l: Lease)
    requires |LeasesOf(open, ip)| == 0 && l in open
    ensures l.ip != ip
  {
    assert l in LeasesOf(open, l.ip);
  }

  /** Dropping entries without a connection, and changing anything but the counters of the others. */
  lemma ShrinkKeepsLeases(m: Entries, m': Entries, activeTotal: nat, open: set<Lease>, cfg: Limits)
    requires LeasesAgree(m, activeTotal, open, cfg)
    requires forall ip | ip in m' :: ip in m && m'[ip].active == m[ip].active
    requires forall ip | ip in m && ip !in m' :: m[ip].active == 0
    ensures LeasesAgree(m', activeTotal, open, cfg)
    ensures |m'| <= |m|
  {
    SubmapSize(m', m);
    forall l | l in open
      ensures l.ip in m'
    {
      if l.ip !in m' {
        NoLeaseNoActive(open, l.ip, l);
      }
    }
  }

  lemma RateKept(attempts: seq<int>, attempts': seq<int>, since: seq<int>, clock: int, now: int, cfg: Limits)
    requires RateAgrees(attempts, since, clock, cfg) && clock <= now
    requires cfg.maxRate > 0 ==> attempts' == attempts || attempts' == Recent(attempts, now - cfg.window)
    ensures RateAgrees(attempts', since, now, cfg)
  {
    if cfg.maxRate > 0 {
      PruneAgrees(attempts, since, clock - cfg.window, now - cfg.window);
    }
  }

  /** Letting time pass and pruning any of the entries keeps the rates. */
  lemma PruneKeepsRates(m: Entries, m': Entries, g: Ledger, now: int, cfg: Limits)
    requires RatesAgree(m, g, cfg) && g.clock <= now
    requires cfg.maxRate > 0 ==> forall ip ::
               Attempts(m', ip) == Attempts(m, ip) || Attempts(m', ip) == Recent(Attempts(m, ip), now - cfg.window)
    ensures RatesAgree(m', g.At(now), cfg)
  {
    hide RateAgrees, Recent, Attempts, History;
    forall ip
      ensures RateAgrees(Attempts(m', ip), History(g.since, ip), now, cfg)
    {
      RateKept(Attempts(m, ip), Attempts(m', ip), History(g.since, ip), g.clock, now, cfg);
    }
  }

  lemma PruneOneKeepsInv(m: Entries, ip: string, activeTotal: nat, g: Ledger, now: int, cfg: Limits)
    requires Inv(m, activeTotal, g, cfg) && g.clock <= now
    ensures Inv(PruneOne(m, ip, now, cfg), activeTotal, g.At(now), cfg)
  {
    hide LeasesAgree, RatesAgree, Recent;
    var m' := PruneOne(m, ip, now, cfg);
    ShrinkKeepsLeases(m, m', activeTotal, g.open, cfg);
    PruneKeepsRates(m, m', g, now, cfg);
  }

  lemma PruneAllKeepsInv(m: Entries, activeTotal: nat, g: Ledger, now: int, cfg: Limits)
    requires Inv(m, activeTotal, g, cfg) && g.clock <= now
    ensures Inv(PruneAll(m, now, cfg), activeTotal, g.At(now), cfg)
  {
    hide LeasesAgree, RatesAgree, Recent;
    var m' := PruneAll(m, now, cfg);
    ShrinkKeepsLeases(m, m', activeTotal, g.open, cfg);
    PruneKeepsRates(m, m', g, now, cfg);
  }

  /** Once pruned at a time, an entry's attempts are all recent at that time. */
  predicate FreshAttempts(m: Entries, ip: string, now: int, cfg: Limits) {
    cfg.maxRate > 0 ==> Attempts(m, ip) == Recent(Attempts(m, ip), now - cfg.window)
  }

  lemma PruneOneIsFresh(m: Entries, ip: string, now: int, cfg: Limits)
    ensures FreshAttempts(PruneOne(m, ip, now, cfg), ip, now, cfg)
  {
    hide Recent;
    AbsentIsFresh(PruneOne(m, ip, now, cfg), ip, now, cfg);
    RecentTwice(Attempts(m, ip), now - cfg.window, now - cfg.window);
  }

  lemma AbsentIsFresh(m: Entries, ip: string, now: int, cfg: Limits)
    ensures ip !in m ==> FreshAttempts(m, ip, now, cfg)
  {
  }

  function Evicted(g: Ledger, ip: string): Ledger {
    g.(since := g.since[ip := []], evicted := g.evicted + {ip})
  }

  /** The address was seen longest ago among those without a connection. */
  ghost predicate OldestInactiveIn(m: Entries, ip: string) {
    && ip in m && m[ip].active == 0
    && (forall other | other in m && m[other].active == 0 :: m[ip].lastSeen <= m[other].lastSeen)
  }

  lemma NoHistoryNoRate(clock: int, cfg: Limits)
    ensures RateAgrees([], [], clock, cfg)
  {
  }

  /** Evicting an address without a connection loses no lease; its rate history starts over. */
  lemma EvictKeepsInv(m: Entries, ip: string, activeTotal: nat, g: Ledger, cfg: Limits)
    requires Inv(m, activeTotal, g, cfg) && ip in m && m[ip].active == 0
    ensures Inv(m - {ip}, activeTotal, Evicted(g, ip), cfg)
    ensures |m - {ip}| == |m| - 1
  {
    hide LeasesAgree, RateAgrees;
    var m' := m - {ip};
    assert m.Keys == m'.Keys + {ip};
    ShrinkKeepsLeases(m, m', activeTotal, g.open, cfg);
    NoHistoryNoRate(g.clock, cfg);
    forall other
      ensures RateAgrees(Attempts(m', other), History(Evicted(g, ip).since, other), g.clock, cfg)
    {
      assert RateAgrees(Attempts(m, other), History(g.since, other), g.clock, cfg);
    }
  }

  function Granted(g: Ledger, lease: Lease, now: int): Ledger {
    g.(open := g.open + {lease},
       admitted := g.admitted[lease.ip := History(g.admitted, lease.ip) + [now]],
       since := g.since[lease.ip := History(g.since, lease.ip) + [now]])
  }

  lemma GrantAdds(g: Ledger, lease: Lease, now: int)
    ensures Granted(g, lease, now).open == g.open + {lease} && Granted(g, lease, now).evicted == g.evicted
    ensures History(Granted(g, lease, now).admitted, lease.ip) == History(g.admitted, lease.ip) + [now]
  {
  }

  lemma GrantLeavesOthers(g: Ledger, lease: Lease, now: int)
    ensures forall other | other != lease.ip ::
              && LeasesOf(Granted(g, lease, now).open, other) == LeasesOf(g.open, other)
              && History(Granted(g, lease, now).admitted, other) == History(g.admitted, other)
  {
  }

  lemma GrantKeepsLeases(m: Entries, e: Entry, lease: Lease, activeTotal: nat, open: set<Lease>, cfg: Limits)
    requires LeasesAgree(m, activeTotal, open, cfg) && lease !in open
    requires e.active == (if lease.ip in m then m[lease.ip].active else 0) + 1
    requires cfg.maxActive > 0 ==> activeTotal < cfg.maxActive
    requires cfg.maxPerIP > 0 ==> e.active <= cfg.maxPerIP
    ensures LeasesAgree(m[lease.ip := e], activeTotal + 1, open + {lease}, cfg)
  {
    var m' := m[lease.ip := e];
    if lease.ip !in m {
      assert LeasesOf(open, lease.ip) == {};
    }
    assert (if lease.ip in m then m[lease.ip].active else 0) == |LeasesOf(open, lease.ip)|;
    forall other | other in m'
      ensures m'[other].active == |LeasesOf(open + {lease}, other)|
    {
      LeasesOfGrown(open, lease, other);
    }
    hide LeasesOf;
  }

  lemma LeasesOfGrown(open: set<Lease>, lease: Lease, ip: string)
    requires lease !in open
    ensures |LeasesOf(open + {lease}, ip)| == |LeasesOf(open, ip)| + (if ip == lease.ip then 1 else 0)
  {
    if ip == lease.ip {
      assert LeasesOf(open + {lease}, ip) == LeasesOf(open, ip) + {lease};
    } else {
      assert LeasesOf(open + {lease}, ip) == LeasesOf(open, ip);
    }
  }

  lemma RateCharged(attempts: seq<int>, since: seq<int>, clock: int, cfg: Limits)
    requires RateAgrees(attempts, since, clock, cfg)
    requires cfg.maxRate > 0 ==> |attempts| < cfg.maxRate && attempts == Recent(attempts, clock - cfg.window)
    ensures RateAgrees(if cfg.maxRate > 0 then attempts + [clock] else attempts, since + [clock], clock, cfg)
  {
    if cfg.maxRate > 0 {
      AppendAgrees(attempts, since, clock, clock - cfg.window);
      assert Recent(since, clock - cfg.window) == attempts;
      AdmissionKeepsRate(since, clock, cfg.window, cfg.maxRate);
    }
  }

  lemma GrantKeepsRates(m: Entries, e: Entry, lease: Lease, g: Ledger, cfg: Limits)
    requires RatesAgree(m, g, cfg) && e.attempts == Attempts(m, lease.ip)
    requires cfg.maxRate > 0 ==> |e.attempts| < cfg.maxRate && e.attempts == Recent(e.attempts, g.clock - cfg.window)
    ensures RatesAgree(m[lease.ip := Charged(e, g.clock, cfg)], Granted(g, lease, g.clock), cfg)
  {
    hide RateAgrees, Recent;
    RateCharged(e.attempts, History(g.since, lease.ip), g.clock, cfg);
    var m', g' := m[lease.ip := Charged(e, g.clock, cfg)], Granted(g, lease, g.clock);
    forall other
      ensures RateAgrees(Attempts(m', other), History(g'.since, other), g.clock, cfg)
    {
      assert RateAgrees(Attempts(m, other), History(g.since, other), g.clock, cfg);
    }
  }

  /** Admitting a connection under all four limits keeps them. */
  lemma GrantKeepsInv(m: Entries, e: Entry, lease: Lease, activeTotal: nat, g: Ledger, cfg: Limits)
    requires Inv(m, activeTotal, g, cfg) && lease !in g.open
    requires if lease.ip in m then e.active == m[lease.ip].active && e.attempts == m[lease.ip].attempts
             else e.active == 0 && e.attempts == [] && |m| < cfg.maxItems
    requires cfg.maxActive > 0 ==> activeTotal < cfg.maxActive
    requires cfg.maxPerIP > 0 ==> e.active < cfg.maxPerIP
    requires cfg.maxRate > 0 ==> |e.attempts| < cfg.maxRate
    requires FreshAttempts(m, lease.ip, g.clock, cfg)
    ensures Inv(m[lease.ip := Charged(e, g.clock, cfg)], activeTotal + 1, Granted(g, lease, g.clock), cfg)
  {
    hide LeasesAgree, RatesAgree, Recent;
    assert m[lease.ip := Charged(e, g.clock, cfg)].Keys == m.Keys + {lease.ip};
    GrantKeepsLeases(m, Charged(e, g.clock, cfg), lease, activeTotal, g.open, cfg);
    GrantKeepsRates(m, e, lease, g, cfg);
  }

  /** An address with an unreleased lease is tracked, and both counters are positive. */
  lemma LeaseIsCounted(m: Entries, lease: Lease, activeTotal: nat, g: Ledger, cfg: Limits)
    requires Inv(m, activeTotal, g, cfg) && lease in g.open
    ensures lease.ip in m && m[lease.ip].active > 0 && activeTotal > 0
  {
    assert lease in LeasesOf(g.open, lease.ip);
  }

  function Returned(m: Entries, ip: string, now: int, cfg: Limits): Entries
    requires ip in m && m[ip].active > 0
  {
    var e := Entry(m[ip].active - 1, Pruned(m[ip], now, cfg).attempts, now);
    if Idle(e) then m - {ip} else m[ip := e]
  }

  lemma ReturnKeepsLeases(m: Entries, m': Entries, lease: Lease, activeTotal: nat, open: set<Lease>, cfg: Limits)
    requires LeasesAgree(m, activeTotal, open, cfg) && lease in open
    requires lease.ip in m && m[lease.ip].active > 0
    requires m'.Keys == m.Keys || (m'.Keys == m.Keys - {lease.ip} && m[lease.ip].active == 1)
    requires forall ip | ip in m' :: m'[ip].active == if ip == lease.ip then m[ip].active - 1 else m[ip].active
    ensures activeTotal > 0 && LeasesAgree(m', activeTotal - 1, open - {lease}, cfg)
  {
    assert LeasesOf(open, lease.ip) == LeasesOf(open - {lease}, lease.ip) + {lease};
    forall other | other in m && other != lease.ip
      ensures LeasesOf(open - {lease}, other) == LeasesOf(open, other)
    {
    }
    if m'.Keys != m.Keys {
      forall l | l in open - {lease}
        ensures l.ip != lease.ip
      {
        NoLeaseNoActive(open - {lease}, lease.ip, l);
      }
    }
  }

  /** Giving a lease back keeps the invariant, whether or not the entry survives. */
  lemma ReturnKeepsInv(m: Entries, lease: Lease, activeTotal: nat, g: Ledger, now: int, cfg: Limits)
    requires Inv(m, activeTotal, g, cfg) && lease in g.open && g.clock <= now
    requires lease.ip in m && m[lease.ip].active > 0
    ensures activeTotal > 0
    ensures Inv(Returned(m, lease.ip, now, cfg), activeTotal - 1, g.(open := g.open - {lease}, clock := now), cfg)
  {
    hide LeasesAgree, RateAgrees, Recent;
    var m' := Returned(m, lease.ip, now, cfg);
    assert m'.Keys == m.Keys || m'.Keys == m.Keys - {lease.ip};
    SubmapSize(m', m);
    ReturnKeepsLeases(m, m', lease, activeTotal, g.open, cfg);
    PruneKeepsRates(m, m', g, now, cfg);
  }

  /** The rate law in the words of the option: an address that was never evicted for capacity has at most
      maxRate admissions in any half-open window, over its whole history. */
  lemma RateLaw(m: Entries, activeTotal: nat, g: Ledger, cfg: Limits, ip: string, t: int)
    requires Inv(m, activeTotal, g, cfg) && cfg.maxRate > 0 && ip !in g.evicted
    ensures CountIn(History(g.admitted, ip), t, cfg.window) <= cfg.maxRate
  {
    assert RateAgrees(Attempts(m, ip), History(g.since, ip), g.clock, cfg);
  }

  /** The decision of acquire, after the caller's own entry has been pruned. */
  function Decide(m: Entries, activeTotal: nat, ip: string, now: int, cfg: Limits): Reason {
    var own := PruneOne(m, ip, now, cfg);
    if cfg.maxActive > 0 && activeTotal >= cfg.maxActive then GlobalConcurrentConnections
    else if ip !in own then
      if |own| >= cfg.maxItems && |PruneAll(own, now, cfg)| >= cfg.maxItems
         && (forall k | k in PruneAll(own, now, cfg) :: PruneAll(own, now, cfg)[k].active > 0)
      then TrackedRemoteIPCapacity else Admitted
    else if cfg.maxPerIP > 0 && own[ip].active >= cfg.maxPerIP then PerIPConcurrentConnections
    else if cfg.maxRate > 0 && |own[ip].attempts| >= cfg.maxRate then PerIPNewConnectionRate
    else Admitted
  }

  /** The addresses that hold a connection. */
  ghost function Connected(open: set<Lease>): set<string> {
    set l | l in open :: l.ip
  }

  /** A new address meets a table full of connected addresses exactly when as many as the table holds are connected. */
  lemma FullOfConnected(m: Entries, activeTotal: nat, ip: string, now: int, g: Ledger, cfg: Limits)
    requires Inv(m, activeTotal, g, cfg)
    ensures var own := PruneOne(m, ip, now, cfg);
            (&& ip !in own && |own| >= cfg.maxItems && |PruneAll(own, now, cfg)| >= cfg.maxItems
             && forall k | k in PruneAll(own, now, cfg) :: PruneAll(own, now, cfg)[k].active > 0) <==>
            LeasesOf(g.open, ip) == {} && |Connected(g.open)| >= cfg.maxItems
  {
    hide RatesAgree, Recent;
    var own := PruneOne(m, ip, now, cfg);
    var all := PruneAll(own, now, cfg);
    var connected := Connected(g.open);
    assert connected <= m.Keys;
    SubsetSize(connected, m.Keys);
    assert |m.Keys| == |m| && |all.Keys| == |all| && |own.Keys| == |own|;
    assert all.Keys <= own.Keys <= m.Keys;
    SubsetSize(all.Keys, m.Keys);
    SubsetSize(own.Keys, m.Keys);
    forall k | k in m
      ensures m[k].active > 0 <==> k in connected
    {
      CountedIffConnected(m, activeTotal, k, g.open, cfg);
    }
    assert ip in connected <==> LeasesOf(g.open, ip) != {} by {
      hide PruneOne, PruneAll;
    }
    if |connected| >= cfg.maxItems {
      SameSize(connected, m.Keys);
      if ip !in connected {
        assert own == m;
        assert all.Keys == m.Keys;
      }
    }
    if ip !in own && |all| >= cfg.maxItems && forall k | k in all :: all[k].active > 0 {
      SameSize(all.Keys, m.Keys);
      assert all.Keys <= connected;
      SubsetSize(all.Keys, connected);
    }
  }

  lemma SameSize<T>(a: set<T>, b: set<T>)
    requires a <= b && |a| >= |b|
    ensures a == b
  {
    if x :| x in b && x !in a {
      SubsetSize(a, b - {x});
    }
  }

  lemma CountedIffConnected(m: Entries, activeTotal: nat, ip: string, open: set<Lease>, cfg: Limits)
    requires LeasesAgree(m, activeTotal, open, cfg) && ip in m
    ensures m[ip].active > 0 <==> ip in Connected(open)
  {
    if ip in Connected(open) {
      var l :| l in open && l.ip == ip;
      assert l in LeasesOf(open, ip);
    } else {
      assert LeasesOf(open, ip) == {};
    }
  }

  /** The first of the four limits that an address reaches, told by the leases held and the address's true admissions
      since its last eviction. */
  ghost predicate FirstLimitReached(reason: Reason, g: Ledger, ip: string, now: int, cfg: Limits) {
    if cfg.maxActive > 0 && |g.open| >= cfg.maxActive then reason == GlobalConcurrentConnections
    else if LeasesOf(g.open, ip) == {} && |Connected(g.open)| >= cfg.maxItems then reason == TrackedRemoteIPCapacity
    else if cfg.maxPerIP > 0 && |LeasesOf(g.open, ip)| >= cfg.maxPerIP then reason == PerIPConcurrentConnections
    else if cfg.maxRate > 0 && |Recent(History(g.since, ip), now - cfg.window)| >= cfg.maxRate then
      reason == PerIPNewConnectionRate
    else reason == Admitted
  }

  /** The decision is made in these terms, although only counters and a pruned list are kept. */
  lemma DecisionIsTrue(m: Entries, activeTotal: nat, ip: string, now: int, g: Ledger, cfg: Limits)
    requires Inv(m, activeTotal, g, cfg) && g.clock <= now
    ensures FirstLimitReached(Decide(m, activeTotal, ip, now, cfg), g, ip, now, cfg)
  {
    hide Recent, AgreeFrom, PruneAll, History, RateBounded;
    FullOfConnected(m, activeTotal, ip, now, g, cfg);
    assert RateAgrees(Attempts(m, ip), History(g.since, ip), g.clock, cfg);
    if cfg.maxRate > 0 {
      PruneAgrees(Attempts(m, ip), History(g.since, ip), g.clock - cfg.window, now - cfg.window);
    }
    assert Recent([], now - cfg.window) == [];
    if ip !in m {
      assert LeasesOf(g.open, ip) == {};
    }
  }

  lemma RecentAttemptsAreTrue(m: Entries, activeTotal: nat, ip: string, now: int, g: Ledger, cfg: Limits)
    requires Inv(m, activeTotal, g, cfg) && g.clock <= now && cfg.maxRate > 0 && ip !in g.evicted
    ensures Recent(Attempts(m, ip), now - cfg.window) == Recent(History(g.admitted, ip), now - cfg.window)
  {
    hide Recent, AgreeFrom, LeasesAgree, RateBounded, History, Attempts;
    assert RateAgrees(Attempts(m, ip), History(g.since, ip), g.clock, cfg);
    PruneAgrees(Attempts(m, ip), History(g.since, ip), g.clock - cfg.window, now - cfg.window);
  }

  lemma RateDecides(m: Entries, activeTotal: nat, ip: string, now: int, cfg: Limits)
    requires cfg.maxRate > 0 && (cfg.maxActive > 0 ==> activeTotal < cfg.maxActive)
    requires cfg.maxPerIP > 0 && ip in m ==> m[ip].active < cfg.maxPerIP
    ensures (Decide(m, activeTotal, ip, now, cfg) == PerIPNewConnectionRate) <==>
            |Recent(Attempts(m, ip), now - cfg.window)| >= cfg.maxRate
  {
    assert Recent([], now - cfg.window) == [];
    hide PruneAll, Recent;
  }

  /** A known address is turned away for its rate exactly when its true recent admissions fill the window. */
  lemma RateDecisionIsExact(m: Entries, activeTotal: nat, ip: string, now: int, g: Ledger, cfg: Limits)
    requires Inv(m, activeTotal, g, cfg) && g.clock <= now && cfg.maxRate > 0 && ip !in g.evicted
    requires cfg.maxActive > 0 ==> activeTotal < cfg.maxActive
    requires cfg.maxPerIP > 0 ==> |LeasesOf(g.open, ip)| < cfg.maxPerIP
    ensures (Decide(m, activeTotal, ip, now, cfg) == PerIPNewConnectionRate) <==>
            |Recent(History(g.admitted, ip), now - cfg.window)| >= cfg.maxRate
  {
    hide Decide, Recent, RatesAgree, History, Attempts;
    RecentAttemptsAreTrue(m, activeTotal, ip, now, g, cfg);
    RateDecides(m, activeTotal, ip, now, cfg);
  }
}
