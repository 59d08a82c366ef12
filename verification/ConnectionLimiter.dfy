// The connection limiter: each method is one section under its mutex.
module ConnectionLimiter {
  import opened Collections
  import opened Timestamps
  import opened LimiterModel

  const SECOND := 1_000_000_000

  class LimitState {
    var active: nat
    var attempts: seq<int>
    var lastSeen: int

    constructor (now: int)
      ensures Value() == Entry(0, [], now)
    {
      active, attempts, lastSeen := 0, [], now;
    }

    function Value(): Entry
      reads this
    {
      Entry(active, attempts, lastSeen)
    }
  }

  ghost predicate Distinct(items: map<string, LimitState>) {
    forall a, b | a in items && b in items && a != b :: items[a] != items[b]
  }

  ghost function ViewOf(items: map<string, LimitState>): Entries
    reads items.Values
  {
    map ip | ip in items :: items[ip].Value()
  }

  lemma InvSize(m: Entries, activeTotal: nat, g: Ledger, cfg: Limits)
    requires Inv(m, activeTotal, g, cfg)
    ensures |m| <= cfg.maxItems && cfg.maxItems > 0
  {
  }

  lemma PruneAbsent(m: Entries, ip: string, now: int, cfg: Limits)
    ensures ip !in m ==> PruneOne(m, ip, now, cfg) == m
  {
  }

  lemma ViewKeys(items: map<string, LimitState>)
    ensures ViewOf(items).Keys == items.Keys && |ViewOf(items)| == |items|
  {
    assert ViewOf(items).Keys == items.Keys;
    assert |ViewOf(items)| == |ViewOf(items).Keys| && |items| == |items.Keys|;
  }

  lemma ViewWithout(items: map<string, LimitState>, ip: string)
    ensures ViewOf(items - {ip}) == ViewOf(items) - {ip}
    ensures Distinct(items) ==> Distinct(items - {ip})
    ensures ip in items ==> |items - {ip}| == |items| - 1
  {
    assert ip in items ==> items.Keys == (items - {ip}).Keys + {ip};
  }

  lemma TouchKeepsInv(m: Entries, ip: string, activeTotal: nat, g: Ledger, now: int, cfg: Limits)
    requires Inv(m, activeTotal, g, cfg) && ip in m
    ensures Inv(Touched(m, ip, now), activeTotal, g, cfg)
  {
    hide LeasesAgree, RateAgrees;
    var m' := m[ip := m[ip].(lastSeen := now)];
    assert m'.Keys == m.Keys;
    ShrinkKeepsLeases(m, m', activeTotal, g.open, cfg);
    forall other
      ensures Attempts(m', other) == Attempts(m, other)
    {
    }
  }

  function Touched(m: Entries, ip: string, now: int): Entries
    requires ip in m
  {
    m[ip := m[ip].(lastSeen := now)]
  }

  /** A new address comes to a table that is full even after pruning. */
  predicate Evicts(own: Entries, ip: string, now: int, cfg: Limits) {
    ip !in own && |own| >= cfg.maxItems && |PruneAll(own, now, cfg)| >= cfg.maxItems
  }

  /** A new address comes to a table full of addresses with connections. */
  ghost predicate Full(own: Entries, ip: string, now: int, cfg: Limits) {
    Evicts(own, ip, now, cfg) && forall k | k in PruneAll(own, now, cfg) :: PruneAll(own, now, cfg)[k].active > 0
  }

  /** The entries among which an admitted address finds or gets its place. */
  function RoomFor(own: Entries, ip: string, victim: string, now: int, cfg: Limits): Entries {
    if ip in own || |own| < cfg.maxItems then own
    else if |PruneAll(own, now, cfg)| < cfg.maxItems then PruneAll(own, now, cfg)
    else PruneAll(own, now, cfg) - {victim}
  }

  /** What a request leaves of the entries, whatever the answer. */
  ghost predicate Charges(m: Entries, m': Entries, reason: Reason, ip: string, victim: string, now: int, cfg: Limits) {
    var own := PruneOne(m, ip, now, cfg);
    var room := RoomFor(own, ip, victim, now, cfg);
    && (reason == Admitted && Evicts(own, ip, now, cfg) ==> OldestInactiveIn(PruneAll(own, now, cfg), victim))
    && match reason
       case Admitted => m' == room[ip := Charged(Found(room, ip), now, cfg)]
       case GlobalConcurrentConnections => m' == own
       case TrackedRemoteIPCapacity => m' == PruneAll(own, now, cfg)
       case _ => ip in own && m' == Touched(own, ip, now)
  }

  /** The addresses that hold a connection or, if the rate is limited, were admitted within the window. */
  ghost function Live(m: Entries, now: int, cfg: Limits): set<string> {
    set k | k in m && (m[k].active > 0 || (cfg.maxRate > 0 && Recent(m[k].attempts, now - cfg.window) != []))
  }

  lemma PruningKeepsLive(m: Entries, ip: string, now: int, cfg: Limits)
    ensures PruneAll(PruneOne(m, ip, now, cfg), now, cfg).Keys == Live(m, now, cfg)
    ensures ip in PruneOne(m, ip, now, cfg) <==> ip in Live(m, now, cfg)
    ensures Live(m, now, cfg) <= PruneOne(m, ip, now, cfg).Keys <= m.Keys
    ensures forall k | k in Live(m, now, cfg) ::
              PruneAll(PruneOne(m, ip, now, cfg), now, cfg)[k] == Pruned(m[k], now, cfg)
  {
    hide Recent;
    if ip in m {
      RecentTwice(m[ip].attempts, now - cfg.window, now - cfg.window);
    }
  }

  /** One address makes room for a new one exactly if every place is taken by a live one. */
  lemma EvictsIffCrowded(m: Entries, ip: string, now: int, cfg: Limits)
    requires |m| <= cfg.maxItems
    ensures Evicts(PruneOne(m, ip, now, cfg), ip, now, cfg) <==>
            ip !in Live(m, now, cfg) && |Live(m, now, cfg)| >= cfg.maxItems
  {
    PruningKeepsLive(m, ip, now, cfg);
    hide PruneOne, PruneAll, Live;
    var own := PruneOne(m, ip, now, cfg);
    assert |own.Keys| == |own| && |PruneAll(own, now, cfg).Keys| == |PruneAll(own, now, cfg)|;
    SubsetSize(Live(m, now, cfg), own.Keys);
  }

  /** What a request means for the entries: its own address is charged if it is admitted and only seen if it is
      refused; and no other live address loses anything but an old admission, save the one evicted. */
  lemma ChargesMean(m: Entries, m': Entries, reason: Reason, ip: string, victim: string, now: int, cfg: Limits, k: string)
    requires Charges(m, m', reason, ip, victim, now, cfg) && |m| <= cfg.maxItems
    ensures var live := Live(m, now, cfg);
            var evicts := reason == Admitted && ip !in live && |live| >= cfg.maxItems;
            && (evicts ==> victim in live && m[victim].active == 0)
            && (k in live && k != ip && !(evicts && k == victim) ==>
                  && k in m' && m'[k].active == m[k].active && m'[k].lastSeen == m[k].lastSeen
                  && (m'[k].attempts == m[k].attempts || m'[k] == Pruned(m[k], now, cfg)))
            && (evicts && k == victim && k != ip ==> k !in m')
            && (k in m' ==> k in m || (k == ip && reason == Admitted))
            && (reason == Admitted ==>
                  && ip in m' && m'[ip].active == 1 + (if ip in live then m[ip].active else 0) && m'[ip].lastSeen == now
                  && m'[ip].attempts ==
                       if cfg.maxRate > 0 then (if ip in live then Recent(m[ip].attempts, now - cfg.window) else []) + [now]
                       else [])
            && (reason == PerIPConcurrentConnections || reason == PerIPNewConnectionRate ==>
                  ip in live && ip in m' && m'[ip] == Pruned(m[ip], now, cfg).(lastSeen := now))
  {
    hide Recent;
    PruningKeepsLive(m, ip, now, cfg);
    EvictsIffCrowded(m, ip, now, cfg);
  }

  lemma FullIsFull(m: Entries, ip: string, now: int, cfg: Limits)
    ensures Evicts(PruneOne(m, ip, now, cfg), ip, now, cfg) ==> |m| >= cfg.maxItems
  {
    var own := PruneOne(m, ip, now, cfg);
    assert own.Keys <= m.Keys && |own.Keys| == |own| && |m.Keys| == |m|;
    SubmapSize(own, m);
  }

  function Found(m: Entries, ip: string): Entry {
    if ip in m then m[ip] else Entry(0, [], 0)
  }

  class Limiter {
    const cfg: Limits
    var activeTotal: nat
    var items: map<string, LimitState>
    var evictedIPs: nat
    var capacityRejected: nat
    ghost var ledger: Ledger

    ghost function View(): Entries
      reads `items, items.Values
    {
      ViewOf(items)
    }

    ghost predicate Valid()
      reads `items, `activeTotal, `ledger, items.Values
    {
      Distinct(items) && "" !in items && Inv(View(), activeTotal, ledger, cfg)
    }

    constructor (maxActive: int, maxPerIP: int, maxRate: int, windowSec: int, maxItems: int, now: int)
      ensures Valid() && View() == map[] && activeTotal == 0
      ensures ledger == Ledger({}, map[], map[], {}, now)
      ensures cfg == Limits(maxActive, maxPerIP, maxRate, if windowSec <= 0 then SECOND else windowSec * SECOND,
                            if maxItems <= 0 then 8192 else maxItems)
    {
      cfg := Limits(maxActive, maxPerIP, maxRate, if windowSec <= 0 then SECOND else windowSec * SECOND,
                    if maxItems <= 0 then 8192 else maxItems);
      activeTotal, items, evictedIPs, capacityRejected := 0, map[], 0, 0;
      ledger := Ledger({}, map[], map[], {}, now);
    }

    method PruneLocked(st: LimitState, now: int)
      modifies st`attempts
      ensures st.Value() == Pruned(old(st.Value()), now, cfg)
    {
      if cfg.maxRate <= 0 || |st.attempts| == 0 {
        st.attempts := [];
        return;
      }
      st.attempts := KeepRecent(st.attempts, now - cfg.window);
    }

    method CleanupLocked(ip: string, st: LimitState)
      modifies `items
      ensures items == if Idle(st.Value()) then old(items) - {ip} else old(items)
    {
      if st.active == 0 && |st.attempts| == 0 {
        items := items - {ip};
      }
    }

    method PruneEntry(ip: string, st: LimitState, now: int)
      requires Distinct(items) && ip in items && items[ip] == st
      modifies `items, st`attempts
      ensures View() == PruneOne(old(View()), ip, now, cfg)
      ensures items == old(items) || items == old(items) - {ip}
    {
      PruneLocked(st, now);
      CleanupLocked(ip, st);
    }

    method CleanupAllLocked(now: int)
      requires Distinct(items)
      modifies `items, set ip | ip in items :: items[ip]
      ensures View() == PruneAll(old(View()), now, cfg)
      ensures Distinct(items) && forall ip | ip in items :: ip in old(items) && items[ip] == old(items)[ip]
    {
      hide LimiterModel.Swept, PruneOne, PruneAll;
      ghost var before, was := items, View();
      SweepBounds(was, now, cfg);
      ViewKeys(items);
      var todo := items.Keys;
      while todo != {}
        invariant todo <= was.Keys && Distinct(items)
        invariant forall ip | ip in items :: ip in before && items[ip] == before[ip]
        invariant View() == LimiterModel.Swept(was, todo, now, cfg)
      {
        var ip :| ip in todo;
        SweepStep(was, todo, ip, now, cfg);
        assert ip in View();
        todo := todo - {ip};
        PruneEntry(ip, items[ip], now);
      }
    }

    /** Frees a slot if the table is full: first by pruning, then by evicting an address. */
    method MakeRoomLocked(now: int) returns (ok: bool, ghost victim: string)
      requires Valid() && ledger.clock == now
      modifies `items, `evictedIPs, `capacityRejected, `ledger, items.Values
      ensures Valid() && ledger.clock == now && ledger.open == old(ledger).open && ledger.admitted == old(ledger).admitted
      ensures forall ip | ip in items :: ip in old(items) && items[ip] == old(items)[ip]
      ensures ok <==> |items| < cfg.maxItems
      ensures var m := if |old(View())| >= cfg.maxItems then PruneAll(old(View()), now, cfg) else old(View());
              if |m| < cfg.maxItems then View() == m && ledger == old(ledger)
              else if ok then OldestInactiveIn(m, victim) && View() == m - {victim} && ledger == Evicted(old(ledger), victim)
              else (forall ip | ip in m :: m[ip].active > 0) && View() == m && ledger == old(ledger)
    {
      hide Inv, PruneAll, OldestInactiveIn, ViewOf, Distinct;
      victim := "";
      ViewKeys(items);
      InvSize(View(), activeTotal, ledger, cfg);
      if |items| >= cfg.maxItems {
        PruneAllKeepsInv(View(), activeTotal, ledger, now, cfg);
        CleanupAllLocked(now);
        ViewKeys(items);
      }
      ok := true;
      if |items| >= cfg.maxItems {
        InvSize(View(), activeTotal, ledger, cfg);
        var oldestIP := OldestInactive();
        victim := oldestIP;
        if oldestIP == "" {
          capacityRejected := capacityRejected + 1;
          return false, victim;
        }
        EvictLocked(oldestIP);
      }
    }

    method EvictLocked(ip: string)
      requires Valid() && OldestInactiveIn(View(), ip)
      modifies `items, `evictedIPs, `ledger
      ensures Valid() && ledger == Evicted(old(ledger), ip)
      ensures View() == old(View()) - {ip}
      ensures items == old(items) - {ip} && |items| == |old(items)| - 1
      ensures evictedIPs == old(evictedIPs) + 1
    {
      hide Inv, Distinct, ViewOf;
      EvictKeepsInv(View(), ip, activeTotal, ledger, cfg);
      ViewWithout(items, ip);
      ViewKeys(items);
      items := items - {ip};
      ledger := Evicted(ledger, ip);
      evictedIPs := evictedIPs + 1;
    }

    /** The address seen longest ago among those without a connection, or "" if each has one. */
    method OldestInactive() returns (oldestIP: string)
      requires "" !in items
      ensures oldestIP == "" ==> forall ip | ip in View() :: View()[ip].active > 0
      ensures oldestIP != "" ==> OldestInactiveIn(View(), oldestIP)
    {
      oldestIP := "";
      var oldest := 0;
      var todo := items.Keys;
      while todo != {}
        invariant todo <= items.Keys
        invariant oldestIP == "" ==> forall ip | ip in items && ip !in todo :: items[ip].active > 0
        invariant oldestIP != "" ==> oldestIP in items && items[oldestIP].active == 0 && oldest == items[oldestIP].lastSeen
        invariant oldestIP != "" ==>
                    forall ip | ip in items && ip !in todo && items[ip].active == 0 :: oldest <= items[ip].lastSeen
      {
        var candidate :| candidate in todo;
        todo := todo - {candidate};
        var state := items[candidate];
        if state.active == 0 && (oldestIP == "" || state.lastSeen < oldest) {
          oldestIP, oldest := candidate, state.lastSeen;
        }
      }
    }

    /** Prunes the caller's own entry, whatever the decision will be. */
    method PruneOwn(ip: string, now: int)
      requires Valid() && ledger.clock <= now
      modifies `items, `ledger, items.Values
      ensures Valid() && ledger == old(ledger).At(now)
      ensures View() == PruneOne(old(View()), ip, now, cfg)
      ensures forall k | k in items :: k in old(items) && items[k] == old(items)[k]
      ensures ip in items <==> ip in View()
      ensures FreshAttempts(View(), ip, now, cfg)
    {
      hide Inv, ViewOf, PruneOne, FreshAttempts;
      PruneOneKeepsInv(View(), ip, activeTotal, ledger, now, cfg);
      PruneOneIsFresh(View(), ip, now, cfg);
      ViewKeys(items);
      PruneAbsent(View(), ip, now, cfg);
      if ip in items {
        PruneEntry(ip, items[ip], now);
      }
      ViewKeys(items);
      ledger := ledger.At(now);
    }

    /** Decides on a request for one more connection; a lease is handed out exactly when it is admitted, and an
        address is evicted exactly when a full table has no other room for a new one. Every address is decided on and
        charged by itself; only the empty one goes by another name. */
    method Acquire(remoteIP: string, now: int) returns (lease: Lease?, reason: Reason, ghost victim: string)
      requires Valid() && ledger.clock <= now
      modifies this, items.Values
      ensures Valid()
      ensures var ip := if remoteIP == "" then "unknown" else remoteIP;
              && FirstLimitReached(reason, old(ledger), ip, now, cfg)
              && (lease != null <==> reason == Admitted)
              && (lease != null ==> fresh(lease) && lease.ip == ip && !lease.released)
              && activeTotal == old(activeTotal) + (if lease != null then 1 else 0)
              && Charges(old(View()), View(), reason, ip, victim, now, cfg)
      ensures ledger.open == old(ledger).open + (if lease != null then {lease} else {})
      ensures lease != null ==> History(ledger.admitted, lease.ip) == History(old(ledger).admitted, lease.ip) + [now]
      ensures forall other | other != remoteIP && (remoteIP == "" ==> other != "unknown") ::
                && LeasesOf(ledger.open, other) == LeasesOf(old(ledger).open, other)
                && History(ledger.admitted, other) == History(old(ledger).admitted, other)
      ensures ledger.evicted == old(ledger).evicted ||
              (ledger.evicted == old(ledger).evicted + {victim} && |old(View())| >= cfg.maxItems && lease != null)
    {
      hide Inv, Distinct, ViewOf, PruneOne, PruneAll, Granted, Charged, OldestInactiveIn, LeasesOf, History, Decide;
      var ip := if remoteIP == "" then "unknown" else remoteIP;
      ghost var before := ledger;
      ViewKeys(items);
      FullIsFull(View(), ip, now, cfg);
      DecisionIsTrue(View(), activeTotal, ip, now, ledger, cfg);
      hide FirstLimitReached, Charges;
      lease, reason, victim := AcquireFor(ip, now);
      if lease != null {
        ghost var g := before.At(now);
        GrantLeavesOthers(g, lease, now);
        GrantLeavesOthers(Evicted(g, victim), lease, now);
        GrantAdds(g, lease, now);
        GrantAdds(Evicted(g, victim), lease, now);
      }
    }

    method AcquireFor(ip: string, now: int) returns (lease: Lease?, reason: Reason, ghost victim: string)
      requires Valid() && ledger.clock <= now && ip != ""
      modifies this, items.Values
      ensures Valid()
      ensures reason == Decide(old(View()), old(activeTotal), ip, now, cfg)
      ensures lease != null <==> reason == Admitted
      ensures lease != null ==> fresh(lease) && lease.ip == ip && !lease.released
      ensures activeTotal == old(activeTotal) + if lease != null then 1 else 0
      ensures Charges(old(View()), View(), reason, ip, victim, now, cfg)
      ensures var g := old(ledger).At(now);
              var evicts := lease != null && Evicts(PruneOne(old(View()), ip, now, cfg), ip, now, cfg);
              ledger == if lease == null then g else Granted(if evicts then Evicted(g, victim) else g, lease, now)
    {
      hide Inv, Distinct, ViewOf, PruneOne, PruneAll, FreshAttempts, Granted, Charged, OldestInactiveIn;
      lease, victim := null, "";
      PruneOwn(ip, now);
      if cfg.maxActive > 0 && activeTotal >= cfg.maxActive {
        return null, GlobalConcurrentConnections, victim;
      }
      var ok;
      ok, victim := FindRoom(ip, now);
      if !ok {
        return null, TrackedRemoteIPCapacity, victim;
      }
      lease, reason := AdmitTracked(ip, now);
    }

    /** A place in the table for the address: its own, or a new one. */
    method FindRoom(ip: string, now: int) returns (ok: bool, ghost victim: string)
      requires Valid() && ledger.clock == now && FreshAttempts(View(), ip, now, cfg)
      modifies `items, `evictedIPs, `capacityRejected, `ledger, items.Values
      ensures Valid() && FreshAttempts(View(), ip, now, cfg)
      ensures ok <==> ip in items || |items| < cfg.maxItems
      ensures ip in old(View()) ==> ok
      ensures !ok ==> Full(old(View()), ip, now, cfg) && View() == PruneAll(old(View()), now, cfg) && ledger == old(ledger)
      ensures ok ==> !Full(old(View()), ip, now, cfg) && View() == RoomFor(old(View()), ip, victim, now, cfg)
      ensures ok && Evicts(old(View()), ip, now, cfg) ==>
                OldestInactiveIn(PruneAll(old(View()), now, cfg), victim) && ledger == Evicted(old(ledger), victim)
      ensures !Evicts(old(View()), ip, now, cfg) ==> ledger == old(ledger)
      ensures forall k | k in items :: k in old(items) && items[k] == old(items)[k]
      ensures ip in View() <==> ip in items
      ensures ip in View() ==> ip in old(View()) && View() == old(View())
    {
      hide Inv, Distinct, ViewOf, PruneAll, FreshAttempts;
      ok, victim := true, "";
      ghost var own := View();
      ViewKeys(items);
      if ip !in items {
        ok, victim := MakeRoomLocked(now);
        ViewKeys(items);
        AbsentIsFresh(View(), ip, now, cfg);
      }
    }

    /** The second half of acquire: the per-address limits, and the charge. */
    method AdmitTracked(ip: string, now: int) returns (lease: Lease?, reason: Reason)
      requires Valid() && ledger.clock == now && ip != ""
      requires ip in items || |items| < cfg.maxItems
      requires cfg.maxActive > 0 ==> activeTotal < cfg.maxActive
      requires FreshAttempts(View(), ip, now, cfg)
      modifies `items, `activeTotal, `ledger, items.Values
      ensures Valid() && ledger.clock == now
      ensures reason == if ip !in old(items) then Admitted
                        else if cfg.maxPerIP > 0 && old(View()[ip]).active >= cfg.maxPerIP then PerIPConcurrentConnections
                        else if cfg.maxRate > 0 && |old(View()[ip]).attempts| >= cfg.maxRate then PerIPNewConnectionRate
                        else Admitted
      ensures lease != null <==> reason == Admitted
      ensures lease != null ==> fresh(lease) && lease.ip == ip && !lease.released
      ensures lease != null ==> ledger == Granted(old(ledger), lease, now) && activeTotal == old(activeTotal) + 1
      ensures lease != null ==> View() == old(View())[ip := Charged(Found(old(View()), ip), now, cfg)]
      ensures lease == null ==> ledger == old(ledger) && activeTotal == old(activeTotal)
      ensures lease == null ==> ip in old(View()) && View() == Touched(old(View()), ip, now)
    {
      hide Inv, FreshAttempts, Distinct, ViewOf;
      ghost var base := View();
      ViewKeys(items);
      var st := FindOrTrack(ip, now);
      if cfg.maxPerIP > 0 && st.active >= cfg.maxPerIP {
        CleanupLocked(ip, st);
        TouchKeepsInv(base, ip, activeTotal, ledger, now, cfg);
        return null, PerIPConcurrentConnections;
      }
      if cfg.maxRate > 0 && |st.attempts| >= cfg.maxRate {
        CleanupLocked(ip, st);
        TouchKeepsInv(base, ip, activeTotal, ledger, now, cfg);
        return null, PerIPNewConnectionRate;
      }
      lease := Charge(ip, st, now, base);
      reason := Admitted;
    }

    method FindOrTrack(ip: string, now: int) returns (st: LimitState)
      requires Distinct(items) && "" !in items && ip != ""
      modifies `items, items.Values
      ensures Distinct(items) && "" !in items && ip in items && items[ip] == st
      ensures st in old(items.Values) || fresh(st)
      ensures st.Value() == Found(old(View()), ip).(lastSeen := now)
      ensures View() == old(View())[ip := st.Value()]
    {
      if ip in items {
        st := items[ip];
      } else {
        st := new LimitState(now);
        items := items[ip := st];
      }
      st.lastSeen := now;
    }

    method Charge(ip: string, st: LimitState, now: int, ghost base: Entries) returns (lease: Lease)
      requires Distinct(items) && "" !in items && ip in items && items[ip] == st
      requires st.Value() == Found(base, ip).(lastSeen := now) && View() == base[ip := st.Value()]
      requires Inv(base, activeTotal, ledger, cfg) && ledger.clock == now
      requires ip in base || |base| < cfg.maxItems
      requires cfg.maxActive > 0 ==> activeTotal < cfg.maxActive
      requires cfg.maxPerIP > 0 ==> st.active < cfg.maxPerIP
      requires cfg.maxRate > 0 ==> |st.attempts| < cfg.maxRate
      requires FreshAttempts(base, ip, now, cfg)
      modifies `activeTotal, `ledger, st`active, st`attempts
      ensures Valid()
      ensures fresh(lease) && lease.ip == ip && !lease.released
      ensures ledger == Granted(old(ledger), lease, now) && activeTotal == old(activeTotal) + 1
      ensures View() == base[ip := Charged(Found(base, ip), now, cfg)]
    {
      hide Inv, FreshAttempts, ViewOf, Distinct;
      ghost var e := Found(base, ip);
      activeTotal := activeTotal + 1;
      ChargeEntry(ip, st, now);
      lease := new Lease(ip);
      assert View() == base[ip := Charged(e, now, cfg)];
      GrantKeepsInv(base, e, lease, activeTotal - 1, ledger, cfg);
      ledger := Granted(ledger, lease, now);
    }

    method ChargeEntry(ip: string, st: LimitState, now: int)
      requires Distinct(items) && ip in items && items[ip] == st
      modifies st`active, st`attempts
      ensures View() == old(View())[ip := Charged(old(st.Value()), now, cfg).(lastSeen := st.lastSeen)]
      ensures st.Value() == Charged(old(st.Value()), now, cfg).(lastSeen := st.lastSeen)
    {
      st.active := st.active + 1;
      if cfg.maxRate > 0 {
        st.attempts := st.attempts + [now];
      }
    }

    /** The release a lease's once-guard lets through. */
    method Release(ip: string, ghost lease: Lease, now: int)
      requires Valid() && ledger.clock <= now && lease in ledger.open && lease.ip == ip
      modifies `items, `activeTotal, `ledger, items.Values
      ensures Valid()
      ensures ledger == old(ledger).(open := old(ledger).open - {lease}, clock := now)
      ensures activeTotal == old(activeTotal) - 1
      ensures ip in old(View()) && old(View())[ip].active > 0 && View() == Returned(old(View()), ip, now, cfg)
    {
      hide Inv, ViewOf, Distinct, Returned;
      LeaseIsCounted(View(), lease, activeTotal, ledger, cfg);
      ReturnKeepsInv(View(), lease, activeTotal, ledger, now, cfg);
      ViewKeys(items);
      if ip !in items {
        return;
      }
      ReleaseEntry(ip, items[ip], now);
      if activeTotal > 0 {
        activeTotal := activeTotal - 1;
      }
      ledger := ledger.(open := ledger.open - {lease}, clock := now);
    }

    method ReleaseEntry(ip: string, st: LimitState, now: int)
      requires Distinct(items) && "" !in items && ip in items && items[ip] == st
      requires ip in View() && View()[ip].active > 0
      modifies `items, st
      ensures Distinct(items) && "" !in items && View() == Returned(old(View()), ip, now, cfg)
    {
      DischargeEntry(ip, st, now);
      assert View()[ip] == st.Value();
      CleanupLocked(ip, st);
    }

    method DischargeEntry(ip: string, st: LimitState, now: int)
      requires Distinct(items) && ip in items && items[ip] == st && st.active > 0
      modifies st
      ensures View() == old(View())[ip := Entry(old(st.active) - 1, Pruned(old(st.Value()), now, cfg).attempts, now)]
    {
      if st.active > 0 {
        st.active := st.active - 1;
      }
      PruneLocked(st, now);
      st.lastSeen := now;
    }

    /** The closure acquire returns: only its first call reaches the limiter. */
    method ReleaseOnce(lease: Lease, now: int)
      requires Valid() && ledger.clock <= now && (lease in ledger.open <==> !lease.released)
      modifies `items, `activeTotal, `ledger, items.Values, lease`released
      ensures Valid() && lease.released && lease !in ledger.open
      ensures old(lease.released) ==> ledger == old(ledger) && activeTotal == old(activeTotal) && View() == old(View())
      ensures !old(lease.released) ==>
                && ledger == old(ledger).(open := old(ledger).open - {lease}, clock := now)
                && activeTotal == old(activeTotal) - 1
                && lease.ip in old(View()) && old(View())[lease.ip].active > 0
                && View() == Returned(old(View()), lease.ip, now, cfg)
    {
      if !lease.released {
        lease.released := true;
        Release(lease.ip, lease, now);
      }
    }

    /** The periodic cleanup. */
    method Cleanup(now: int)
      requires Valid() && ledger.clock <= now
      modifies `items, `ledger, items.Values
      ensures Valid() && ledger == old(ledger).At(now) && View() == PruneAll(old(View()), now, cfg)
    {
      hide Inv;
      PruneAllKeepsInv(View(), activeTotal, ledger, now, cfg);
      CleanupAllLocked(now);
      ledger := ledger.At(now);
    }
  }
}
