// The failure tracker as a function of its entries, and the invariant that ties them to what was
// promised: every failure that still counts, and every temporary block that has not run out.
module FailModel {
  import opened Collections
  import opened Timestamps

  datatype Limits = Limits(window: int, limit: int, blockFor: int, maxItems: int)
  datatype Deadline = Unset | Until(time: int) {
    predicate After(now: int) { Until? && time > now }
  }
  datatype Entry = Entry(auth: seq<int>, protocol: seq<int>, blockedUntil: Deadline, lastSeen: int)
  type Entries = map<string, Entry>

  /** failures: the authentication failures of an address since its entry was last reset by a block, an attempt to
      promote it, an unblock or an eviction; protocols: its protocol failures since a success of it was last recorded
      or its entry was last reset by an attempt to promote it, an unblock or an eviction; promised: the deadline of
      its last temporary block that was not lifted since; synced: the last write of the state file succeeded;
      loaded: how many blocks the start read from it. */
  datatype Ledger = Ledger(failures: map<string, seq<int>>, protocols: map<string, seq<int>>,
                           promised: map<string, int>, clock: int, synced: bool, loaded: nat) {
    function At(now: int): Ledger { this.(clock := now) }
  }

  /** The table is never larger than configured, or than what the start has put there. */
  function Bound(g: Ledger, cfg: Limits): int {
    if g.loaded > cfg.maxItems then g.loaded else cfg.maxItems
  }

  function Auth(m: Entries, key: string): seq<int> {
    if key in m then m[key].auth else []
  }

  function Protocol(m: Entries, key: string): seq<int> {
    if key in m then m[key].protocol else []
  }

  function Cleaned(e: Entry, now: int, cfg: Limits): Entry {
    e.(auth := Recent(e.auth, now - cfg.window), protocol := Recent(e.protocol, now - cfg.window),
       blockedUntil := if e.blockedUntil.After(now) then e.blockedUntil else Unset)
  }

  predicate Dead(e: Entry) {
    e.blockedUntil == Unset && e.auth == [] && e.protocol == []
  }

  function CleanAll(m: Entries, now: int, cfg: Limits): Entries {
    map key | key in m && !Dead(Cleaned(m[key], now, cfg)) :: Cleaned(m[key], now, cfg)
  }

  /** What a cleanup leaves: the addresses with a running block or a failure within the window, with just these. */
  lemma CleanAllMeans(m: Entries, now: int, cfg: Limits, key: string)
    ensures var clean := CleanAll(m, now, cfg);
            && (key in clean <==>
                && key in m
                && (|| (m[key].blockedUntil.Until? && now < m[key].blockedUntil.time)
                    || Recent(m[key].auth, now - cfg.window) != [] || Recent(m[key].protocol, now - cfg.window) != []))
            && (key in clean ==>
                  && clean[key].auth == Recent(m[key].auth, now - cfg.window)
                  && clean[key].protocol == Recent(m[key].protocol, now - cfg.window)
                  && clean[key].lastSeen == m[key].lastSeen
                  && clean[key].blockedUntil ==
                       if m[key].blockedUntil.Until? && now < m[key].blockedUntil.time then m[key].blockedUntil else Unset)
  {
    hide Recent;
  }

  /** The entries once a sweep over all of them has still those of todo to clean. */
  ghost function Swept(m: Entries, todo: set<string>, now: int, cfg: Limits): Entries {
    map key | key in m && (key in todo || !Dead(Cleaned(m[key], now, cfg))) ::
      if key in todo then m[key] else Cleaned(m[key], now, cfg)
  }

  lemma SweepBounds(m: Entries, now: int, cfg: Limits)
    ensures Swept(m, m.Keys, now, cfg) == m && Swept(m, {}, now, cfg) == CleanAll(m, now, cfg)
  {
  }

  lemma SweepStep(m: Entries, todo: set<string>, key: string, now: int, cfg: Limits)
    requires key in todo && todo <= m.Keys
    ensures key in Swept(m, todo, now, cfg)
    ensures Swept(m, todo - {key}, now, cfg) ==
              var s := Swept(m, todo, now, cfg);
              if Dead(Cleaned(s[key], now, cfg)) then s - {key} else s[key := Cleaned(s[key], now, cfg)]
  {
  }

  /** The blocks a write of the state file at the given time puts there. */
  function Saved(m: Entries, now: int): map<string, int> {
    map key | key in m && m[key].blockedUntil.After(now) :: m[key].blockedUntil.time
  }

  ghost predicate FailuresAgree(kept: seq<int>, failures: seq<int>, clock: int, cfg: Limits) {
    AgreeFrom(kept, failures, clock - cfg.window) && (cfg.limit >= 1 ==> |kept| < cfg.limit)
  }

  /** The kept failures of an address of either kind answer for all of its failures of that kind since the last reset. */
  ghost predicate CountsAgree(m: Entries, g: Ledger, key: string, cfg: Limits) {
    && FailuresAgree(Auth(m, key), History(g.failures, key), g.clock, cfg)
    && FailuresAgree(Protocol(m, key), History(g.protocols, key), g.clock, cfg)
  }

  /** A running block stands in memory with the promised deadline, and no other block does. */
  ghost predicate BlockAgrees(m: Entries, key: string, promised: map<string, int>, clock: int) {
    && (key in promised && promised[key] > clock ==> key in m && m[key].blockedUntil == Until(promised[key]))
    && (key in m && m[key].blockedUntil.After(clock) ==> key in promised && promised[key] == m[key].blockedUntil.time)
  }

  ghost predicate OnDisk(m: Entries, key: string, disk: map<string, int>, clock: int) {
    key in m && m[key].blockedUntil.After(clock) ==> key in disk && disk[key] == m[key].blockedUntil.time
  }

  ghost predicate Inv(m: Entries, permanent: set<string>, disk: map<string, int>, g: Ledger, cfg: Limits) {
    && cfg.maxItems > 0 && |m| <= Bound(g, cfg)
    && m.Keys !! permanent
    && (forall key :: CountsAgree(m, g, key, cfg))
    && (forall key :: BlockAgrees(m, key, g.promised, g.clock))
    && (g.synced ==> forall key :: OnDisk(m, key, disk, g.clock))
  }

  // ---- What each step keeps ----

  /** Two entries that stand for the same block and the same recent failures. */
  ghost predicate StandsFor(m: Entries, m': Entries, key: string, now: int, cfg: Limits) {
    && (Auth(m', key) == Auth(m, key) || Auth(m', key) == Recent(Auth(m, key), now - cfg.window))
    && (Protocol(m', key) == Protocol(m, key) || Protocol(m', key) == Recent(Protocol(m, key), now - cfg.window))
    && (key in m && m[key].blockedUntil.After(now) ==> key in m' && m'[key].blockedUntil == m[key].blockedUntil)
    && (key in m' && m'[key].blockedUntil.After(now) ==> key in m && m[key].blockedUntil == m'[key].blockedUntil)
  }

  lemma FailuresKept(kept: seq<int>, kept': seq<int>, failures: seq<int>, clock: int, now: int, cfg: Limits)
    requires FailuresAgree(kept, failures, clock, cfg) && clock <= now
    requires kept' == kept || kept' == Recent(kept, now - cfg.window)
    ensures FailuresAgree(kept', failures, now, cfg)
  {
    hide AgreeFrom;
    PruneAgrees(kept, failures, clock - cfg.window, now - cfg.window);
    AgreesLater(kept, failures, clock - cfg.window, now - cfg.window);
  }

  lemma AgreesLater(kept: seq<int>, history: seq<int>, horizon: int, later: int)
    requires AgreeFrom(kept, history, horizon) && horizon <= later
    ensures AgreeFrom(kept, history, later)
  {
    hide Recent;
  }

  /** Time passing, pruning and the removal of what has run out lose nothing that counts. */
  lemma TidyKeepsInv(m: Entries, m': Entries, permanent: set<string>, disk: map<string, int>, g: Ledger, now: int,
                     cfg: Limits)
    requires Inv(m, permanent, disk, g, cfg) && g.clock <= now
    requires m'.Keys !! permanent && |m'| <= Bound(g, cfg)
    requires forall key :: StandsFor(m, m', key, now, cfg)
    ensures Inv(m', permanent, disk, g.At(now), cfg)
  {
    hide FailuresAgree, Auth, Protocol, History, Recent;
    forall key
      ensures CountsAgree(m', g.At(now), key, cfg)
      ensures BlockAgrees(m', key, g.promised, now)
      ensures g.synced ==> OnDisk(m', key, disk, now)
    {
      assert StandsFor(m, m', key, now, cfg) && CountsAgree(m, g, key, cfg) && BlockAgrees(m, key, g.promised, g.clock);
      assert g.synced ==> OnDisk(m, key, disk, g.clock);
      FailuresKept(Auth(m, key), Auth(m', key), History(g.failures, key), g.clock, now, cfg);
      FailuresKept(Protocol(m, key), Protocol(m', key), History(g.protocols, key), g.clock, now, cfg);
    }
  }

  lemma CleanAllKeepsInv(m: Entries, permanent: set<string>, disk: map<string, int>, g: Ledger, now: int, cfg: Limits)
    requires Inv(m, permanent, disk, g, cfg) && g.clock <= now
    ensures Inv(CleanAll(m, now, cfg), permanent, disk, g.At(now), cfg)
  {
    hide FailuresAgree, BlockAgrees, OnDisk, Recent;
    var m' := CleanAll(m, now, cfg);
    SubsetSize(m'.Keys, m.Keys);
    assert |m'.Keys| == |m'| && |m.Keys| == |m|;
    forall key
      ensures StandsFor(m, m', key, now, cfg)
    {
    }
    TidyKeepsInv(m, m', permanent, disk, g, now, cfg);
  }

  /** The victim of an eviction: not blocked now, and seen longest ago among those. */
  ghost predicate OldestUnblockedIn(m: Entries, key: string, now: int) {
    && key in m && !m[key].blockedUntil.After(now)
    && (forall other | other in m && !m[other].blockedUntil.After(now) :: m[key].lastSeen <= m[other].lastSeen)
  }

  /** What looking up a new address leaves of the others: all of them if there is room; otherwise the table
      is cleaned, and if that is not enough one address is evicted. */
  ghost predicate RoomMade(m: Entries, m': Entries, victim: string, now: int, cfg: Limits) {
    var t := if |m| >= cfg.maxItems then CleanAll(m, now, cfg) else m;
    if |t| < cfg.maxItems then m' == t else OldestUnblockedIn(t, victim, now) && m' == t - {victim}
  }

  /** The table with an address in place: nothing but what makes room for it is lost. */
  ghost predicate Placed(m: Entries, room: Entries, base: Entries, permanent: set<string>, key: string, victim: string,
                         now: int, cfg: Limits) {
    && key != "" && key !in permanent
    && (if key in m then room == m else RoomMade(m, room, victim, now, cfg))
    && base == room[key := Found(room, key).(lastSeen := now)]
  }

  /** An address is refused if it is empty or permanent, or if every place is taken by an address blocked now. */
  ghost predicate Refused(m: Entries, m': Entries, permanent: set<string>, key: string, now: int, cfg: Limits) {
    || ((key == "" || key in permanent) && m' == m)
    || (&& key !in m && |m| >= cfg.maxItems && m' == CleanAll(m, now, cfg) && |m'| >= cfg.maxItems
        && forall other | other in m' :: m'[other].blockedUntil.After(now))
  }

  function Evicted(g: Ledger, key: string): Ledger {
    g.(failures := g.failures[key := []], protocols := g.protocols[key := []])
  }

  lemma NoFailures(clock: int, cfg: Limits)
    ensures FailuresAgree([], [], clock, cfg)
  {
  }

  /** An eviction never drops a running block. */
  lemma EvictKeepsInv(m: Entries, key: string, permanent: set<string>, disk: map<string, int>, g: Ledger, cfg: Limits)
    requires Inv(m, permanent, disk, g, cfg) && key in m && !m[key].blockedUntil.After(g.clock)
    ensures Inv(m - {key}, permanent, disk, Evicted(g, key), cfg)
    ensures |m - {key}| == |m| - 1
  {
    hide FailuresAgree;
    var m', g' := m - {key}, Evicted(g, key);
    assert m.Keys == m'.Keys + {key};
    NoFailures(g.clock, cfg);
    forall other
      ensures CountsAgree(m', g', other, cfg)
      ensures BlockAgrees(m', other, g'.promised, g.clock)
      ensures g.synced ==> OnDisk(m', other, disk, g.clock)
    {
      assert CountsAgree(m, g, other, cfg);
      assert BlockAgrees(m, other, g.promised, g.clock);
      assert g.synced ==> OnDisk(m, other, disk, g.clock);
    }
  }

  function Found(m: Entries, key: string): Entry {
    if key in m then m[key] else Entry([], [], Unset, 0)
  }

  /** Looking an address up for an update: at worst a new entry without failures appears. */
  lemma TrackKeepsInv(m: Entries, key: string, permanent: set<string>, disk: map<string, int>, g: Ledger, cfg: Limits)
    requires Inv(m, permanent, disk, g, cfg) && key !in permanent && (key in m || |m| < Bound(g, cfg))
    ensures Inv(m[key := Found(m, key).(lastSeen := g.clock)], permanent, disk, g, cfg)
  {
    hide FailuresAgree, BlockAgrees, OnDisk, Recent;
    var m' := m[key := Found(m, key).(lastSeen := g.clock)];
    assert m'.Keys == m.Keys + {key};
    forall other
      ensures StandsFor(m, m', other, g.clock, cfg)
    {
    }
    TidyKeepsInv(m, m', permanent, disk, g, g.clock, cfg);
  }

  lemma TickKeepsInv(m: Entries, permanent: set<string>, disk: map<string, int>, g: Ledger, now: int, cfg: Limits)
    requires Inv(m, permanent, disk, g, cfg) && g.clock <= now
    ensures Inv(m, permanent, disk, g.At(now), cfg)
  {
    hide FailuresAgree, BlockAgrees, OnDisk, Recent;
    forall key
      ensures StandsFor(m, m, key, now, cfg)
    {
    }
    TidyKeepsInv(m, m, permanent, disk, g, now, cfg);
  }

  /** The entry after one more authentication failure. */
  function Failed(e: Entry, now: int, cfg: Limits): Entry {
    var auth := Recent(e.auth, now - cfg.window) + [now];
    if |auth| >= cfg.limit then e.(auth := [], blockedUntil := Until(now + cfg.blockFor), lastSeen := now)
    else e.(auth := auth, lastSeen := now)
  }

  predicate Blocks(e: Entry, now: int, cfg: Limits) {
    |Recent(e.auth, now - cfg.window)| + 1 >= cfg.limit
  }

  function FailureNoted(g: Ledger, key: string, blocks: bool, cfg: Limits): Ledger {
    if blocks then
      g.(failures := g.failures[key := []], promised := g.promised[key := g.clock + cfg.blockFor], synced := false)
    else g.(failures := g.failures[key := History(g.failures, key) + [g.clock]])
  }

  lemma FailureAppended(kept: seq<int>, failures: seq<int>, clock: int, cfg: Limits)
    requires FailuresAgree(kept, failures, clock, cfg)
    requires |Recent(kept, clock - cfg.window)| + 1 < cfg.limit
    ensures FailuresAgree(Recent(kept, clock - cfg.window) + [clock], failures + [clock], clock, cfg)
  {
    hide AgreeFrom, Recent;
    PruneAgrees(kept, failures, clock - cfg.window, clock - cfg.window);
    AppendAgrees(Recent(kept, clock - cfg.window), failures, clock, clock - cfg.window);
  }

  /** One more failure keeps the invariant, whether or not it completes a block. */
  lemma FailureKeepsInv(m: Entries, key: string, permanent: set<string>, disk: map<string, int>, g: Ledger, cfg: Limits)
    requires Inv(m, permanent, disk, g, cfg) && key in m
    ensures Inv(m[key := Failed(m[key], g.clock, cfg)], permanent, disk,
                FailureNoted(g, key, Blocks(m[key], g.clock, cfg), cfg), cfg)
  {
    hide FailuresAgree, Recent;
    var e, blocks := m[key], Blocks(m[key], g.clock, cfg);
    var m', g' := m[key := Failed(e, g.clock, cfg)], FailureNoted(g, key, blocks, cfg);
    assert m'.Keys == m.Keys;
    NoFailures(g.clock, cfg);
    assert Auth(m, key) == e.auth && CountsAgree(m, g, key, cfg);
    if !blocks {
      FailureAppended(e.auth, History(g.failures, key), g.clock, cfg);
    }
    forall other
      ensures CountsAgree(m', g', other, cfg)
      ensures BlockAgrees(m', other, g'.promised, g.clock)
      ensures g'.synced ==> OnDisk(m', other, disk, g.clock)
    {
      assert CountsAgree(m, g, other, cfg);
      assert BlockAgrees(m, other, g.promised, g.clock);
      assert g.synced ==> OnDisk(m, other, disk, g.clock);
    }
  }

  /** The entry after one more protocol failure, if that does not complete the limit. */
  function ProtocolFailed(e: Entry, now: int, cfg: Limits): Entry {
    e.(protocol := Recent(e.protocol, now - cfg.window) + [now], lastSeen := now)
  }

  predicate CompletesProtocol(e: Entry, now: int, cfg: Limits) {
    |Recent(e.protocol, now - cfg.window)| + 1 >= cfg.limit
  }

  function ProtocolNoted(g: Ledger, key: string): Ledger {
    g.(protocols := g.protocols[key := History(g.protocols, key) + [g.clock]])
  }

  /** One more protocol failure short of the limit keeps the invariant. */
  lemma ProtocolFailureKeepsInv(m: Entries, key: string, permanent: set<string>, disk: map<string, int>, g: Ledger,
                                cfg: Limits)
    requires Inv(m, permanent, disk, g, cfg) && key in m && !CompletesProtocol(m[key], g.clock, cfg)
    ensures Inv(m[key := ProtocolFailed(m[key], g.clock, cfg)], permanent, disk, ProtocolNoted(g, key), cfg)
  {
    hide FailuresAgree, Recent;
    var m', g' := m[key := ProtocolFailed(m[key], g.clock, cfg)], ProtocolNoted(g, key);
    assert m'.Keys == m.Keys;
    assert Protocol(m, key) == m[key].protocol && CountsAgree(m, g, key, cfg);
    FailureAppended(m[key].protocol, History(g.protocols, key), g.clock, cfg);
    OthersStand(m, m', key, disk, g, g', cfg);
  }

  /** A recorded success forgets the protocol failures of its address. */
  function Forgotten(m: Entries, key: string): Entries {
    if key in m then m[key := m[key].(protocol := [])] else m
  }

  function Succeeded(g: Ledger, key: string): Ledger {
    g.(protocols := g.protocols[key := []])
  }

  lemma SuccessKeepsInv(m: Entries, key: string, permanent: set<string>, disk: map<string, int>, g: Ledger, cfg: Limits)
    requires Inv(m, permanent, disk, g, cfg)
    ensures Inv(Forgotten(m, key), permanent, disk, Succeeded(g, key), cfg)
  {
    hide FailuresAgree, Recent;
    var m', g' := Forgotten(m, key), Succeeded(g, key);
    assert m'.Keys == m.Keys;
    NoFailures(g.clock, cfg);
    assert CountsAgree(m, g, key, cfg);
    OthersStand(m, m', key, disk, g, g', cfg);
  }

  /** A change of the protocol failures of one address leaves everything else in agreement. */
  lemma OthersStand(m: Entries, m': Entries, key: string, disk: map<string, int>, g: Ledger, g': Ledger, cfg: Limits)
    requires forall other :: CountsAgree(m, g, other, cfg) && BlockAgrees(m, other, g.promised, g.clock)
    requires g.synced ==> forall other :: OnDisk(m, other, disk, g.clock)
    requires g' == g.(protocols := g'.protocols) && m'.Keys == m.Keys && CountsAgree(m', g', key, cfg)
    requires key in m ==> m'[key].blockedUntil == m[key].blockedUntil
    requires forall other | other != key ::
               && (other in m ==> m'[other] == m[other])
               && History(g'.protocols, other) == History(g.protocols, other)
    ensures forall other :: CountsAgree(m', g', other, cfg) && BlockAgrees(m', other, g'.promised, g'.clock)
    ensures g'.synced ==> forall other :: OnDisk(m', other, disk, g'.clock)
  {
    hide FailuresAgree;
    forall other
      ensures CountsAgree(m', g', other, cfg) && BlockAgrees(m', other, g'.promised, g'.clock)
      ensures g'.synced ==> OnDisk(m', other, disk, g'.clock)
    {
      assert CountsAgree(m, g, other, cfg) && BlockAgrees(m, other, g.promised, g.clock);
      assert g.synced ==> OnDisk(m, other, disk, g.clock);
    }
  }

  /** A failure completes a block exactly when the failures in the window since the last reset,
      this one included, reach the limit. */
  lemma BlockDecisionIsExact(m: Entries, key: string, permanent: set<string>, disk: map<string, int>, g: Ledger,
                             now: int, cfg: Limits)
    requires Inv(m, permanent, disk, g, cfg) && g.clock <= now
    ensures Blocks(Found(m, key), now, cfg) <==>
            |Recent(History(g.failures, key), now - cfg.window)| + 1 >= cfg.limit
    ensures cfg.limit >= 1 ==> |Found(m, key).auth| < cfg.limit
  {
    hide AgreeFrom, Recent, BlockAgrees, OnDisk;
    assert CountsAgree(m, g, key, cfg);
    PruneAgrees(Auth(m, key), History(g.failures, key), g.clock - cfg.window, now - cfg.window);
  }

  /** A protocol failure attempts a promotion exactly when the protocol failures in the window since the last reset,
      this one included, reach the limit. */
  lemma PromotionDecisionIsExact(m: Entries, key: string, permanent: set<string>, disk: map<string, int>, g: Ledger,
                                 now: int, cfg: Limits)
    requires Inv(m, permanent, disk, g, cfg) && g.clock <= now
    ensures CompletesProtocol(Found(m, key), now, cfg) <==>
            |Recent(History(g.protocols, key), now - cfg.window)| + 1 >= cfg.limit
    ensures cfg.limit >= 1 ==> |Found(m, key).protocol| < cfg.limit
  {
    hide AgreeFrom, Recent, BlockAgrees, OnDisk;
    assert CountsAgree(m, g, key, cfg);
    PruneAgrees(Protocol(m, key), History(g.protocols, key), g.clock - cfg.window, now - cfg.window);
  }

  /** Lifting whatever holds an address: an unblock, or the reset of a promotion. */
  function Lifted(g: Ledger, key: string): Ledger {
    g.(failures := g.failures[key := []], protocols := g.protocols[key := []], promised := g.promised - {key})
  }

  lemma LiftKeepsEntries(m: Entries, m': Entries, key: string, disk: map<string, int>, g: Ledger, cfg: Limits,
                         other: string)
    requires CountsAgree(m, g, other, cfg)
    requires BlockAgrees(m, other, g.promised, g.clock) && (g.synced ==> OnDisk(m, other, disk, g.clock))
    requires key !in m' || (m'[key].auth == [] && m'[key].protocol == [] && m'[key].blockedUntil == Unset)
    requires other != key ==> (other in m <==> other in m') && (other in m ==> m'[other] == m[other])
    ensures CountsAgree(m', Lifted(g, key), other, cfg)
    ensures BlockAgrees(m', other, Lifted(g, key).promised, g.clock) && (g.synced ==> OnDisk(m', other, disk, g.clock))
  {
    hide FailuresAgree;
    NoFailures(g.clock, cfg);
  }

  ghost predicate Lifts(m: Entries, m': Entries, key: string, permanent: set<string>, permanent': set<string>) {
    || (m' == m - {key} && permanent' <= permanent + {key})
    || (key in m && m' == m[key := Entry([], [], Unset, m[key].lastSeen)] && permanent' == permanent)
  }

  lemma LiftSizes(m: Entries, m': Entries, key: string, permanent: set<string>, permanent': set<string>)
    requires Lifts(m, m', key, permanent, permanent') && m.Keys !! permanent
    ensures |m'| <= |m| && m'.Keys !! permanent'
  {
    assert m'.Keys <= m.Keys;
    SubsetSize(m'.Keys, m.Keys);
    assert |m'.Keys| == |m'| && |m.Keys| == |m|;
  }

  lemma LiftKeepsOne(m: Entries, m': Entries, key: string, permanent: set<string>, permanent': set<string>,
                     disk: map<string, int>, g: Ledger, cfg: Limits, other: string)
    requires Inv(m, permanent, disk, g, cfg) && Lifts(m, m', key, permanent, permanent')
    ensures CountsAgree(m', Lifted(g, key), other, cfg)
    ensures BlockAgrees(m', other, Lifted(g, key).promised, g.clock) && (g.synced ==> OnDisk(m', other, disk, g.clock))
  {
    hide CountsAgree, BlockAgrees, OnDisk, History, Auth, Lifted;
    assert CountsAgree(m, g, other, cfg);
    LiftKeepsEntries(m, m', key, disk, g, cfg, other);
  }

  /** An unblock or a promotion removes the entry; a promotion that could not be written leaves an empty one. */
  lemma LiftKeepsInv(m: Entries, m': Entries, key: string, permanent: set<string>, permanent': set<string>,
                     disk: map<string, int>, g: Ledger, cfg: Limits)
    requires Inv(m, permanent, disk, g, cfg) && Lifts(m, m', key, permanent, permanent')
    ensures Inv(m', permanent', disk, Lifted(g, key), cfg)
  {
    hide CountsAgree, BlockAgrees, OnDisk, History, Auth, Lifted, Lifts;
    LiftSizes(m, m', key, permanent, permanent');
    LiftedKeepsRest(g, key);
    forall other
      ensures CountsAgree(m', Lifted(g, key), other, cfg)
      ensures BlockAgrees(m', other, Lifted(g, key).promised, g.clock)
      ensures g.synced ==> OnDisk(m', other, disk, g.clock)
    {
      LiftKeepsOne(m, m', key, permanent, permanent', disk, g, cfg, other);
    }
  }

  lemma LiftedKeepsRest(g: Ledger, key: string)
    ensures Lifted(g, key).clock == g.clock && Lifted(g, key).synced == g.synced && Lifted(g, key).loaded == g.loaded
  {
  }

  /** Taking addresses off the permanent set, which takes no lock, keeps everything else. */
  lemma FewerPermanentKeepInv(m: Entries, permanent: set<string>, keys: set<string>, disk: map<string, int>, g: Ledger,
                              cfg: Limits)
    requires Inv(m, permanent, disk, g, cfg)
    ensures Inv(m, permanent - keys, disk, g, cfg)
  {
    hide FailuresAgree, BlockAgrees, OnDisk;
  }

  /** Writing the state file puts every running block on disk. */
  lemma SaveKeepsInv(m: Entries, permanent: set<string>, disk: map<string, int>, g: Ledger, now: int, cfg: Limits)
    requires Inv(m, permanent, disk, g, cfg) && g.clock <= now
    ensures Inv(m, permanent, Saved(m, now), g.(clock := now, synced := true), cfg)
    ensures Inv(m, permanent, disk, g.(clock := now, synced := false), cfg)
  {
    hide FailuresAgree, BlockAgrees, Recent;
    forall key
      ensures StandsFor(m, m, key, now, cfg) && CountsAgree(m, g.(synced := false), key, cfg)
    {
      assert CountsAgree(m, g, key, cfg);
    }
    assert Inv(m, permanent, disk, g.(synced := false), cfg);
    TidyKeepsInv(m, m, permanent, disk, g.(synced := false), now, cfg);
    var g' := g.(synced := false).At(now);
    assert g' == g.(clock := now, synced := false);
    forall key
      ensures CountsAgree(m, g.(clock := now, synced := true), key, cfg)
    {
      assert CountsAgree(m, g', key, cfg);
    }
  }

  // ---- The query of a block, in its three steps ----

  datatype Kind = NotBlocked | Temporary | Permanent

  predicate BlockedAt(m: Entries, permanent: set<string>, key: string, now: int) {
    key in permanent || (key in m && m[key].blockedUntil.After(now))
  }

  /** The answer of the section under the read lock, with the clock read after it; none means: look again. */
  datatype Answer = Final(kind: Kind) | LookAgain

  function ReadAnswer(m: Entries, key: string, now: int): Answer {
    if key !in m || m[key].blockedUntil == Unset then Final(NotBlocked)
    else if now < m[key].blockedUntil.time then Final(Temporary)
    else LookAgain
  }

  function RecheckAnswer(m: Entries, permanent: set<string>, key: string, now: int): Kind {
    if key !in m then NotBlocked
    else if key in permanent then Permanent
    else if m[key].blockedUntil == Unset then NotBlocked
    else if now < m[key].blockedUntil.time then Temporary
    else NotBlocked
  }

  /** The recheck clears a deadline only if it has run out, also when the block was renewed after the read. */
  function Rechecked(m: Entries, permanent: set<string>, key: string, now: int): Entries {
    if key !in m || key in permanent || m[key].blockedUntil == Unset || m[key].blockedUntil.After(now) then m
    else
      var e := m[key].(blockedUntil := Unset);
      if e.auth == [] && e.protocol == [] then m - {key} else m[key := e]
  }

  /** What it changes: of an address that is not permanent a deadline that has run out goes, and the entry with it if
      there is nothing else in it; every other address stays as it is. */
  lemma RecheckMeans(m: Entries, permanent: set<string>, key: string, now: int, other: string)
    ensures var m' := Rechecked(m, permanent, key, now);
            var lapsed :=
              key in m && key !in permanent && m[key].blockedUntil.Until? && m[key].blockedUntil.time <= now;
            && (!lapsed ==> m' == m)
            && (lapsed ==> (key in m' <==> m[key].auth != [] || m[key].protocol != []))
            && (lapsed && key in m' ==> m'[key] == m[key].(blockedUntil := Unset))
            && (other != key ==> (other in m' <==> other in m) && (other in m ==> m'[other] == m[other]))
  {
  }

  /** The clock reading of the recheck may be older than the tracker's clock; running blocks survive all the same. */
  lemma RecheckKeepsInv(m: Entries, permanent: set<string>, disk: map<string, int>, g: Ledger, key: string, now: int,
                        cfg: Limits)
    requires Inv(m, permanent, disk, g, cfg) && now <= g.clock
    ensures Inv(Rechecked(m, permanent, key, now), permanent, disk, g, cfg)
  {
    hide FailuresAgree, BlockAgrees, OnDisk, Recent;
    var m' := Rechecked(m, permanent, key, now);
    SubsetSize(m'.Keys, m.Keys);
    assert |m'.Keys| == |m'| && |m.Keys| == |m|;
    forall other
      ensures StandsFor(m, m', other, g.clock, cfg)
    {
    }
    TidyKeepsInv(m, m', permanent, disk, g, g.clock, cfg);
  }

  /** A running temporary block is seen by each of the two locked sections. */
  lemma RunningBlockIsSeen(m: Entries, permanent: set<string>, disk: map<string, int>, g: Ledger, key: string,
                           now: int, cfg: Limits)
    requires Inv(m, permanent, disk, g, cfg) && key in g.promised && now < g.promised[key] && g.clock < g.promised[key]
    ensures ReadAnswer(m, key, now) == Final(Temporary)
    ensures RecheckAnswer(m, permanent, key, now) == Temporary
    ensures Rechecked(m, permanent, key, now) == m
  {
    assert BlockAgrees(m, key, g.promised, g.clock);
  }

  /** The recheck's own look at the permanent set never finds anything: a promoted address has no entry, and
      without an entry the recheck has already answered. */
  lemma RecheckNeverAnswersPermanent(m: Entries, permanent: set<string>, disk: map<string, int>, g: Ledger,
                                     key: string, now: int, cfg: Limits)
    requires Inv(m, permanent, disk, g, cfg)
    ensures RecheckAnswer(m, permanent, key, now) != Permanent
    ensures key in permanent ==> RecheckAnswer(m, permanent, key, now) == NotBlocked
    ensures key in permanent ==> ReadAnswer(m, key, now) == Final(NotBlocked)
  {
  }

  /** The three steps without interference. */
  function UndisturbedAnswer(m: Entries, permanent: set<string>, key: string, now: int): Kind {
    if key in permanent then Permanent
    else
      match ReadAnswer(m, key, now)
      case Final(kind) => kind
      case LookAgain => RecheckAnswer(m, permanent, key, now)
  }

  /** An undisturbed query is exact. */
  lemma UndisturbedQueryIsExact(m: Entries, permanent: set<string>, key: string, now: int)
    ensures UndisturbedAnswer(m, permanent, key, now) == NotBlocked <==> !BlockedAt(m, permanent, key, now)
    ensures UndisturbedAnswer(m, permanent, key, now) == Permanent <==> key in permanent
  {
  }

  // ---- Reload ----

  /** What the start leaves of the blocks in the state file: those that run and are not listed as permanent. */
  function Loaded(disk: map<string, int>, listed: set<string>, now: int): Entries {
    map key | key in disk && disk[key] > now && key != "" && key !in listed :: Entry([], [], Until(disk[key]), now)
  }

  /** The blocks read so far, when those of todo are still to come. */
  ghost function LoadedPart(disk: map<string, int>, todo: set<string>, now: int): Entries {
    map key | key in disk && key !in todo && disk[key] > now && key != "" :: Entry([], [], Until(disk[key]), now)
  }

  lemma LoadedPartBounds(disk: map<string, int>, listed: set<string>, now: int)
    ensures LoadedPart(disk, disk.Keys, now) == map[]
    ensures LoadedPart(disk, {}, now) - listed == Loaded(disk, listed, now)
  {
  }

  lemma LoadedPartStep(disk: map<string, int>, todo: set<string>, key: string, now: int)
    requires key in todo && todo <= disk.Keys
    ensures key !in LoadedPart(disk, todo, now)
    ensures LoadedPart(disk, todo - {key}, now) ==
            if key != "" && disk[key] > now then LoadedPart(disk, todo, now)[key := Entry([], [], Until(disk[key]), now)]
            else LoadedPart(disk, todo, now)
  {
  }

  /** The loaded blocks are promised until the deadlines in the file. */
  ghost function LoadedLedger(disk: map<string, int>, listed: set<string>, now: int): Ledger {
    var m := Loaded(disk, listed, now);
    Ledger(map[], map[], map key | key in m :: disk[key], now, true, |m|)
  }

  /** Whatever the state file holds, what is loaded satisfies the invariant. */
  lemma LoadedHasInv(disk: map<string, int>, listed: set<string>, now: int, cfg: Limits)
    requires cfg.maxItems > 0
    ensures Inv(Loaded(disk, listed, now), listed, disk, LoadedLedger(disk, listed, now), cfg)
  {
    NoFailures(now, cfg);
    hide FailuresAgree;
  }

  /** The addresses whose block in the file still runs and is not superseded by a permanent one. */
  function RunningOnFile(disk: map<string, int>, listed: set<string>, now: int): set<string> {
    set key | key in disk && disk[key] > now && key != "" && key !in listed
  }

  /** The table keeps its configured size if and only if the file holds no more such addresses than that: loading
      does not look at the size. */
  lemma LoadFitsTableIff(disk: map<string, int>, listed: set<string>, now: int, cfg: Limits)
    requires cfg.maxItems > 0
    ensures |Loaded(disk, listed, now)| == |RunningOnFile(disk, listed, now)|
    ensures Inv(Loaded(disk, listed, now), listed, disk, LoadedLedger(disk, listed, now).(loaded := 0), cfg) <==>
            |RunningOnFile(disk, listed, now)| <= cfg.maxItems
  {
    var m, g := Loaded(disk, listed, now), LoadedLedger(disk, listed, now);
    assert m.Keys == RunningOnFile(disk, listed, now);
    assert |m| == |m.Keys|;
    LoadedHasInv(disk, listed, now, cfg);
    hide FailuresAgree, Loaded;
    forall key
      ensures CountsAgree(m, g.(loaded := 0), key, cfg)
    {
      assert CountsAgree(m, g, key, cfg);
    }
  }

  /** A file with n running blocks. */
  function FileOf(n: nat, now: int): map<string, int> {
    if n == 0 then map[] else FileOf(n - 1, now)[seq(n, _ => 'a') := now + 1]
  }

  lemma {:induction false} FileSize(n: nat, now: int)
    ensures |FileOf(n, now)| == n && RunningOnFile(FileOf(n, now), {}, now) == FileOf(n, now).Keys
    ensures forall key | key in FileOf(n, now) :: |key| <= n
  {
    if n > 0 {
      FileSize(n - 1, now);
      var key := seq(n, _ => 'a');
      assert key !in FileOf(n - 1, now);
      assert FileOf(n, now).Keys == FileOf(n - 1, now).Keys + {key};
      assert RunningOnFile(FileOf(n, now), {}, now) == RunningOnFile(FileOf(n - 1, now), {}, now) + {key};
    }
  }

  /** For every configured size there is a file whose load exceeds it. */
  lemma OversizedLoad(now: int, cfg: Limits) returns (disk: map<string, int>)
    requires cfg.maxItems > 0
    ensures |Loaded(disk, {}, now)| == cfg.maxItems + 1
    ensures !Inv(Loaded(disk, {}, now), {}, disk, LoadedLedger(disk, {}, now).(loaded := 0), cfg)
  {
    disk := FileOf(cfg.maxItems + 1, now);
    FileSize(cfg.maxItems + 1, now);
    assert |disk.Keys| == |disk|;
    hide Inv, FileOf, Loaded, RunningOnFile;
    LoadFitsTableIff(disk, {}, now, cfg);
  }

  /** With the last write successful, every running block survives a restart with its deadline: the new tracker
      promises it too, or has it as a permanent one. */
  lemma ReloadKeepsBlocks(m: Entries, permanent: set<string>, disk: map<string, int>, g: Ledger, cfg: Limits,
                          listed: set<string>, now: int, key: string)
    requires Inv(m, permanent, disk, g, cfg) && g.synced && g.clock <= now
    requires key != "" && key in g.promised && g.promised[key] > now
    ensures BlockedAt(Loaded(disk, listed, now), listed, key, now)
    ensures key !in listed ==>
              && Loaded(disk, listed, now)[key].blockedUntil == Until(g.promised[key])
              && key in LoadedLedger(disk, listed, now).promised
              && LoadedLedger(disk, listed, now).promised[key] == g.promised[key]
  {
    assert BlockAgrees(m, key, g.promised, g.clock);
    assert OnDisk(m, key, disk, g.clock);
  }
}
