// The failure tracker together with its permanent-block file: the set that the tracker asks is the set that the
// file's operations keep in step with the file. No two of the operations run at once.
module TrackedPermanents {
  import opened Text
  import opened PermanentText
  import opened FailModel
  import opened SuccessMarks
  import opened FailTracker
  import PB = PermanentBlocks

  /** One permanent set, seen by both, and one parser. */
  ghost predicate Joined(t: Tracker, s: PB.Store)
    reads t`items, t`permanent, t`disk, t`marks, t`ledger, t`readings, t.items.Values, s
  {
    t.Valid() && s.Valid() && t.permanent == s.permanent && t.parseIP == s.parse
  }

  /** An address as a connection brings it: canonical, or a host name that is no comment. */
  ghost predicate RemoteName(s: PB.Store, rawKey: string) {
    s.parse(rawKey) != "" || (Writable(rawKey) && s.parse(rawKey) == "")
  }

  lemma CanonicalName(s: PB.Store, rawKey: string)
    requires PB.Canonical(s.parse) && RemoteName(s, rawKey)
    ensures var key := if s.parse(rawKey) != "" then s.parse(rawKey) else rawKey;
            Trim(key) == key && key != "" && Writable(key) && PB.Key(key, s.parse) == key
  {
    var key := if s.parse(rawKey) != "" then s.parse(rawKey) else rawKey;
    TrimOfTrimmed(key);
    hide Trim;
  }

  /** A protocol failure: a promotion reaches the tracker's set and the file, or neither. */
  method AddProtocolFailure(t: Tracker, s: PB.Store, rawKey: string, now: int, appendOk: bool, saveNow: int,
                            saveOk: bool) returns (promoted: bool)
    requires Joined(t, s) && RemoteName(s, rawKey) && t.ledger.clock <= now <= saveNow
    modifies t, t.items.Values, s
    ensures Joined(t, s) && (old(s.InStep()) ==> s.InStep())
    ensures var key := if t.parseIP(rawKey) != "" then t.parseIP(rawKey) else rawKey;
            && t.permanent == old(t.permanent) + (if promoted then {key} else {})
            && (s.hasPath ==> s.OnFile() == old(s.OnFile()) + (if promoted then {key} else {}))
            && (promoted ==>
                  && !Protected(old(t.readings), key, t.dayOf(now), t.cfg.maxItems)
                  && CompletesProtocol(old(Found(t.View(), key)), now, t.cfg))
            && (!s.hasPath || appendOk ==> old(t.Promotable(key, now)) ==>
                  !Protected(old(t.readings), key, t.dayOf(now), t.cfg.maxItems) ==> promoted)
  {
    CanonicalName(s, rawKey);
    hide Inv, MarksAfter, ViewOf, Distinct, Protected, PB.WellFormed, PB.Canonical, PB.Blocks, PB.Key, Writable,
         PB.LoopbackByAddress, Trim, Tracker.Promotable, PB.Store.OnFile, CompletesProtocol, ProtocolCounted, Found;
    ghost var key := if t.parseIP(rawKey) != "" then t.parseIP(rawKey) else rawKey;
    promoted := Count(t, rawKey, now, !s.hasPath || appendOk, saveNow, saveOk);
    if promoted {
      Write(t, s, if t.parseIP(rawKey) != "" then t.parseIP(rawKey) else rawKey, appendOk);
    }
  }

  /** The tracker's side of it. */
  method Count(t: Tracker, rawKey: string, now: int, appendOk: bool, saveNow: int, saveOk: bool)
    returns (promoted: bool)
    requires t.Valid() && t.ledger.clock <= now <= saveNow
    modifies t, t.items.Values
    ensures t.Valid()
    ensures var key := if t.parseIP(rawKey) != "" then t.parseIP(rawKey) else rawKey;
            && t.permanent == old(t.permanent) + (if promoted then {key} else {})
            && (promoted ==>
                  && key !in old(t.permanent) && appendOk
                  && !Protected(old(t.readings), key, t.dayOf(now), t.cfg.maxItems)
                  && CompletesProtocol(old(Found(t.View(), key)), now, t.cfg))
            && (appendOk ==> old(t.Promotable(key, now)) ==>
                  !Protected(old(t.readings), key, t.dayOf(now), t.cfg.maxItems) ==> promoted)
  {
    hide Inv, MarksAfter, ViewOf, Distinct, Protected, Tracker.Promotable, CompletesProtocol, ProtocolCounted, Found;
    ghost var tracking;
    promoted, tracking := t.AddProtocolFailure(rawKey, now, appendOk, saveNow, saveOk);
  }

  /** The append that a promotion makes. */
  method Write(t: Tracker, s: PB.Store, key: string, appendOk: bool)
    requires t.Valid() && s.Valid() && t.parseIP == s.parse && t.permanent == s.permanent + {key}
    requires Trim(key) == key && key != "" && Writable(key) && PB.Key(key, s.parse) == key
    requires key !in s.permanent && (!s.hasPath || appendOk)
    modifies s
    ensures Joined(t, s) && (old(s.InStep()) ==> s.InStep())
    ensures s.hasPath ==> s.OnFile() == old(s.OnFile()) + {key}
  {
    hide Inv, MarksAfter, ViewOf, Distinct, PB.WellFormed, PB.Canonical, PB.Blocks, PB.Key, Writable,
         PB.LoopbackByAddress, Trim;
    var stored := s.Promote(key, appendOk);
  }

  /** Unblocking a permanent address takes it off the tracker's set and the file. */
  method UnblockPermanent(t: Tracker, s: PB.Store, rawKey: string, ioOk: bool) returns (ok: bool, err: bool)
    requires Joined(t, s)
    modifies t`permanent, s
    ensures Joined(t, s) && (old(s.InStep()) ==> s.InStep())
    ensures !err && Trim(rawKey) != "" ==>
              && t.permanent == old(t.permanent) - {PB.Key(rawKey, s.parse)}
              && s.OnFile() == old(s.OnFile()) - {PB.Key(rawKey, s.parse)}
    ensures err || Trim(rawKey) == "" ==> !ok && t.permanent == old(t.permanent) && s.OnFile() == old(s.OnFile())
    ensures err ==> !ioOk && Trim(rawKey) != ""
    ensures !err && Writable(PB.Key(rawKey, s.parse)) ==>
              (ok <==> PB.Key(rawKey, s.parse) in old(t.permanent) + old(s.OnFile()))
  {
    hide Inv, MarksAfter, ViewOf, Distinct, PB.WellFormed, PB.Canonical, PB.Blocks, PB.Key, Writable,
         PB.LoopbackByAddress, Trim;
    ok, err := s.UnblockPermanent(rawKey, ioOk);
    if !err && Trim(rawKey) != "" {
      t.ForgetPermanent({PB.Key(rawKey, s.parse)});
    }
  }

  /** Lifting the blocks of addresses that succeeded recently. */
  method RemovePermanentSuccessful(t: Tracker, s: PB.Store, ips: set<string>, ioOk: bool) returns (count: nat, err: bool)
    requires Joined(t, s)
    modifies t`permanent, s
    ensures Joined(t, s) && (old(s.InStep()) ==> s.InStep())
    ensures !err && s.hasPath ==> t.permanent == old(t.permanent) - PB.Targets(ips, s.parse)
    ensures !err ==> s.OnFile() == old(s.OnFile()) - PB.Targets(ips, s.parse)
    ensures err ==> !ioOk && count == 0 && t.permanent == old(t.permanent) && s.OnFile() == old(s.OnFile())
    ensures !err && (forall key | key in PB.Targets(ips, s.parse) :: Writable(key)) ==>
              count == |old(s.OnFile()) * PB.Targets(ips, s.parse)|
  {
    hide Inv, MarksAfter, ViewOf, Distinct, PB.WellFormed, PB.Canonical, PB.Blocks, PB.Key, Writable,
         PB.LoopbackByAddress, PB.Targets;
    count, err := s.RemovePermanentSuccessful(ips, ioOk);
    t.ForgetPermanent(t.permanent - s.permanent);
  }

  /** The start: the temporary blocks of the state file and the permanent ones of the block file. An error means that
      a file could not be read or that a loopback entry could not be taken out of the block file. */
  method Load(t: Tracker, s: PB.Store, stateOk: bool, readOk: bool, removeOk: string -> bool, now: int)
    returns (err: bool)
    requires Joined(t, s) && t.items == map[] && t.permanent == {} && t.ledger.clock <= now
    modifies t`items, t`permanent, t`ledger, s
    ensures Joined(t, s)
    ensures stateOk ==> t.View() == Loaded(t.disk, t.permanent, now)
    ensures stateOk && readOk && s.hasPath ==> t.permanent == s.NotLoopback(old(s.OnFile()))
    ensures !err && s.hasPath ==> s.InStep()
    ensures !stateOk || !readOk ==> err
    ensures stateOk && readOk && err ==> s.SomeRemovalFails(old(PermanentText.Load(s.Text())), removeOk)
    ensures !stateOk ==> unchanged(t) && unchanged(s)
  {
    hide Inv, MarksAfter, ViewOf, Distinct, Loaded, PB.WellFormed, PB.Canonical, PB.Blocks, PB.LoopbackByAddress;
    if !stateOk {
      err := t.Load({}, false, readOk, now);
      return;
    }
    var fileErr := s.LoadPermanent(readOk, removeOk);
    var loadErr := t.Load(s.permanent, true, readOk, now);
    err := fileErr || loadErr;
  }
}
