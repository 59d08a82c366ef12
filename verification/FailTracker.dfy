// The failure tracker: each method is one section under its lock. Writes of the state file and of the
// permanent-block file may fail; their outcome is a parameter.
module FailTracker {
  import opened Timestamps
  import opened FailModel
  import opened SuccessMarks
  import opened TrackerSteps

  class FailState {
    var authFailures: seq<int>
    var protocolFailures: seq<int>
    var blockedUntil: Deadline
    var lastSeen: int

    constructor (now: int)
      ensures Value() == Entry([], [], Unset, now)
    {
      authFailures, protocolFailures, blockedUntil, lastSeen := [], [], Unset, now;
    }

    function Value(): Entry
      reads this
    {
      Entry(authFailures, protocolFailures, blockedUntil, lastSeen)
    }
  }

  type States = map<string, FailState>

  ghost predicate Distinct(items: States) {
    forall a, b | a in items && b in items && a != b :: items[a] != items[b]
  }

  ghost function ViewOf(items: States): Entries
    reads items.Values
  {
    map key | key in items :: items[key].Value()
  }

  lemma ViewKeys(items: States)
    ensures ViewOf(items).Keys == items.Keys && |ViewOf(items)| == |items|
  {
    assert ViewOf(items).Keys == items.Keys;
    assert |ViewOf(items)| == |ViewOf(items).Keys| && |items| == |items.Keys|;
  }

  lemma ViewWithout(items: States, key: string)
    ensures ViewOf(items - {key}) == ViewOf(items) - {key}
    ensures Distinct(items) ==> Distinct(items - {key})
  {
  }

  lemma InvSize(m: Entries, permanent: set<string>, disk: map<string, int>, g: Ledger, cfg: Limits)
    requires Inv(m, permanent, disk, g, cfg)
    ensures |m| <= Bound(g, cfg) && m.Keys !! permanent
  {
  }

  /** How two outside operations of a promotion end: the append to the permanent-block file, and the write of the
      state file at the given time. */
  datatype Outcome = Outcome(appendOk: bool, saveNow: int, saveOk: bool)

  /** What a protocol failure that completes the limit leaves of a table with the address in place. */
  ghost predicate Promoted(before: Shared, after: Shared, base: Entries, key: string, o: Outcome)
    requires key in base
  {
    && after.entries == (if o.appendOk then base - {key} else base[key := Entry([], [], Unset, base[key].lastSeen)])
    && after.permanent == before.permanent + (if o.appendOk then {key} else {})
    && after.disk == (if o.appendOk && o.saveOk then Saved(after.entries, o.saveNow) else before.disk)
    && after.ledger.promised == before.ledger.promised - {key}
    && History(after.ledger.failures, key) == [] && History(after.ledger.protocols, key) == []
  }

  /** What a protocol failure does to an address in the table. */
  ghost predicate TrackedCounted(before: Shared, after: Shared, base: Entries, key: string, now: int, o: Outcome,
                                 cfg: Limits)
    requires key in base
  {
    if CompletesProtocol(base[key], now, cfg) then Promoted(before, after, base, key, o)
    else
      && after.entries == base[key := ProtocolFailed(base[key], now, cfg)]
      && after.permanent == before.permanent && after.disk == before.disk
      && after.ledger.promised == before.ledger.promised
      && History(after.ledger.protocols, key) == History(before.ledger.protocols, key) + [now]
  }

  lemma CountedFrom(start: Shared, found: Shared, after: Shared, base: Entries, key: string, now: int, o: Outcome,
                    cfg: Limits)
    requires key in base && TrackedCounted(found, after, base, key, now, o, cfg)
    requires start.permanent == found.permanent && start.disk == found.disk
    requires start.ledger.promised == found.ledger.promised
    requires History(start.ledger.protocols, key) == History(found.ledger.protocols, key)
    ensures TrackedCounted(start, after, base, key, now, o, cfg)
  {
    hide CompletesProtocol, ProtocolFailed, Saved, History;
  }

  /** What a protocol failure of an unprotected address does: nothing if the address is refused; otherwise it is
      counted, and the one that completes the limit promotes the address, if the file takes it. */
  ghost predicate ProtocolCounted(before: Shared, after: Shared, t: Tracking, key: string, now: int, o: Outcome,
                                  promoted: bool, cfg: Limits) {
    && (promoted <==> t.tracked && o.appendOk && CompletesProtocol(Found(before.entries, key), now, cfg))
    && if t.tracked then
         && Placed(before.entries, t.room, t.base, before.permanent, key, t.victim, now, cfg)
         && t.base[key] == Found(before.entries, key).(lastSeen := now)
         && TrackedCounted(before, after, t.base, key, now, o, cfg)
       else
         && Refused(before.entries, after.entries, before.permanent, key, now, cfg)
         && after.permanent == before.permanent && after.disk == before.disk
         && after.ledger.promised == before.ledger.promised
  }

  lemma SeenLater(e: Entry, now: int, cfg: Limits)
    ensures CompletesProtocol(e.(lastSeen := now), now, cfg) == CompletesProtocol(e, now, cfg)
  {
  }

  /** How an address came into the table, or that it did not: the address evicted for it, the table before and the
      table after it was put in place. */
  datatype Tracking = Tracking(tracked: bool, victim: string, room: Entries, base: Entries)

  class Tracker {
    const cfg: Limits
    const parseIP: string -> string   // the canonical spelling of an address, or "" for anything else
    const dayOf: int -> int
    var items: States
    var permanent: set<string>
    var disk: map<string, int>        // what the state file holds
    var marks: Marks
    ghost var ledger: Ledger
    ghost var readings: seq<Reading>  // every section that looked at the date

    ghost function View(): Entries
      reads `items, items.Values
    {
      ViewOf(items)
    }

    ghost function Now(): Shared
      reads `items, `permanent, `disk, `ledger, items.Values
    {
      Shared(View(), permanent, disk, ledger)
    }

    ghost predicate Valid()
      reads `items, `permanent, `disk, `marks, `ledger, `readings, items.Values
    {
      && Distinct(items) && "" !in items && Inv(View(), permanent, disk, ledger, cfg)
      && marks == MarksAfter(readings, cfg.maxItems)
    }

    constructor (window: int, limit: int, blockFor: int, maxItems: int, parseIP: string -> string, dayOf: int -> int,
                 disk: map<string, int>, now: int)
      ensures Valid() && items == map[] && permanent == {} && this.disk == disk && ledger.clock == now && readings == []
      ensures cfg == Limits(window, limit, blockFor, if maxItems <= 0 then 8192 else maxItems)
      ensures this.parseIP == parseIP && this.dayOf == dayOf
    {
      cfg := Limits(window, limit, blockFor, if maxItems <= 0 then 8192 else maxItems);
      this.parseIP, this.dayOf := parseIP, dayOf;
      items, permanent, this.disk := map[], {}, disk;
      marks, readings := Marks(NoDay, {}), [];
      ledger := Ledger(map[], map[], map[], now, false, 0);
    }

    /** The start: the blocks of the state file that still run, and the addresses the permanent-block file lists.
        An unreadable file ends it. The size of the table is not looked at. */
    method Load(listed: set<string>, stateOk: bool, permanentOk: bool, now: int) returns (err: bool)
      requires Valid() && items == map[] && permanent == {} && ledger.clock <= now
      modifies `items, `permanent, `ledger
      ensures Valid()
      ensures err <==> !(stateOk && permanentOk)
      ensures !stateOk ==> items == map[] && permanent == {} && ledger == old(ledger)
      ensures stateOk ==>
                && permanent == (if permanentOk then listed else {})
                && View() == Loaded(disk, permanent, now) && ledger == LoadedLedger(disk, permanent, now)
    {
      if !stateOk {
        return true;
      }
      assert cfg.maxItems > 0;
      hide Inv, MarksAfter, ViewOf, Distinct, Loaded, LoadedPart, LoadedLedger;
      LoadBlocks(now);
      LoadPermanent(if permanentOk then listed else {}, now);
      err := !permanentOk;
    }

    method LoadPermanent(listed: set<string>, now: int)
      requires Distinct(items) && "" !in items && View() == LoadedPart(disk, {}, now)
      requires cfg.maxItems > 0 && marks == MarksAfter(readings, cfg.maxItems)
      modifies `items, `permanent, `ledger
      ensures Valid() && permanent == listed
      ensures items == old(items) - listed && View() == Loaded(disk, listed, now)
      ensures ledger == LoadedLedger(disk, listed, now)
    {
      hide Inv, MarksAfter, ViewOf, Distinct, Loaded, LoadedPart, LoadedLedger;
      LoadedPartBounds(disk, listed, now);
      LoadedHasInv(disk, listed, now, cfg);
      ForgetKeys(listed);
      permanent := listed;
      ledger := LoadedLedger(disk, permanent, now);
    }

    method LoadBlocks(now: int)
      requires items == map[]
      modifies `items
      ensures Distinct(items) && "" !in items && forall key | key in items :: fresh(items[key])
      ensures View() == LoadedPart(disk, {}, now)
    {
      assert Distinct(items) && View() == map[];
      LoadedPartBounds(disk, {}, now);
      ViewKeys(items);
      hide LoadedPart, ViewOf, Distinct;
      var todo := disk.Keys;
      while todo != {}
        invariant todo <= disk.Keys && Distinct(items) && "" !in items
        invariant forall key | key in items :: fresh(items[key])
        invariant View() == LoadedPart(disk, todo, now)
      {
        var key :| key in todo;
        LoadBlock(key, now, todo);
        todo := todo - {key};
      }
    }

    method LoadBlock(key: string, now: int, ghost todo: set<string>)
      requires key in todo && todo <= disk.Keys && Distinct(items) && "" !in items
      requires View() == LoadedPart(disk, todo, now)
      modifies `items
      ensures Distinct(items) && "" !in items && View() == LoadedPart(disk, todo - {key}, now)
      ensures forall k | k in items :: fresh(items[k]) || (k in old(items) && items[k] == old(items)[k])
    {
      LoadedPartStep(disk, todo, key, now);
      ViewKeys(items);
      hide LoadedPart, ViewOf, Distinct;
      if key != "" && disk[key] > now {
        AddBlocked(key, disk[key], now);
      }
    }

    method AddBlocked(key: string, until: int, now: int)
      requires Distinct(items) && "" !in items && key != "" && key !in items
      modifies `items
      ensures Distinct(items) && "" !in items
      ensures items.Keys == old(items).Keys + {key} && fresh(items[key])
      ensures forall other | other in old(items) :: items[other] == old(items)[other]
      ensures View() == old(View())[key := Entry([], [], Until(until), now)]
    {
      var st := new FailState(now);
      st.blockedUntil := Until(until);
      items := items[key := st];
    }

    method ForgetKeys(keys: set<string>)
      requires Distinct(items)
      modifies `items
      ensures items == old(items) - keys && View() == old(View()) - keys && Distinct(items)
    {
      items := items - keys;
    }

    /** Writes the running blocks; a failed write leaves the file as it was. */
    method SaveLocked(now: int, ok: bool)
      requires Valid() && ledger.clock <= now
      modifies `disk, `ledger
      ensures Valid() && ledger == old(ledger).(clock := now, synced := ok)
      ensures disk == if ok then Saved(View(), now) else old(disk)
      ensures Reaches(old(Now()), Now(), cfg)
    {
      hide Inv, Reaches, Apply, Enabled;
      SavesTo(Now(), now, ok, cfg);
      SaveKeepsInv(View(), permanent, disk, ledger, now, cfg);
      if ok {
        disk := map key | key in items && items[key].blockedUntil.After(now) :: items[key].blockedUntil.time;
        assert disk == Saved(View(), now);
      }
      ledger := ledger.(clock := now, synced := ok);
    }

    method CleanEntry(key: string, st: FailState, now: int)
      requires Distinct(items) && key in items && items[key] == st
      modifies `items, st
      ensures View() == if Dead(Cleaned(old(View())[key], now, cfg)) then old(View()) - {key}
                        else old(View())[key := Cleaned(old(View())[key], now, cfg)]
      ensures items == old(items) || items == old(items) - {key}
    {
      hide Cleaned;
      assert key in View() && View()[key] == st.Value();
      CleanFields(st, now);
      assert View() == old(View())[key := st.Value()];
      if st.blockedUntil == Unset && |st.authFailures| == 0 && |st.protocolFailures| == 0 {
        ViewWithout(items, key);
        items := items - {key};
      }
    }

    method CleanFields(st: FailState, now: int)
      modifies st
      ensures st.Value() == Cleaned(old(st.Value()), now, cfg)
    {
      st.authFailures := KeepRecent(st.authFailures, now - cfg.window);
      st.protocolFailures := KeepRecent(st.protocolFailures, now - cfg.window);
      if st.blockedUntil != Unset && !st.blockedUntil.After(now) {
        st.blockedUntil := Unset;
      }
    }

    method CleanupLocked(now: int)
      requires Distinct(items)
      modifies `items, items.Values
      ensures View() == CleanAll(old(View()), now, cfg)
      ensures Distinct(items) && forall key | key in items :: key in old(items) && items[key] == old(items)[key]
    {
      hide Swept, CleanAll, Cleaned, Dead;
      ghost var before, was := items, View();
      SweepBounds(was, now, cfg);
      ViewKeys(items);
      var todo := items.Keys;
      while todo != {}
        invariant todo <= was.Keys && Distinct(items)
        invariant forall key | key in items :: key in before && items[key] == before[key]
        invariant View() == Swept(was, todo, now, cfg)
      {
        var key :| key in todo;
        SweepStep(was, todo, key, now, cfg);
        assert key in View();
        todo := todo - {key};
        CleanEntry(key, items[key], now);
      }
    }

    /** The address seen longest ago among those not blocked now, or "" if all are. */
    method OldestUnblocked(now: int) returns (oldestKey: string)
      requires "" !in items
      ensures oldestKey == "" ==> forall key | key in View() :: View()[key].blockedUntil.After(now)
      ensures oldestKey != "" ==> OldestUnblockedIn(View(), oldestKey, now)
    {
      oldestKey := "";
      var oldest := 0;
      var todo := items.Keys;
      while todo != {}
        invariant todo <= items.Keys
        invariant oldestKey == "" ==> forall key | key in items && key !in todo :: items[key].blockedUntil.After(now)
        invariant oldestKey != "" ==>
                    oldestKey in items && !items[oldestKey].blockedUntil.After(now) && oldest == items[oldestKey].lastSeen
        invariant oldestKey != "" ==> forall key | key in items && key !in todo && !items[key].blockedUntil.After(now) ::
                                        oldest <= items[key].lastSeen
      {
        var candidate :| candidate in todo;
        todo := todo - {candidate};
        var state := items[candidate];
        if !state.blockedUntil.After(now) && (oldestKey == "" || state.lastSeen < oldest) {
          oldestKey, oldest := candidate, state.lastSeen;
        }
      }
    }

    method EvictLocked(key: string)
      requires Valid() && key in View() && !View()[key].blockedUntil.After(ledger.clock)
      modifies `items, `ledger
      ensures Valid() && ledger == Evicted(old(ledger), key) && View() == old(View()) - {key}
      ensures items == old(items) - {key} && |View()| == |old(View())| - 1
      ensures Reaches(old(Now()), Now(), cfg)
    {
      hide Inv, Distinct, ViewOf, Reaches, Apply, Enabled;
      EvictsTo(Now(), key, cfg);
      EvictKeepsInv(View(), key, permanent, disk, ledger, cfg);
      ViewWithout(items, key);
      items := items - {key};
      ledger := Evicted(ledger, key);
    }

    /** Makes room for a new address; it fails only if every tracked address is blocked. */
    method MakeRoomLocked(now: int) returns (ok: bool, ghost victim: string)
      requires Valid() && ledger.clock == now
      modifies `items, `ledger, items.Values
      ensures Valid() && ledger.clock == now && ledger.promised == old(ledger).promised
      ensures forall key | key in items :: key in old(items) && items[key] == old(items)[key]
      ensures ok ==> |View()| < Bound(ledger, cfg) && RoomMade(old(View()), View(), victim, now, cfg)
      ensures !ok ==> forall key | key in View() :: View()[key].blockedUntil.After(now)
      ensures !ok ==> ledger == old(ledger) && |old(View())| >= cfg.maxItems
      ensures !ok ==> View() == CleanAll(old(View()), now, cfg) && |View()| >= cfg.maxItems
      ensures ledger == old(ledger) || (victim in old(items) && ledger == Evicted(old(ledger), victim))
      ensures |old(View())| < cfg.maxItems ==> ok
      ensures Reaches(old(Now()), Now(), cfg)
    {
      hide Inv, CleanAll, ViewOf, Distinct, Reaches, Apply, Enabled, MarksAfter, OldestUnblockedIn;
      victim := "";
      ghost var start := Now();
      Stays(start, cfg);
      ViewKeys(items);
      InvSize(View(), permanent, disk, ledger, cfg);
      if |items| >= cfg.maxItems {
        CleanAllKeepsInv(View(), permanent, disk, ledger, now, cfg);
        CleansUpTo(start, now, cfg);
        CleanupLocked(now);
        ViewKeys(items);
      }
      ok := true;
      if |items| >= cfg.maxItems {
        InvSize(View(), permanent, disk, ledger, cfg);
        var oldestKey := OldestUnblocked(now);
        victim := oldestKey;
        if oldestKey == "" {
          return false, victim;
        }
        ghost var cleaned := Now();
        EvictLocked(oldestKey);
        Continues(start, cleaned, Now(), cfg);
      }
    }

    lemma NotFound(m: Entries, room: Entries, key: string, victim: string, now: int)
      requires key !in m && RoomMade(m, room, victim, now, cfg)
      ensures key !in room
    {
    }

    /** Looks an address up for an update; room is the table before it is put in place. */
    method TrackStateLocked(key: string, now: int) returns (st: FailState?, ghost victim: string, ghost room: Entries)
      requires Valid() && ledger.clock == now
      modifies `items, `ledger, items.Values
      ensures Valid() && ledger.clock == now && ledger.promised == old(ledger).promised
      ensures if st == null then Refused(old(View()), View(), permanent, key, now, cfg)
              else Placed(old(View()), room, View(), permanent, key, victim, now, cfg)
      ensures key != "" && key !in permanent && (key in old(items) || |old(View())| < cfg.maxItems) ==> st != null
      ensures st != null ==>
                && key !in permanent && key in items && items[key] == st && (st in old(items.Values) || fresh(st))
                && key in View() && st.Value() == View()[key] && View()[key] == Found(old(View()), key).(lastSeen := now)
      ensures key in old(items) ==> ledger == old(ledger)
      ensures History(ledger.failures, key) == History(old(ledger).failures, key)
      ensures History(ledger.protocols, key) == History(old(ledger).protocols, key)
      ensures Reaches(old(Now()), Now(), cfg)
    {
      hide Inv, RoomMade, CleanAll, ViewOf, Distinct, Reaches, Apply, Enabled;
      Stays(Now(), cfg);
      ViewKeys(items);
      if key == "" || key in permanent {
        return null, "", View();
      }
      if key in items {
        room, victim := View(), "";
        InvSize(View(), permanent, disk, ledger, cfg);
        st := Place(key, now);
        return st, victim, room;
      }
      st, victim, room := TrackNew(key, now);
    }

    method TrackNew(key: string, now: int) returns (st: FailState?, ghost victim: string, ghost room: Entries)
      requires Valid() && ledger.clock == now && key != "" && key !in items && key !in permanent
      modifies `items, `ledger, items.Values
      ensures Valid() && ledger.clock == now && ledger.promised == old(ledger).promised
      ensures st == null ==> |old(View())| >= cfg.maxItems && Refused(old(View()), View(), permanent, key, now, cfg)
      ensures st != null ==>
                && RoomMade(old(View()), room, victim, now, cfg) && View() == room[key := Entry([], [], Unset, now)]
                && key !in room && key in items && items[key] == st && fresh(st) && st.Value() == View()[key]
      ensures History(ledger.failures, key) == History(old(ledger).failures, key)
      ensures History(ledger.protocols, key) == History(old(ledger).protocols, key)
      ensures Reaches(old(Now()), Now(), cfg)
    {
      hide Inv, RoomMade, CleanAll, ViewOf, Distinct, Reaches, Apply, Enabled;
      ghost var start := Now();
      ViewKeys(items);
      var ok;
      ok, victim := MakeRoomLocked(now);
      ViewKeys(items);
      room := View();
      if !ok {
        return null, victim, room;
      }
      NotFound(old(View()), room, key, victim, now);
      ghost var placed := Now();
      st := Place(key, now);
      Continues(start, placed, Now(), cfg);
    }

    method Place(key: string, now: int) returns (st: FailState)
      requires Valid() && ledger.clock == now && key != "" && key !in permanent
      requires key in items || |View()| < Bound(ledger, cfg)
      modifies `items, items.Values
      ensures Valid() && key in items && items[key] == st
      ensures if key in old(items) then st == old(items)[key] else fresh(st)
      ensures st.Value() == Found(old(View()), key).(lastSeen := now)
      ensures View() == old(View())[key := st.Value()]
      ensures Reaches(old(Now()), Now(), cfg)
    {
      hide Inv, ViewOf, Distinct, Reaches, Apply, Enabled, MarksAfter;
      ViewKeys(items);
      TrackKeepsInv(View(), key, permanent, disk, ledger, cfg);
      TracksTo(Now(), key, cfg);
      st := FindOrAdd(key, now);
    }

    method FindOrAdd(key: string, now: int) returns (st: FailState)
      requires Distinct(items) && "" !in items && key != ""
      modifies `items, items.Values
      ensures Distinct(items) && "" !in items && key in items && items[key] == st
      ensures if key in old(items) then st == old(items)[key] else fresh(st)
      ensures st.Value() == Found(old(View()), key).(lastSeen := now)
      ensures View() == old(View())[key := st.Value()]
    {
      if key in items {
        st := items[key];
        st.lastSeen := now;
      } else {
        st := new FailState(now);
        items := items[key := st];
      }
    }

    /** Records an authentication failure; the one that completes the limit starts a temporary block. base is the
        table with the address in place. */
    method AddFailure(key: string, now: int, saveNow: int, saveOk: bool)
      returns (tracked: bool, ghost victim: string, ghost room: Entries, ghost base: Entries)
      requires Valid() && ledger.clock <= now <= saveNow
      modifies `items, `disk, `ledger, items.Values
      ensures Valid()
      ensures key != "" && key !in permanent && (key in old(items) || |old(View())| < cfg.maxItems) ==> tracked
      ensures !tracked ==> Refused(old(View()), View(), permanent, key, now, cfg)
      ensures tracked ==> Placed(old(View()), room, base, permanent, key, victim, now, cfg)
      ensures tracked ==> View() == base[key := Failed(base[key], now, cfg)]
      ensures Blocks(Found(old(View()), key), now, cfg) <==>
              |Recent(History(old(ledger).failures, key), now - cfg.window)| + 1 >= cfg.limit
      ensures tracked && Blocks(Found(old(View()), key), now, cfg) ==>
                && ledger.promised == old(ledger).promised[key := now + cfg.blockFor]
                && History(ledger.failures, key) == [] && ledger.synced == saveOk
                && disk == (if saveOk then Saved(View(), saveNow) else old(disk))
      ensures tracked && !Blocks(Found(old(View()), key), now, cfg) ==>
                && ledger.promised == old(ledger).promised && disk == old(disk)
                && History(ledger.failures, key) == History(old(ledger).failures, key) + [now]
      ensures !tracked ==> ledger.promised == old(ledger).promised && disk == old(disk)
      ensures Reaches(old(Now()), Now(), cfg)
    {
      hide Inv, RoomMade, ViewOf, Recent, Distinct, Failed, FailureNoted, History, MarksAfter, Reaches, Apply, Enabled,
           Refused, Placed;
      BlockDecisionIsExact(View(), key, permanent, disk, ledger, now, cfg);
      TickKeepsInv(View(), permanent, disk, ledger, now, cfg);
      ghost var start := Now();
      ReadsClockTo(start, now, cfg);
      ledger := ledger.At(now);
      ghost var ticked := Now();
      ViewKeys(items);
      var st;
      st, victim, room := TrackStateLocked(key, now);
      Continues(start, ticked, Now(), cfg);
      base := View();
      tracked := st != null;
      if !tracked || key in permanent {
        return false, victim, room, base;
      }
      ghost var found := Now();
      RecordFailure(key, st, now, saveNow, saveOk);
      Continues(start, found, Now(), cfg);
    }

    method RecordFailure(key: string, st: FailState, now: int, saveNow: int, saveOk: bool)
      requires Valid() && ledger.clock == now <= saveNow && key in items && items[key] == st && key in View()
      modifies `disk, `ledger, st
      ensures Valid() && View() == old(View())[key := Failed(old(View())[key], now, cfg)]
      ensures var noted := FailureNoted(old(ledger), key, Blocks(old(View())[key], now, cfg), cfg);
              if Blocks(old(View())[key], now, cfg)
              then ledger == noted.(clock := saveNow, synced := saveOk)
                   && disk == if saveOk then Saved(View(), saveNow) else old(disk)
              else ledger == noted && disk == old(disk)
      ensures History(ledger.failures, key) ==
                if Blocks(old(View())[key], now, cfg) then [] else History(old(ledger).failures, key) + [now]
      ensures ledger.promised == if Blocks(old(View())[key], now, cfg) then old(ledger).promised[key := now + cfg.blockFor]
                                 else old(ledger).promised
      ensures Reaches(old(Now()), Now(), cfg)
    {
      hide Inv, ViewOf, Distinct, Recent, Failed, Reaches, Apply, Enabled;
      ghost var start := Now();
      FailsTo(start, key, cfg);
      FailureKeepsInv(View(), key, permanent, disk, ledger, cfg);
      ghost var blocks := Blocks(View()[key], now, cfg);
      var blocked := NoteFailure(key, st, now);
      ledger := FailureNoted(ledger, key, blocks, cfg);
      if blocked {
        ghost var noted := Now();
        SaveLocked(saveNow, saveOk);
        Continues(start, noted, Now(), cfg);
      }
    }

    method NoteFailure(key: string, st: FailState, now: int) returns (blocked: bool)
      requires Distinct(items) && key in items && items[key] == st
      modifies st
      ensures key in old(View()) && View() == old(View())[key := Failed(old(View())[key], now, cfg)]
      ensures blocked == Blocks(old(View())[key], now, cfg)
    {
      assert key in View() && View()[key] == st.Value();
      blocked := FailFields(st, now);
      assert View() == old(View())[key := st.Value()];
    }

    method FailFields(st: FailState, now: int) returns (blocked: bool)
      modifies st
      ensures st.Value() == Failed(old(st.Value()), now, cfg)
      ensures blocked == Blocks(old(st.Value()), now, cfg)
    {
      blocked := false;
      st.authFailures := KeepRecent(st.authFailures, now - cfg.window);
      st.authFailures := st.authFailures + [now];
      st.lastSeen := now;
      if |st.authFailures| >= cfg.limit {
        st.blockedUntil := Until(now + cfg.blockFor);
        st.authFailures := [];
        blocked := true;
      }
    }

    /** Records a protocol failure; the one that completes the limit makes the block permanent, unless the
        address is protected today or the permanent-block file cannot be written. */
    method AddProtocolFailure(rawKey: string, now: int, appendOk: bool, saveNow: int, saveOk: bool)
      returns (promoted: bool, ghost t: Tracking)
      requires Valid() && ledger.clock <= now <= saveNow
      modifies `items, `permanent, `disk, `marks, `ledger, `readings, items.Values
      ensures Valid() && readings == old(readings) + [Check(dayOf(now))]
      ensures var key := if parseIP(rawKey) != "" then parseIP(rawKey) else rawKey;
              var safe := Protected(old(readings), key, dayOf(now), cfg.maxItems);
              && permanent == old(permanent) + (if promoted then {key} else {})
              && (safe ==> !promoted && old(Now()) == Now())
              && (!safe ==>
                    && ProtocolCounted(old(Now()), Now(), t, key, now, Outcome(appendOk, saveNow, saveOk), promoted, cfg)
                    && (old(Promotable(key, now)) && appendOk ==> promoted))
              && (promoted ==>
                    && appendOk && key !in items && key !in old(permanent) && !safe
                    && CompletesProtocol(Found(old(View()), key), now, cfg))
              && (CompletesProtocol(Found(old(View()), key), now, cfg) <==>
                  |Recent(History(old(ledger).protocols, key), now - cfg.window)| + 1 >= cfg.limit)
      ensures Reaches(old(Now()), Now(), cfg)
    {
      hide Inv, MarksAfter, ViewOf, Distinct, Recent, Protected, Reaches, Apply, Enabled, ProtocolCounted,
           CompletesProtocol;
      Stays(Now(), cfg);
      t := Tracking(false, "", View(), View());
      var key := if parseIP(rawKey) != "" then parseIP(rawKey) else rawKey;
      PromotionDecisionIsExact(View(), key, permanent, disk, ledger, now, cfg);
      var successful := SuccessfulTodayLocked(key, now);
      if successful {
        promoted := false;
        return;
      }
      promoted, t := CountProtocolFailure(key, now, appendOk, saveNow, saveOk);
    }

    /** One more protocol failure completes the limit, and the table has or takes the address. */
    ghost predicate Promotable(key: string, now: int)
      reads `items, `permanent, items.Values
    {
      && key != "" && key !in permanent && (key in items || |View()| < cfg.maxItems)
      && CompletesProtocol(Found(View(), key), now, cfg)
    }

    method SuccessfulTodayLocked(key: string, now: int) returns (successful: bool)
      requires Valid()
      modifies `marks, `readings
      ensures Valid() && readings == old(readings) + [Check(dayOf(now))]
      ensures successful == Protected(old(readings), key, dayOf(now), cfg.maxItems)
    {
      hide Inv, ViewOf, Distinct, MarksAfter;
      MarksAfterOne(readings, Check(dayOf(now)), cfg.maxItems);
      marks := Rotated(marks, dayOf(now));
      readings := readings + [Check(dayOf(now))];
      successful := key in marks.ips;
    }

    method CountProtocolFailure(key: string, now: int, appendOk: bool, saveNow: int, saveOk: bool)
      returns (promoted: bool, ghost t: Tracking)
      requires Valid() && ledger.clock <= now <= saveNow
      modifies `items, `permanent, `disk, `ledger, items.Values
      ensures Valid()
      ensures ProtocolCounted(old(Now()), Now(), t, key, now, Outcome(appendOk, saveNow, saveOk), promoted, cfg)
      ensures permanent == if promoted then old(permanent) + {key} else old(permanent)
      ensures promoted ==>
                && appendOk && key !in items && key !in old(permanent)
                && CompletesProtocol(Found(old(View()), key), now, cfg)
      ensures old(Promotable(key, now)) && appendOk ==> promoted
      ensures Reaches(old(Now()), Now(), cfg)
    {
      hide Inv, MarksAfter, RoomMade, ViewOf, Recent, Distinct, Reaches, Apply, Enabled, Refused, Placed,
           CompletesProtocol, History, TrackedCounted;
      ghost var start := Now();
      ReadsClockTo(start, now, cfg);
      InvSize(View(), permanent, disk, ledger, cfg);
      ViewKeys(items);
      TickKeepsInv(View(), permanent, disk, ledger, now, cfg);
      ledger := ledger.At(now);
      ghost var ticked := Now();
      var st;
      ghost var victim, room;
      st, victim, room := TrackStateLocked(key, now);
      Continues(start, ticked, Now(), cfg);
      t := Tracking(st != null, victim, room, View());
      if st == null || key in permanent {
        promoted := false;
        return;
      }
      ghost var found := Now();
      SeenLater(Found(old(View()), key), now, cfg);
      promoted := CountTracked(key, st, now, appendOk, saveNow, saveOk);
      CountedFrom(start, found, Now(), t.base, key, now, Outcome(appendOk, saveNow, saveOk), cfg);
      Continues(start, found, Now(), cfg);
    }

    /** Counts a protocol failure of an address in the table. */
    method CountTracked(key: string, st: FailState, now: int, appendOk: bool, saveNow: int, saveOk: bool)
      returns (promoted: bool)
      requires Valid() && ledger.clock == now <= saveNow && key in items && items[key] == st && key !in permanent
      requires key in View() && View()[key].lastSeen == now
      modifies `items, `permanent, `disk, `ledger, st
      ensures Valid() && promoted == (CompletesProtocol(old(View())[key], now, cfg) && appendOk)
      ensures promoted ==> key !in items
      ensures permanent == if promoted then old(permanent) + {key} else old(permanent)
      ensures TrackedCounted(old(Now()), Now(), old(View()), key, now, Outcome(appendOk, saveNow, saveOk), cfg)
      ensures Reaches(old(Now()), Now(), cfg)
    {
      hide Inv, MarksAfter, ViewOf, Recent, Distinct, Reaches, Apply, Enabled, CompletesProtocol, ProtocolFailed;
      ghost var found := Now();
      var limitReached := NoteProtocolFailure(key, st, now);
      if !limitReached {
        ProtocolFailureKeepsInv(found.entries, key, permanent, disk, ledger, cfg);
        ledger := ProtocolNoted(ledger, key);
        ProtocolFailsTo(found, key, cfg);
        return false;
      }
      promoted := PromoteLocked(key, st, appendOk, saveNow, saveOk, found.entries);
    }

    method NoteProtocolFailure(key: string, st: FailState, now: int) returns (limitReached: bool)
      requires Distinct(items) && key in items && items[key] == st
      modifies st`protocolFailures, st`lastSeen
      ensures key in old(View()) && View() == old(View())[key := ProtocolFailed(old(View())[key], now, cfg)]
      ensures limitReached == CompletesProtocol(old(View())[key], now, cfg)
    {
      assert key in View() && View()[key] == st.Value();
      st.protocolFailures := KeepRecent(st.protocolFailures, now - cfg.window);
      st.protocolFailures := st.protocolFailures + [now];
      st.lastSeen := now;
      limitReached := |st.protocolFailures| >= cfg.limit;
      assert View() == old(View())[key := st.Value()];
    }

    /** Resets the entry and moves the address to the permanent set if the file took it. found is the table before
        the failure that completed the limit was noted. */
    method PromoteLocked(key: string, st: FailState, appendOk: bool, saveNow: int, saveOk: bool, ghost found: Entries)
      returns (promoted: bool)
      requires Distinct(items) && "" !in items && marks == MarksAfter(readings, cfg.maxItems)
      requires Inv(found, permanent, disk, ledger, cfg) && key in found && CompletesProtocol(found[key], ledger.clock, cfg)
      requires View() == found[key := ProtocolFailed(found[key], ledger.clock, cfg)]
      requires key in items && items[key] == st && key !in permanent && ledger.clock <= saveNow
      requires found[key].lastSeen == ledger.clock
      modifies `items, `permanent, `disk, `ledger, st
      ensures Valid() && promoted == appendOk
      ensures promoted ==> key !in items
      ensures Promoted(Shared(found, old(permanent), old(disk), old(ledger)), Now(), found, key,
                       Outcome(appendOk, saveNow, saveOk))
      ensures Reaches(Shared(found, old(permanent), old(disk), old(ledger)), Now(), cfg)
    {
      hide Inv, MarksAfter, ViewOf, Distinct, Reaches, Apply, Enabled, CompletesProtocol;
      ghost var start := Shared(found, permanent, disk, ledger);
      ResetEntry(key, st);
      assert View() == found[key := Entry([], [], Unset, found[key].lastSeen)];
      if !appendOk {
        PromotionFailsTo(start, key, cfg);
        LiftKeepsInv(found, View(), key, permanent, permanent, disk, ledger, cfg);
        ledger := Lifted(ledger, key);
        return false;
      }
      LiftKeepsInv(found, found - {key}, key, permanent, permanent + {key}, disk, ledger, cfg);
      PromotesTo(start, key, cfg);
      assert View() - {key} == found - {key};
      ghost var lifted := Shared(found - {key}, permanent + {key}, disk, Lifted(ledger, key));
      MoveAndSave(key, saveNow, saveOk);
      Continues(start, lifted, Now(), cfg);
      return true;
    }

    method MoveAndSave(key: string, saveNow: int, saveOk: bool)
      requires Distinct(items) && "" !in items && marks == MarksAfter(readings, cfg.maxItems)
      requires Inv(View() - {key}, permanent + {key}, disk, Lifted(ledger, key), cfg) && ledger.clock <= saveNow
      modifies `items, `permanent, `disk, `ledger
      ensures Valid() && key !in items && View() == old(View()) - {key} && permanent == old(permanent) + {key}
      ensures ledger == Lifted(old(ledger), key).(clock := saveNow, synced := saveOk)
      ensures disk == if saveOk then Saved(View(), saveNow) else old(disk)
      ensures Reaches(Shared(old(View()) - {key}, old(permanent) + {key}, old(disk), Lifted(old(ledger), key)), Now(), cfg)
    {
      hide Inv, MarksAfter, ViewOf, Distinct, Reaches, Apply, Enabled;
      MoveToPermanent(key);
      SaveLocked(saveNow, saveOk);
    }

    method MoveToPermanent(key: string)
      requires Distinct(items)
      modifies `items, `permanent, `ledger
      ensures Distinct(items) && View() == old(View()) - {key} && items == old(items) - {key}
      ensures permanent == old(permanent) + {key} && ledger == Lifted(old(ledger), key)
    {
      ViewWithout(items, key);
      permanent := permanent + {key};
      items := items - {key};
      ledger := Lifted(ledger, key);
    }

    method ResetEntry(key: string, st: FailState)
      requires Distinct(items) && key in items && items[key] == st
      modifies st
      ensures key in old(View()) && View() == old(View())[key := Entry([], [], Unset, old(st.lastSeen))]
      ensures old(View())[key].lastSeen == old(st.lastSeen)
    {
      assert key in View() && View()[key] == st.Value();
      st.blockedUntil, st.authFailures, st.protocolFailures := Unset, [], [];
      assert View() == old(View())[key := st.Value()];
    }

    method Cleanup(now: int, saveNow: int, saveOk: bool)
      requires Valid() && ledger.clock <= now <= saveNow
      modifies `items, `disk, `ledger, items.Values
      ensures Valid() && View() == CleanAll(old(View()), now, cfg) && ledger.promised == old(ledger).promised
      ensures Reaches(old(Now()), Now(), cfg)
    {
      hide Inv, CleanAll, Reaches, Apply, Enabled;
      ghost var start := Now();
      CleansUpTo(start, now, cfg);
      CleanAllKeepsInv(View(), permanent, disk, ledger, now, cfg);
      CleanupLocked(now);
      ledger := ledger.At(now);
      if * {  // nothing was changed by the cleanup
        return;
      }
      ghost var cleaned := Now();
      SaveLocked(saveNow, saveOk);
      Continues(start, cleaned, Now(), cfg);
    }

    // The query of a block takes three steps; other sections may run between them.

    method HasPermanent(key: string) returns (found: bool)
      ensures found <==> key in permanent
    {
      found := key in permanent;
    }

    /** The section under the read lock: the deadline of the address, Unset if there is none. */
    method ReadDeadline(key: string) returns (deadline: Deadline)
      ensures deadline == if key in View() then View()[key].blockedUntil else Unset
      ensures forall now :: ReadAnswer(View(), key, now) ==
                if deadline == Unset then Final(NotBlocked) else if now < deadline.time then Final(Temporary) else LookAgain
    {
      if key !in items {
        return Unset;
      }
      deadline := items[key].blockedUntil;
    }

    /** The second locked section, with a clock reading that may be out of date by now. */
    method Recheck(key: string, now: int, saveNow: int, saveOk: bool) returns (kind: Kind)
      requires Valid() && now <= ledger.clock <= saveNow
      modifies `items, `disk, `ledger, items.Values
      ensures Valid() && ledger.promised == old(ledger).promised
      ensures kind == RecheckAnswer(old(View()), permanent, key, now)
      ensures View() == Rechecked(old(View()), permanent, key, now)
      ensures Reaches(old(Now()), Now(), cfg)
    {
      hide Inv, MarksAfter, Reaches, Apply, Enabled;
      ghost var start := Now();
      Stays(start, cfg);
      RechecksTo(start, key, now, cfg);
      RecheckKeepsInv(View(), permanent, disk, ledger, key, now, cfg);
      if key !in items {
        return NotBlocked;
      }
      var state := items[key];
      assert key in View() && View()[key] == state.Value();
      if key in permanent {
        return Permanent;
      }
      if state.blockedUntil == Unset || now < state.blockedUntil.time {
        return if state.blockedUntil == Unset then NotBlocked else Temporary;
      }
      ClearDeadline(key, state);
      ghost var cleared := Now();
      SaveLocked(saveNow, saveOk);
      Continues(start, cleared, Now(), cfg);
      return NotBlocked;
    }

    method ClearDeadline(key: string, state: FailState)
      requires Distinct(items) && key in items && items[key] == state
      modifies `items, state
      ensures Distinct(items) && (items == old(items) || items == old(items) - {key})
      ensures key in old(View()) && View() ==
                var e := old(View())[key].(blockedUntil := Unset);
                if e.auth == [] && e.protocol == [] then old(View()) - {key} else old(View())[key := e]
    {
      assert key in View() && View()[key] == state.Value();
      state.blockedUntil := Unset;
      assert View() == old(View())[key := state.Value()];
      if |state.authFailures| == 0 && |state.protocolFailures| == 0 {
        ViewWithout(items, key);
        items := items - {key};
      }
    }

    /** The query when nothing runs in between. */
    method BlockKind(key: string, now: int, saveNow: int, saveOk: bool) returns (kind: Kind)
      requires Valid() && ledger.clock <= now <= saveNow
      modifies `items, `disk, `ledger, items.Values
      ensures Valid() && ledger.promised == old(ledger).promised
      ensures kind == UndisturbedAnswer(old(View()), permanent, key, now)
      ensures Reaches(old(Now()), Now(), cfg)
    {
      hide Inv, ViewOf, Reaches, Apply, Enabled;
      ghost var start := Now();
      Stays(start, cfg);
      var found := HasPermanent(key);
      if found {
        return Permanent;
      }
      var deadline := ReadDeadline(key);
      assert ReadAnswer(View(), key, now) ==
        if deadline == Unset then Final(NotBlocked) else if now < deadline.time then Final(Temporary) else LookAgain;
      if deadline == Unset {
        return NotBlocked;
      }
      if now < deadline.time {
        return Temporary;
      }
      TickKeepsInv(View(), permanent, disk, ledger, now, cfg);
      ReadsClockTo(start, now, cfg);
      ledger := ledger.At(now);
      ghost var ticked := Now();
      kind := Recheck(key, now, saveNow, saveOk);
      Continues(start, ticked, Now(), cfg);
    }

    method Unblock(key: string, saveNow: int, saveOk: bool) returns (removed: bool)
      requires Valid() && ledger.clock <= saveNow
      modifies `items, `disk, `ledger
      ensures Valid() && removed == (key in old(items)) && View() == old(View()) - {key}
      ensures ledger.promised == old(ledger).promised - {key} && ledger.synced == saveOk
      ensures Reaches(old(Now()), Now(), cfg)
    {
      hide Inv, Reaches, Apply, Enabled, MarksAfter, ViewOf, Distinct;
      ghost var start := Now();
      UnblocksTo(start, key, cfg);
      removed := key in items;
      LiftKeepsInv(View(), View() - {key}, key, permanent, permanent, disk, ledger, cfg);
      ViewWithout(items, key);
      items := items - {key};
      ledger := Lifted(ledger, key);
      ghost var lifted := Now();
      SaveLocked(saveNow, saveOk);
      Continues(start, lifted, Now(), cfg);
    }

    /** What an unblock of permanent addresses does to the set. */
    method ForgetPermanent(keys: set<string>)
      requires Valid()
      modifies `permanent
      ensures Valid() && permanent == old(permanent) - keys
      ensures Reaches(old(Now()), Now(), cfg)
    {
      UnblocksAll(Now(), keys, cfg);
      FewerPermanentKeepInv(View(), permanent, keys, disk, ledger, cfg);
      hide Inv, MarksAfter, Reaches, Apply, Enabled;
      permanent := permanent - keys;
    }

    lemma TableHasRoom()
      requires Valid()
      ensures 0 < cfg.maxItems
    {
    }

    /** Notes a success of today; the clock was read before the lock was taken. */
    method MarkSuccessful(rawKey: string, now: int) returns (ok: bool)
      requires Valid()
      modifies `marks, `readings, `ledger, set key | key in items :: items[key]`protocolFailures
      ensures Valid()
      ensures readings == if parseIP(rawKey) == "" then old(readings)
                          else old(readings) + [Mark(parseIP(rawKey), dayOf(now))]
      ensures ok <==> parseIP(rawKey) != "" && Recorded(readings, |old(readings)|, parseIP(rawKey), dayOf(now), cfg.maxItems)
      ensures ok <==> && parseIP(rawKey) != ""
                      && (|| Protected(old(readings), parseIP(rawKey), dayOf(now), cfg.maxItems)
                          || |MarkedOn(old(readings), dayOf(now)) - {parseIP(rawKey)}| < cfg.maxItems)
      ensures View() == if ok then Forgotten(old(View()), parseIP(rawKey)) else old(View())
      ensures ledger == if ok then Succeeded(old(ledger), parseIP(rawKey)) else old(ledger)
      ensures Reaches(old(Now()), Now(), cfg)
    {
      hide Inv, ViewOf, Distinct, MarksAfter, Reaches, Apply, Enabled, MarkedOn;
      Stays(Now(), cfg);
      var key := parseIP(rawKey);
      if key == "" {
        return false;
      }
      MarksAfterOne(readings, Mark(key, dayOf(now)), cfg.maxItems);
      TableHasRoom();
      RecordedIff(readings, key, dayOf(now), cfg.maxItems);
      var r := Rotated(marks, dayOf(now));
      marks := Marked(marks, key, dayOf(now), cfg.maxItems);
      readings := readings + [Mark(key, dayOf(now))];
      assert readings[..|readings|] == readings;
      if key !in r.ips && |r.ips| >= cfg.maxItems {
        return false;
      }
      ForgetProtocolFailures(key);
      return true;
    }

    method ForgetProtocolFailures(key: string)
      requires Valid()
      modifies `ledger, set k | k in items :: items[k]`protocolFailures
      ensures Valid() && View() == Forgotten(old(View()), key) && ledger == Succeeded(old(ledger), key)
      ensures Reaches(old(Now()), Now(), cfg)
    {
      hide Inv, MarksAfter, ViewOf, Distinct, Reaches, Apply, Enabled;
      SucceedsTo(Now(), key, cfg);
      SuccessKeepsInv(View(), key, permanent, disk, ledger, cfg);
      ViewKeys(items);
      if key in items {
        ForgetFields(key, items[key]);
      }
      ledger := Succeeded(ledger, key);
    }

    method ForgetFields(key: string, state: FailState)
      requires Distinct(items) && key in items && items[key] == state
      modifies state`protocolFailures
      ensures key in old(View()) && View() == old(View())[key := old(View())[key].(protocol := [])]
    {
      assert key in View() && View()[key] == state.Value();
      state.protocolFailures := [];
      assert View() == old(View())[key := state.Value()];
    }
  }

  /** A marking of another address whose reading belongs to another day unprotects the address just recorded. */
  method MarkAndForget(t: Tracker, ip: string, other: string, now: int, staleNow: int)
    requires t.Valid() && t.parseIP(ip) == ip != "" && t.parseIP(other) == other != ""
    requires t.marks.ips == {} && t.dayOf(staleNow) != t.dayOf(now)
    modifies t`marks, t`readings, t`ledger, set key | key in t.items :: t.items[key]`protocolFailures
    ensures t.Valid() && t.View().Keys == old(t.View()).Keys && t.ledger.clock == old(t.ledger).clock
    ensures t.readings == old(t.readings) + [Mark(ip, t.dayOf(now))] + [Mark(other, t.dayOf(staleNow))]
    ensures Recorded(t.readings, |old(t.readings)|, ip, t.dayOf(now), t.cfg.maxItems)
    ensures !Protected(t.readings, ip, t.dayOf(now), t.cfg.maxItems)
  {
    assert 0 < t.cfg.maxItems;
    ghost var before := t.readings;
    ghost var after := before + [Mark(ip, t.dayOf(now))];
    FirstIsRecorded(before, ip, t.dayOf(now), t.cfg.maxItems);
    StaleReadingUnprotects(after, Mark(other, t.dayOf(staleNow)), ip, t.dayOf(now), t.cfg.maxItems);
    hide Inv, MarksAfter, ViewOf, Distinct, Protected;
    var marked := t.MarkSuccessful(ip, now);
    assert t.View().Keys == old(t.View()).Keys;
    var markedOther := t.MarkSuccessful(other, staleNow);
    assert t.readings[..|before| + 1] == after;
  }

  /** So a protocol failure that completes the limit promotes an address on the very day it was recorded. */
  method StaleMarkingPromotes(t: Tracker, ip: string, other: string, now: int, staleNow: int)
    returns (promoted: bool, ghost at: nat)
    requires t.Valid() && t.ledger.clock <= now && t.cfg.limit == 1 && |t.View()| < t.cfg.maxItems
    requires t.parseIP(ip) == ip != "" && t.parseIP(other) == other != "" && ip !in t.permanent
    requires t.marks.ips == {} && t.dayOf(staleNow) != t.dayOf(now)
    modifies t, t.items.Values
    ensures promoted && ip in t.permanent
    ensures Recorded(t.readings, at, ip, t.dayOf(now), t.cfg.maxItems)
  {
    hide Inv, MarksAfter, ViewOf, Distinct, Recent, FailModel.Found, Protected;
    at := |t.readings|;
    ghost var size := |t.View()|;
    assert |t.View().Keys| == |t.View()|;
    MarkAndForget(t, ip, other, now, staleNow);
    assert |t.View().Keys| == |t.View()|;
    assert t.Promotable(ip, now);
    ghost var stale := t.readings;
    ghost var tracking;
    promoted, tracking := t.AddProtocolFailure(ip, now, true, now, true);
    assert t.readings[..at + 1] == stale[..at + 1];
  }

  lemma FirstIsRecorded(readings: seq<Reading>, ip: string, day: int, maxItems: int)
    requires 0 < maxItems && MarksAfter(readings, maxItems).ips == {}
    ensures ip in MarksAfter(readings + [Mark(ip, day)], maxItems).ips
  {
    MarksAfterOne(readings, Mark(ip, day), maxItems);
  }
}
