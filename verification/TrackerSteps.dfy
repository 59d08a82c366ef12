// The failure tracker's shared state as a state machine: every change that a section under its lock makes, and the
// runs and paths that they form.
module TrackerSteps {
  import opened FailModel

  datatype Shared = Shared(entries: Entries, permanent: set<string>, disk: map<string, int>, ledger: Ledger)

  /** What other threads do to the shared state, each under the lock. A method of the tracker is one of these or a
      few in a row; UnblocksPermanently is the one change of the permanent set that takes no lock. */
  datatype Section =
    | ReadsClock(now: int)
    | CleansUp(now: int)
    | Evicts(key: string)
    | Tracks(key: string)
    | Fails(key: string)
    | ProtocolFails(key: string)
    | Promotes(key: string)
    | PromotionFails(key: string)
    | Succeeds(key: string)
    | Unblocks(key: string)
    | UnblocksPermanently(key: string)
    | Saves(now: int, ok: bool)
    | Rechecks(key: string, now: int)

  ghost predicate SharedInv(s: Shared, cfg: Limits) {
    Inv(s.entries, s.permanent, s.disk, s.ledger, cfg)
  }

  predicate Enabled(s: Shared, step: Section, cfg: Limits) {
    match step
    case ReadsClock(now) => s.ledger.clock <= now
    case CleansUp(now) => s.ledger.clock <= now
    case Evicts(key) => key in s.entries && !s.entries[key].blockedUntil.After(s.ledger.clock)
    case Tracks(key) => key !in s.permanent && (key in s.entries || |s.entries| < Bound(s.ledger, cfg))
    case Fails(key) => key in s.entries
    case ProtocolFails(key) => key in s.entries && !CompletesProtocol(s.entries[key], s.ledger.clock, cfg)
    case Promotes(key) => key in s.entries && CompletesProtocol(s.entries[key], s.ledger.clock, cfg)
    case PromotionFails(key) => key in s.entries && CompletesProtocol(s.entries[key], s.ledger.clock, cfg)
    case Succeeds(_) => true
    case Unblocks(_) => true
    case UnblocksPermanently(_) => true
    case Saves(now, _) => s.ledger.clock <= now
    case Rechecks(_, now) => now <= s.ledger.clock
  }

  function Apply(s: Shared, step: Section, cfg: Limits): Shared
    requires Enabled(s, step, cfg)
  {
    var m, g := s.entries, s.ledger;
    match step
    case ReadsClock(now) => s.(ledger := g.At(now))
    case CleansUp(now) => s.(entries := CleanAll(m, now, cfg), ledger := g.At(now))
    case Evicts(key) => s.(entries := m - {key}, ledger := Evicted(g, key))
    case Tracks(key) => s.(entries := m[key := Found(m, key).(lastSeen := g.clock)])
    case Fails(key) =>
      s.(entries := m[key := Failed(m[key], g.clock, cfg)],
         ledger := FailureNoted(g, key, Blocks(m[key], g.clock, cfg), cfg))
    case ProtocolFails(key) =>
      s.(entries := m[key := ProtocolFailed(m[key], g.clock, cfg)], ledger := ProtocolNoted(g, key))
    case Promotes(key) => s.(entries := m - {key}, permanent := s.permanent + {key}, ledger := Lifted(g, key))
    case PromotionFails(key) =>
      s.(entries := m[key := Entry([], [], Unset, m[key].lastSeen)], ledger := Lifted(g, key))
    case Succeeds(key) => s.(entries := Forgotten(m, key), ledger := Succeeded(g, key))
    case Unblocks(key) => s.(entries := m - {key}, ledger := Lifted(g, key))
    case UnblocksPermanently(key) => s.(permanent := s.permanent - {key})
    case Saves(now, ok) =>
      s.(disk := if ok then Saved(m, now) else s.disk, ledger := g.(clock := now, synced := ok))
    case Rechecks(key, now) => s.(entries := Rechecked(m, s.permanent, key, now))
  }

  lemma StepKeepsInv(s: Shared, step: Section, cfg: Limits)
    requires SharedInv(s, cfg) && Enabled(s, step, cfg)
    ensures SharedInv(Apply(s, step, cfg), cfg)
  {
    var m, p, d, g := s.entries, s.permanent, s.disk, s.ledger;
    hide Inv, CleanAll, Failed, FailureNoted, ProtocolFailed, ProtocolNoted, Forgotten, Succeeded, Lifted, Saved,
         Rechecked, Evicted;
    match step
    case ReadsClock(now) => TickKeepsInv(m, p, d, g, now, cfg);
    case CleansUp(now) => CleanAllKeepsInv(m, p, d, g, now, cfg);
    case Evicts(key) => EvictKeepsInv(m, key, p, d, g, cfg);
    case Tracks(key) => TrackKeepsInv(m, key, p, d, g, cfg);
    case Fails(key) => FailureKeepsInv(m, key, p, d, g, cfg);
    case ProtocolFails(key) => ProtocolFailureKeepsInv(m, key, p, d, g, cfg);
    case Promotes(key) => LiftKeepsInv(m, m - {key}, key, p, p + {key}, d, g, cfg);
    case PromotionFails(key) =>
      LiftKeepsInv(m, m[key := Entry([], [], Unset, m[key].lastSeen)], key, p, p, d, g, cfg);
    case Succeeds(key) => SuccessKeepsInv(m, key, p, d, g, cfg);
    case Unblocks(key) => LiftKeepsInv(m, m - {key}, key, p, p, d, g, cfg);
    case UnblocksPermanently(key) => FewerPermanentKeepInv(m, p, {key}, d, g, cfg);
    case Saves(now, ok) => SaveKeepsInv(m, p, d, g, now, cfg);
    case Rechecks(key, now) => RecheckKeepsInv(m, p, d, g, key, now, cfg);
  }

  /** A run from any state that satisfies the invariant, such as an empty or a freshly loaded tracker. */
  ghost predicate IsRun(run: seq<Shared>, steps: seq<Section>, cfg: Limits) {
    && |run| == |steps| + 1 && SharedInv(run[0], cfg)
    && forall i | 0 <= i < |steps| :: Enabled(run[i], steps[i], cfg) && run[i + 1] == Apply(run[i], steps[i], cfg)
  }

  lemma {:induction false} RunKeepsInv(run: seq<Shared>, steps: seq<Section>, cfg: Limits, i: nat)
    requires IsRun(run, steps, cfg) && i < |run|
    ensures SharedInv(run[i], cfg)
  {
    hide SharedInv, Enabled, Apply;
    if i > 0 {
      RunKeepsInv(run, steps, cfg, i - 1);
      StepKeepsInv(run[i - 1], steps[i - 1], cfg);
    }
  }

  // ---- Paths, to say what a method of the tracker amounts to ----

  ghost predicate IsPath(path: seq<Shared>, steps: seq<Section>, cfg: Limits) {
    && |path| == |steps| + 1
    && forall i | 0 <= i < |steps| :: Enabled(path[i], steps[i], cfg) && path[i + 1] == Apply(path[i], steps[i], cfg)
  }

  ghost predicate Joins(a: Shared, b: Shared, path: seq<Shared>, steps: seq<Section>, cfg: Limits) {
    IsPath(path, steps, cfg) && path[0] == a && path[|path| - 1] == b
  }

  /** The second state is the first one after some sections. */
  ghost predicate Reaches(a: Shared, b: Shared, cfg: Limits) {
    exists path: seq<Shared>, steps: seq<Section> :: Joins(a, b, path, steps, cfg)
  }

  lemma Stays(a: Shared, cfg: Limits)
    ensures Reaches(a, a, cfg)
  {
    assert Joins(a, a, [a], [], cfg);
  }

  lemma Takes(a: Shared, step: Section, cfg: Limits)
    requires Enabled(a, step, cfg)
    ensures Reaches(a, Apply(a, step, cfg), cfg)
  {
    assert Joins(a, Apply(a, step, cfg), [a, Apply(a, step, cfg)], [step], cfg);
  }

  lemma Continues(a: Shared, b: Shared, c: Shared, cfg: Limits)
    requires Reaches(a, b, cfg) && Reaches(b, c, cfg)
    ensures Reaches(a, c, cfg)
  {
    hide Apply, Enabled;
    var p, s :| Joins(a, b, p, s, cfg);
    var q, t :| Joins(b, c, q, t, cfg);
    var path, steps := p + q[1..], s + t;
    forall i | 0 <= i < |steps|
      ensures Enabled(path[i], steps[i], cfg) && path[i + 1] == Apply(path[i], steps[i], cfg)
    {
      if i < |s| {
        assert path[i] == p[i] && path[i + 1] == p[i + 1] && steps[i] == s[i];
      } else {
        assert path[i] == q[i - |s|] && path[i + 1] == q[i - |s| + 1] && steps[i] == t[i - |s|];
      }
    }
    assert Joins(a, c, path, steps, cfg);
  }

  // The steps one by one, for the methods that make them.

  lemma ReadsClockTo(a: Shared, now: int, cfg: Limits)
    requires a.ledger.clock <= now
    ensures Reaches(a, a.(ledger := a.ledger.At(now)), cfg)
  {
    hide Reaches;
    Takes(a, ReadsClock(now), cfg);
  }

  lemma CleansUpTo(a: Shared, now: int, cfg: Limits)
    requires a.ledger.clock <= now
    ensures Reaches(a, a.(entries := CleanAll(a.entries, now, cfg), ledger := a.ledger.At(now)), cfg)
  {
    hide Reaches;
    Takes(a, CleansUp(now), cfg);
  }

  lemma EvictsTo(a: Shared, key: string, cfg: Limits)
    requires key in a.entries && !a.entries[key].blockedUntil.After(a.ledger.clock)
    ensures Reaches(a, a.(entries := a.entries - {key}, ledger := Evicted(a.ledger, key)), cfg)
  {
    hide Reaches;
    Takes(a, Evicts(key), cfg);
  }

  lemma TracksTo(a: Shared, key: string, cfg: Limits)
    requires key !in a.permanent && (key in a.entries || |a.entries| < Bound(a.ledger, cfg))
    ensures Reaches(a, a.(entries := a.entries[key := Found(a.entries, key).(lastSeen := a.ledger.clock)]), cfg)
  {
    hide Reaches;
    Takes(a, Tracks(key), cfg);
  }

  lemma FailsTo(a: Shared, key: string, cfg: Limits)
    requires key in a.entries
    ensures Reaches(a, a.(entries := a.entries[key := Failed(a.entries[key], a.ledger.clock, cfg)],
                         ledger := FailureNoted(a.ledger, key, Blocks(a.entries[key], a.ledger.clock, cfg), cfg)), cfg)
  {
    hide Reaches;
    Takes(a, Fails(key), cfg);
  }

  lemma ProtocolFailsTo(a: Shared, key: string, cfg: Limits)
    requires key in a.entries && !CompletesProtocol(a.entries[key], a.ledger.clock, cfg)
    ensures Reaches(a, a.(entries := a.entries[key := ProtocolFailed(a.entries[key], a.ledger.clock, cfg)],
                         ledger := ProtocolNoted(a.ledger, key)), cfg)
  {
    hide Reaches;
    Takes(a, ProtocolFails(key), cfg);
  }

  lemma PromotesTo(a: Shared, key: string, cfg: Limits)
    requires key in a.entries && CompletesProtocol(a.entries[key], a.ledger.clock, cfg)
    ensures Reaches(a, Shared(a.entries - {key}, a.permanent + {key}, a.disk, Lifted(a.ledger, key)), cfg)
  {
    hide Reaches;
    Takes(a, Promotes(key), cfg);
  }

  lemma PromotionFailsTo(a: Shared, key: string, cfg: Limits)
    requires key in a.entries && CompletesProtocol(a.entries[key], a.ledger.clock, cfg)
    ensures Reaches(a, a.(entries := a.entries[key := Entry([], [], Unset, a.entries[key].lastSeen)],
                         ledger := Lifted(a.ledger, key)), cfg)
  {
    hide Reaches;
    Takes(a, PromotionFails(key), cfg);
  }

  lemma SucceedsTo(a: Shared, key: string, cfg: Limits)
    ensures Reaches(a, a.(entries := Forgotten(a.entries, key), ledger := Succeeded(a.ledger, key)), cfg)
  {
    hide Reaches;
    Takes(a, Succeeds(key), cfg);
  }

  lemma UnblocksTo(a: Shared, key: string, cfg: Limits)
    ensures Reaches(a, a.(entries := a.entries - {key}, ledger := Lifted(a.ledger, key)), cfg)
  {
    hide Reaches;
    Takes(a, Unblocks(key), cfg);
  }

  lemma SavesTo(a: Shared, now: int, ok: bool, cfg: Limits)
    requires a.ledger.clock <= now
    ensures Reaches(a, a.(disk := if ok then Saved(a.entries, now) else a.disk,
                         ledger := a.ledger.(clock := now, synced := ok)), cfg)
  {
    hide Reaches;
    Takes(a, Saves(now, ok), cfg);
  }

  lemma RechecksTo(a: Shared, key: string, now: int, cfg: Limits)
    requires now <= a.ledger.clock
    ensures Reaches(a, a.(entries := Rechecked(a.entries, a.permanent, key, now)), cfg)
  {
    hide Reaches;
    Takes(a, Rechecks(key, now), cfg);
  }

  lemma {:induction false} UnblocksAll(a: Shared, keys: set<string>, cfg: Limits)
    ensures Reaches(a, a.(permanent := a.permanent - keys), cfg)
    decreases keys
  {
    hide Reaches;
    if keys == {} {
      Stays(a, cfg);
      assert a.permanent - keys == a.permanent;
    } else {
      var key :| key in keys;
      var b := Apply(a, UnblocksPermanently(key), cfg);
      Takes(a, UnblocksPermanently(key), cfg);
      UnblocksAll(b, keys - {key}, cfg);
      assert b.permanent - (keys - {key}) == a.permanent - keys;
      Continues(a, b, a.(permanent := a.permanent - keys), cfg);
    }
  }

  /** A path from a state of a run can be appended to the run: the theorems about runs hold of it. */
  lemma RunReaches(run: seq<Shared>, steps: seq<Section>, b: Shared, cfg: Limits)
    returns (run': seq<Shared>, steps': seq<Section>)
    requires run != [] && IsRun(run, steps, cfg) && Reaches(run[|run| - 1], b, cfg)
    ensures IsRun(run', steps', cfg) && run <= run' && steps <= steps' && run'[|run'| - 1] == b
  {
    hide Apply, Enabled, SharedInv;
    var q, t :| Joins(run[|run| - 1], b, q, t, cfg);
    run', steps' := run + q[1..], steps + t;
    forall i | 0 <= i < |steps'|
      ensures Enabled(run'[i], steps'[i], cfg) && run'[i + 1] == Apply(run'[i], steps'[i], cfg)
    {
      if i < |steps| {
        assert run'[i] == run[i] && run'[i + 1] == run[i + 1] && steps'[i] == steps[i];
      } else {
        assert run'[i] == q[i - |steps|] && run'[i + 1] == q[i - |steps| + 1] && steps'[i] == t[i - |steps|];
      }
    }
  }
}
