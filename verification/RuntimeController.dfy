// The Android runtime controller: ownership of each tunnel runtime over every interleaving of
// commands with the release by the system. A section under the lifecycle lock is one step.
module RuntimeController {
  type Thread = nat
  type RuntimeId = nat

  datatype Current = NoRuntime | Running(id: RuntimeId)

  /** Where a thread stands between two locked sections; the last two hold a runtime in a local variable. */
  datatype PC = Checked | Creating | Holding(id: RuntimeId) | Stopping(id: RuntimeId)

  /** Who publishes a snapshot: a command, or the release by the system itself. */
  datatype Publisher = Command | Release

  /** stops counts the stops of every runtime the factory ever created; published lists the publications in their
      order; lateEffect records an install or a publication by a command after the release. */
  datatype Controller = Controller(runtime: Current, released: bool, stops: map<RuntimeId, nat>, pcs: map<Thread, PC>,
                                   published: seq<Publisher>, lateEffect: bool)

  datatype Step =
    | ConnectChecks(t: Thread)
    | ConnectSeesRuntime(t: Thread)
    | ConnectPublishes(t: Thread)
    | FactoryCreates(t: Thread, id: RuntimeId)
    | FactoryFails(t: Thread)
    | ConnectInstalls(t: Thread)
    | StopsDetached(t: Thread)
    | Disconnects
    | FailsRuntime(t: Thread)
    | PublishesIfActive(expected: RuntimeId)
    | PublishesIfNotReleased
    | ReleasesForSystem(t: Thread, publishes: bool)

  const INITIAL := Controller(NoRuntime, false, map[], map[], [], false)

  predicate Enabled(s: Controller, step: Step) {
    match step
    case ConnectChecks(t) => t !in s.pcs
    case ConnectSeesRuntime(t) => t in s.pcs && s.pcs[t].Checked?
    case ConnectPublishes(t) => t in s.pcs && s.pcs[t].Checked?
    case FactoryCreates(t, id) => t in s.pcs && s.pcs[t].Creating? && id !in s.stops
    case FactoryFails(t) => t in s.pcs && s.pcs[t].Creating?
    case ConnectInstalls(t) => t in s.pcs && s.pcs[t].Holding?
    case StopsDetached(t) => t in s.pcs && s.pcs[t].Stopping? && s.pcs[t].id in s.stops
    case Disconnects => s.runtime.Running? ==> s.runtime.id in s.stops
    case FailsRuntime(t) => t !in s.pcs
    case PublishesIfActive(_) => true
    case PublishesIfNotReleased => true
    case ReleasesForSystem(t, _) => t !in s.pcs
  }

  /** A publication, or the publication that goes with an install, by a command. */
  function Publish(s: Controller): Controller {
    s.(published := s.published + [Command], lateEffect := s.lateEffect || s.released)
  }

  function Stopped(s: Controller, id: RuntimeId): Controller
    requires id in s.stops
  {
    s.(stops := s.stops[id := s.stops[id] + 1])
  }

  /** Takes the current runtime out of the field into a local variable of the thread. */
  function Detached(s: Controller, t: Thread): Controller {
    match s.runtime
    case NoRuntime => s
    case Running(id) => s.(runtime := NoRuntime, pcs := s.pcs[t := Stopping(id)])
  }

  function Leaves(s: Controller, t: Thread): Controller {
    s.(pcs := s.pcs - {t})
  }

  function Apply(s: Controller, step: Step): Controller
    requires Enabled(s, step)
  {
    match step
    case ConnectChecks(t) => if s.released then s else s.(pcs := s.pcs[t := Checked])
    case ConnectSeesRuntime(t) => Leaves(s, t)
    case ConnectPublishes(t) => if s.released then Leaves(s, t) else Publish(s).(pcs := s.pcs[t := Creating])
    case FactoryCreates(t, id) => s.(stops := s.stops[id := 0], pcs := s.pcs[t := Holding(id)])
    case FactoryFails(t) => Leaves(s, t)
    case ConnectInstalls(t) =>
      var id := s.pcs[t].id;
      if s.released || s.runtime.Running? then s.(pcs := s.pcs[t := Stopping(id)])
      else Leaves(Publish(s.(runtime := Running(id))), t)
    case StopsDetached(t) => Leaves(Stopped(s, s.pcs[t].id), t)
    case Disconnects =>
      if s.released then s
      else
        var p := Publish(s);
        Publish(if s.runtime.Running? then Stopped(p, s.runtime.id).(runtime := NoRuntime) else p)
    case FailsRuntime(t) => if s.released then s else Detached(Publish(s), t)
    case PublishesIfActive(expected) => if s.released || s.runtime != Running(expected) then s else Publish(s)
    case PublishesIfNotReleased => if s.released then s else Publish(s)
    case ReleasesForSystem(t, publishes) =>
      Detached(s, t).(released := true, published := s.published + if publishes then [Release] else [])
  }

  ghost predicate Holds(s: Controller, t: Thread, id: RuntimeId) {
    t in s.pcs && (s.pcs[t] == Holding(id) || s.pcs[t] == Stopping(id))
  }

  /** A created runtime is the current one, held by exactly one thread, or already stopped once. */
  ghost predicate RuntimeInv(s: Controller, id: RuntimeId) {
    && (s.runtime == Running(id) ==> id in s.stops && s.stops[id] == 0 && forall t :: !Holds(s, t, id))
    && (forall t | Holds(s, t, id) :: id in s.stops && s.stops[id] == 0)
    && (forall t, u | Holds(s, t, id) && Holds(s, u, id) :: t == u)
    && (id in s.stops ==> s.runtime == Running(id) || s.stops[id] == 1 || exists t :: Holds(s, t, id))
  }

  ghost predicate Inv(s: Controller) {
    && (forall id :: RuntimeInv(s, id))
    && (s.released ==> s.runtime == NoRuntime)
    && !s.lateEffect
  }

  /** The step's own thread is the only one whose local variable changes. */
  lemma OthersHold(s: Controller, step: Step, t: Thread, id: RuntimeId)
    requires Enabled(s, step)
    requires step.PublishesIfActive? || step.PublishesIfNotReleased? || step.Disconnects? || t != step.t
    ensures Holds(Apply(s, step), t, id) <==> Holds(s, t, id)
  {
  }

  lemma StepKeepsRuntime(s: Controller, step: Step, id: RuntimeId)
    requires Inv(s) && Enabled(s, step)
    ensures RuntimeInv(Apply(s, step), id)
  {
    var s' := Apply(s, step);
    assert RuntimeInv(s, id);
    if step.PublishesIfActive? || step.PublishesIfNotReleased? || step.Disconnects? {
      forall u
        ensures Holds(s', u, id) <==> Holds(s, u, id)
      {
        OthersHold(s, step, u, id);
      }
    } else {
      var t := step.t;
      forall u | u != t
        ensures Holds(s', u, id) <==> Holds(s, u, id)
      {
        OthersHold(s, step, u, id);
      }
      assert Holds(s, t, id) || !Holds(s, t, id);
      assert Holds(s', t, id) || !Holds(s', t, id);
    }
  }

  lemma StepKeepsInv(s: Controller, step: Step)
    requires Inv(s) && Enabled(s, step)
    ensures Inv(Apply(s, step))
  {
    hide RuntimeInv;
    forall id
      ensures RuntimeInv(Apply(s, step), id)
    {
      StepKeepsRuntime(s, step, id);
    }
  }

  ghost predicate IsRun(run: seq<Controller>, steps: seq<Step>) {
    && |run| == |steps| + 1 && run[0] == INITIAL
    && forall i | 0 <= i < |steps| :: Enabled(run[i], steps[i]) && run[i + 1] == Apply(run[i], steps[i])
  }

  lemma {:induction false} RunKeepsInv(run: seq<Controller>, steps: seq<Step>, i: nat)
    requires IsRun(run, steps) && i < |run|
    ensures Inv(run[i])
  {
    if i > 0 {
      RunKeepsInv(run, steps, i - 1);
      StepKeepsInv(run[i - 1], steps[i - 1]);
    }
  }

  /** The state is the last one of some run. */
  ghost predicate Reached(s: Controller) {
    exists run, steps :: IsRun(run, steps) && run[|steps|] == s
  }

  lemma StartReached()
    ensures Reached(INITIAL)
  {
    var run: seq<Controller>, steps: seq<Step> := [INITIAL], [];
    assert IsRun(run, steps) && run[|steps|] == INITIAL;
  }

  lemma Goes(s: Controller, step: Step) returns (s': Controller)
    requires Reached(s) && Enabled(s, step)
    ensures s' == Apply(s, step) && Reached(s')
  {
    s' := Apply(s, step);
    var run, steps :| IsRun(run, steps) && run[|steps|] == s;
    var run', steps' := run + [s'], steps + [step];
    assert IsRun(run', steps') && run'[|steps'|] == s';
  }

  /** There is a run that takes every kind of step: runtimes a, b and c are installed one after the other and end by a
      failure, a disconnection and the release; d is created while the release runs. */
  lemma SomeRunReleases(a: RuntimeId, b: RuntimeId, c: RuntimeId, d: RuntimeId) returns (s: Controller)
    requires a != b && a != c && a != d && b != c && b != d && c != d
    ensures Reached(s) && s.released && s.runtime == NoRuntime && s.pcs == map[]
    ensures s.stops == map[a := 1, b := 1, c := 1, d := 1]
    ensures s.published ==
            [Command, Command, Command, Command, Command, Command, Command, Command, Command, Command, Command, Command,
             Command, Release]
  {
    hide *;
    s := Failed(a);
    s := Disconnected(s, a, b);
    s := Released(s, a, b, c, d);
  }

  lemma Failed(a: RuntimeId) returns (s: Controller)
    ensures Reached(s)
    ensures s == Controller(NoRuntime, false, map[a := 1], map[], [Command, Command, Command, Command], false)
  {
    StartReached();
    hide Reached;
    s := Goes(INITIAL, ConnectChecks(0));
    s := Goes(s, ConnectPublishes(0));
    s := Goes(s, FactoryCreates(0, a));
    s := Goes(s, ConnectInstalls(0));
    assert s == Controller(Running(a), false, map[a := 0], map[], [Command, Command], false);
    s := Goes(s, ConnectChecks(1));
    s := Goes(s, ConnectSeesRuntime(1));
    s := Goes(s, PublishesIfActive(a));
    s := Goes(s, FailsRuntime(2));
    s := Goes(s, StopsDetached(2));
    assert s.pcs == map[];
  }

  lemma Disconnected(s: Controller, a: RuntimeId, b: RuntimeId) returns (s': Controller)
    requires a != b && Reached(s)
    requires s == Controller(NoRuntime, false, map[a := 1], map[], [Command, Command, Command, Command], false)
    ensures Reached(s')
    ensures s' == Controller(NoRuntime, false, map[a := 1, b := 1], map[],
                             [Command, Command, Command, Command, Command, Command, Command, Command, Command], false)
  {
    hide Reached;
    s' := Goes(s, ConnectChecks(0));
    s' := Goes(s', ConnectPublishes(0));
    s' := Goes(s', FactoryCreates(0, b));
    s' := Goes(s', ConnectInstalls(0));
    s' := Goes(s', Disconnects);
    assert s'.pcs == map[];
    s' := Goes(s', PublishesIfNotReleased);
  }

  lemma Released(s: Controller, a: RuntimeId, b: RuntimeId, c: RuntimeId, d: RuntimeId) returns (s': Controller)
    requires a != b && a != c && a != d && b != c && b != d && c != d && Reached(s)
    requires s == Controller(NoRuntime, false, map[a := 1, b := 1], map[],
                             [Command, Command, Command, Command, Command, Command, Command, Command, Command], false)
    ensures Reached(s') && s'.released && s'.runtime == NoRuntime && s'.pcs == map[]
    ensures s'.stops == map[a := 1, b := 1, c := 1, d := 1]
    ensures s'.published == s.published + [Command, Command, Command, Command, Release]
  {
    hide Reached;
    s' := OneCreating(s);
    s' := Goes(s', ConnectChecks(0));
    s' := Goes(s', ConnectPublishes(0));
    s' := Goes(s', FactoryCreates(0, c));
    s' := Goes(s', ConnectInstalls(0));
    assert s'.pcs == map[1 := Creating] && s'.runtime == Running(c);
    s' := ReleasedWhileCreating(s', c, d);
  }

  lemma OneCreating(s: Controller) returns (s': Controller)
    requires Reached(s) && s.pcs == map[] && !s.released
    ensures Reached(s') && s'.pcs == map[1 := Creating]
    ensures s' == s.(pcs := s'.pcs, published := s.published + [Command, Command], lateEffect := s'.lateEffect)
    ensures s'.lateEffect == s.lateEffect
  {
    hide Reached;
    s' := Goes(s, ConnectChecks(1));
    s' := Goes(s', ConnectPublishes(1));
    s' := Goes(s', ConnectChecks(2));
    s' := Goes(s', ConnectPublishes(2));
    s' := Goes(s', FactoryFails(2));
    assert s'.pcs == map[1 := Creating];
  }

  lemma ReleasedWhileCreating(s: Controller, c: RuntimeId, d: RuntimeId) returns (s': Controller)
    requires c != d && Reached(s) && s.pcs == map[1 := Creating] && s.runtime == Running(c) && !s.released
    requires c in s.stops && s.stops[c] == 0 && d !in s.stops
    ensures Reached(s') && s'.released && s'.runtime == NoRuntime && s'.pcs == map[]
    ensures s'.stops == s.stops[c := 1][d := 1] && s'.published == s.published + [Release]
  {
    hide Reached;
    s' := Goes(s, ReleasesForSystem(3, true));
    s' := Goes(s', StopsDetached(3));
    s' := Goes(s', FactoryCreates(1, d));
    s' := Goes(s', ConnectInstalls(1));
    s' := Goes(s', StopsDetached(1));
    assert s'.pcs == map[];
  }

  /** Over every run a created runtime is the current one, held by exactly one thread that will stop or
      install it, or stopped exactly once: never two of these, and never none. */
  lemma OwnedExactlyOnce(run: seq<Controller>, steps: seq<Step>, i: nat, id: RuntimeId)
    requires IsRun(run, steps) && i < |run| && id in run[i].stops
    ensures run[i].stops[id] <= 1
    ensures run[i].stops[id] == 0 <==> run[i].runtime == Running(id) || exists t :: Holds(run[i], t, id)
    ensures run[i].runtime == Running(id) ==> !exists t :: Holds(run[i], t, id)
    ensures forall t, u | Holds(run[i], t, id) && Holds(run[i], u, id) :: t == u
  {
    RunKeepsInv(run, steps, i);
    assert RuntimeInv(run[i], id);
  }

  /** Once released, nothing is installed, nothing is published by a command, and when the threads that still
      hold a runtime are done every runtime ever created has been stopped exactly once. */
  lemma ReleaseStopsEverything(run: seq<Controller>, steps: seq<Step>, i: nat)
    requires IsRun(run, steps) && i < |run| && run[i].released
    ensures run[i].runtime == NoRuntime && !run[i].lateEffect
    ensures run[i].pcs == map[] ==> forall id | id in run[i].stops :: run[i].stops[id] == 1
  {
    RunKeepsInv(run, steps, i);
    forall id | run[i].pcs == map[] && id in run[i].stops
      ensures run[i].stops[id] == 1
    {
      assert RuntimeInv(run[i], id);
    }
  }

  /** A publication for a runtime goes out exactly while that runtime is the current one and nothing was released. */
  lemma OnlyCurrentPublishes(s: Controller, expected: RuntimeId)
    ensures Apply(s, PublishesIfActive(expected)) == s <==> s.released || s.runtime != Running(expected)
    ensures !s.released && s.runtime == Running(expected) ==>
              Apply(s, PublishesIfActive(expected)) == s.(published := s.published + [Command])
  {
  }

  lemma ReleasedStep(s: Controller, step: Step)
    requires Inv(s) && Enabled(s, step) && s.released
    ensures var s' := Apply(s, step);
            && s'.released && s'.runtime == NoRuntime
            && s'.published == s.published + if step.ReleasesForSystem? && step.publishes then [Release] else []
  {
    hide RuntimeInv;
  }

  /** After a release nothing is installed, and only a further release publishes, at most once. */
  lemma {:induction false} ReleaseIsFinal(run: seq<Controller>, steps: seq<Step>, i: nat, j: nat)
    requires IsRun(run, steps) && i <= j < |run| && run[i].released
    ensures run[j].released && run[j].runtime == NoRuntime && run[i].published <= run[j].published
    ensures forall k | |run[i].published| <= k < |run[j].published| :: run[j].published[k] == Release
    ensures |run[j].published| <= |run[i].published| + |(set k | i <= k < j && steps[k].ReleasesForSystem?)|
  {
    hide RuntimeInv, Apply, Enabled;
    RunKeepsInv(run, steps, i);
    if i < j {
      ReleaseIsFinal(run, steps, i, j - 1);
      RunKeepsInv(run, steps, j - 1);
      ReleasedStep(run[j - 1], steps[j - 1]);
      var before := set k | i <= k < j - 1 && steps[k].ReleasesForSystem?;
      assert (set k | i <= k < j && steps[k].ReleasesForSystem?) ==
             before + if steps[j - 1].ReleasesForSystem? then {j - 1} else {};
    }
  }
}
