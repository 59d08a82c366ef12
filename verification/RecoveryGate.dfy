// The lock-free gate that turns any number of recovery signals into runs of one action.
// Every step is one atomic access or the start of the action; threads interleave freely.
module RecoveryGate {
  type Thread = nat

  /** Where a thread stands. The one whose compare-and-set succeeded in tryQueue goes on to drain. */
  datatype PC =
    | SignalSet          // tryQueue has set pending, its compare-and-set is next
    | Won                // tryQueue returned true; the drain is queued or at the top of its loop
    | PendingCleared     // drain has cleared pending, the action is next
    | InAction
    | ActionDone         // releaseOrReclaim is next: queued will be cleared
    | QueuedCleared      // pending will be read
    | PendingSeen        // pending was read as true, the reclaiming compare-and-set is next

  /** unserved: the threads whose signal no action has started after. */
  datatype Gate = Gate(queued: bool, pending: bool, pcs: map<Thread, PC>, unserved: set<Thread>)

  datatype Step =
    | SetPending(t: Thread)
    | TryClaim(t: Thread)
    | ClearPending(t: Thread)
    | StartAction(t: Thread)
    | EndAction(t: Thread)
    | ClearQueued(t: Thread)
    | ReadPending(t: Thread)
    | Reclaim(t: Thread)

  const INITIAL := Gate(false, false, map[], {})

  predicate At(s: Gate, t: Thread, pc: PC) {
    t in s.pcs && s.pcs[t] == pc
  }

  predicate Enabled(s: Gate, step: Step) {
    match step
    case SetPending(t) => t !in s.pcs
    case TryClaim(t) => At(s, t, SignalSet)
    case ClearPending(t) => At(s, t, Won)
    case StartAction(t) => At(s, t, PendingCleared)
    case EndAction(t) => At(s, t, InAction)
    case ClearQueued(t) => At(s, t, ActionDone)
    case ReadPending(t) => At(s, t, QueuedCleared)
    case Reclaim(t) => At(s, t, PendingSeen)
  }

  /** A thread that has left the gate is no longer in pcs and may signal again. */
  function Apply(s: Gate, step: Step): Gate
    requires Enabled(s, step)
  {
    match step
    case SetPending(t) => s.(pending := true, pcs := s.pcs[t := SignalSet], unserved := s.unserved + {t})
    case TryClaim(t) => if s.queued then s.(pcs := s.pcs - {t}) else s.(queued := true, pcs := s.pcs[t := Won])
    case ClearPending(t) => s.(pending := false, pcs := s.pcs[t := PendingCleared])
    case StartAction(t) => s.(pcs := s.pcs[t := InAction], unserved := {})
    case EndAction(t) => s.(pcs := s.pcs[t := ActionDone])
    case ClearQueued(t) => s.(queued := false, pcs := s.pcs[t := QueuedCleared])
    case ReadPending(t) => if s.pending then s.(pcs := s.pcs[t := PendingSeen]) else s.(pcs := s.pcs - {t})
    case Reclaim(t) => if s.queued then s.(pcs := s.pcs - {t}) else s.(queued := true, pcs := s.pcs[t := Won])
  }

  /** The program points between a successful compare-and-set and the clearing of queued. */
  predicate OwnsAt(pc: PC) {
    pc == Won || pc == PendingCleared || pc == InAction || pc == ActionDone
  }

  predicate Owns(s: Gate, t: Thread) {
    t in s.pcs && OwnsAt(s.pcs[t])
  }

  /** The program points whose next step may still claim the gate for a pending signal. */
  predicate MayClaim(s: Gate, t: Thread) {
    t in s.pcs && (s.pcs[t] == SignalSet || s.pcs[t] == QueuedCleared || s.pcs[t] == PendingSeen)
  }

  ghost predicate Inv(s: Gate) {
    // queued is a lock: set exactly while one thread owns the gate
    && (s.queued <==> exists t :: Owns(s, t))
    && (forall t, u | Owns(s, t) && Owns(s, u) :: t == u)
    // a pending signal has an owner, or a thread that is about to claim
    && (s.pending ==> s.queued || exists t :: MayClaim(s, t))
    // a signal without an action is still pending, or the action is about to start
    && (s.unserved != {} ==> s.pending || exists t :: At(s, t, PendingCleared))
  }

  lemma StepKeepsInv(s: Gate, step: Step)
    requires Inv(s) && Enabled(s, step)
    ensures Inv(Apply(s, step))
  {
    var s' := Apply(s, step);
    var t := step.t;
    assert forall u | u != t :: (u in s.pcs <==> u in s'.pcs) && (u in s.pcs ==> s.pcs[u] == s'.pcs[u]);
    assert forall u | u != t :: Owns(s', u) <==> Owns(s, u);
    assert forall u | u != t && At(s, u, PendingCleared) :: At(s', u, PendingCleared);
    match step
    case SetPending(_) => assert MayClaim(s', t);
    case TryClaim(_) => assert !s.queued ==> Owns(s', t);
    case ClearPending(_) => assert Owns(s, t) && Owns(s', t) && At(s', t, PendingCleared);
    case StartAction(_) => assert Owns(s, t) && Owns(s', t);
    case EndAction(_) => assert Owns(s, t) && Owns(s', t);
    case ClearQueued(_) => assert Owns(s, t) && MayClaim(s', t);
    case ReadPending(_) => assert s.pending ==> MayClaim(s', t);
    case Reclaim(_) => assert !s.queued ==> Owns(s', t);
  }

  ghost predicate IsRun(run: seq<Gate>, steps: seq<Step>) {
    && |run| == |steps| + 1 && run[0] == INITIAL
    && forall i | 0 <= i < |steps| :: Enabled(run[i], steps[i]) && run[i + 1] == Apply(run[i], steps[i])
  }

  lemma {:induction false} RunKeepsInv(run: seq<Gate>, steps: seq<Step>, i: nat)
    requires IsRun(run, steps) && i < |run|
    ensures Inv(run[i])
  {
    if i > 0 {
      RunKeepsInv(run, steps, i - 1);
      StepKeepsInv(run[i - 1], steps[i - 1]);
    }
  }

  /** The state is the last one of some run. */
  ghost predicate Reached(s: Gate) {
    exists run, steps :: IsRun(run, steps) && run[|steps|] == s
  }

  lemma StartReached()
    ensures Reached(INITIAL)
  {
    var run: seq<Gate>, steps: seq<Step> := [INITIAL], [];
    assert IsRun(run, steps) && run[|steps|] == INITIAL;
  }

  lemma Goes(s: Gate, step: Step) returns (s': Gate)
    requires Reached(s) && Enabled(s, step)
    ensures s' == Apply(s, step) && Reached(s')
  {
    s' := Apply(s, step);
    var run, steps :| IsRun(run, steps) && run[|steps|] == s;
    var run', steps' := run + [s'], steps + [step];
    assert IsRun(run', steps') && run'[|steps'|] == s';
  }

  /** A signal that comes while another thread runs the action leaves at once and is served by that thread, which finds
      it pending and claims the gate again. */
  lemma SignalDuringAction(t: Thread, u: Thread) returns (during: Gate, after: Gate)
    requires t != u
    ensures Reached(during) && during == Gate(true, true, map[t := InAction], {u})
    ensures Reached(after) && after == INITIAL
  {
    StartReached();
    hide Reached;
    during := Goes(INITIAL, SetPending(t));
    during := Goes(during, TryClaim(t));
    during := Goes(during, ClearPending(t));
    during := Goes(during, StartAction(t));
    during := Goes(during, SetPending(u));
    during := Goes(during, TryClaim(u));
    assert during.pcs == map[t := InAction];
    after := Served(during, t, u);
  }

  lemma Served(s: Gate, t: Thread, u: Thread) returns (s': Gate)
    requires t != u && Reached(s) && s == Gate(true, true, map[t := InAction], {u})
    ensures Reached(s') && s' == INITIAL
  {
    hide Reached;
    s' := Goes(s, EndAction(t));
    s' := Goes(s', ClearQueued(t));
    s' := Goes(s', ReadPending(t));
    s' := Goes(s', Reclaim(t));
    assert s' == Gate(true, true, map[t := Won], {u});
    s' := Goes(s', ClearPending(t));
    s' := Goes(s', StartAction(t));
    s' := Goes(s', EndAction(t));
    s' := Goes(s', ClearQueued(t));
    s' := Goes(s', ReadPending(t));
    assert s'.pcs == map[];
  }

  /** At most one thread runs the action at any time. */
  lemma MutualExclusion(run: seq<Gate>, steps: seq<Step>, i: nat, t: Thread, u: Thread)
    requires IsRun(run, steps) && i < |run| && At(run[i], t, InAction) && At(run[i], u, InAction)
    ensures t == u
  {
    RunKeepsInv(run, steps, i);
    assert Owns(run[i], t) && Owns(run[i], u);
  }

  /** A signal that no action has followed yet is never forgotten: some thread is inside the gate,
      so once all threads have left it every signal has been followed by an action. */
  lemma NoSignalLost(run: seq<Gate>, steps: seq<Step>, i: nat)
    requires IsRun(run, steps) && i < |run| && run[i].pcs == map[]
    ensures run[i].unserved == {} && !run[i].queued && !run[i].pending
  {
    RunKeepsInv(run, steps, i);
  }

  /** A signal leaves unserved only when an action starts after its pending write. */
  lemma {:induction false} ServedOnlyByAction(run: seq<Gate>, steps: seq<Step>, i: nat, j: nat, t: Thread)
    requires IsRun(run, steps) && i < j < |run| && steps[i] == SetPending(t)
    ensures t !in run[j].unserved ==> exists k :: i < k < j && steps[k].StartAction?
  {
    if j == i + 1 {
      assert run[j] == Apply(run[i], steps[i]);
    } else {
      ServedOnlyByAction(run, steps, i, j - 1, t);
      assert run[j] == Apply(run[j - 1], steps[j - 1]);
    }
  }

  /** Every signal of a run whose threads have all left the gate was followed by the start of an action. */
  lemma EverySignalFollowedByAction(run: seq<Gate>, steps: seq<Step>, i: nat, t: Thread)
    requires IsRun(run, steps) && i < |steps| && steps[i] == SetPending(t) && run[|steps|].pcs == map[]
    ensures exists k :: i < k < |steps| && steps[k].StartAction?
  {
    NoSignalLost(run, steps, |steps|);
    ServedOnlyByAction(run, steps, i, |steps|, t);
  }

  // ---- The measure of the work a signal still has before it ----

  /** Steps a thread can take, signals aside, before it has left the gate or started another action. */
  function Remaining(pc: PC): nat {
    match pc
    case SignalSet => 4
    case PendingSeen => 4
    case QueuedCleared => 5
    case Won => 3
    case PendingCleared => 2
    case InAction => 7
    case ActionDone => 6
  }

  /** No thread can circle inside the gate without starting the action: between two starts of its action,
      each of its steps brings it closer to leaving or to the next start. */
  lemma ProgressPerThread(s: Gate, step: Step)
    requires Enabled(s, step) && !step.SetPending? && !step.StartAction?
    ensures step.t in Apply(s, step).pcs ==> Remaining(Apply(s, step).pcs[step.t]) < Remaining(s.pcs[step.t])
  {
  }
}
