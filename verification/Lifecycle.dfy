// Shutdown of the server: workers, tracked connections and their leases, over every interleaving.
module Lifecycle {
  type ConnId = nat

  /** What the lifecycle mutex guards. */
  datatype Guarded = Guarded(closing: bool, conns: set<ConnId>, workers: nat)

  function Begun(g: Guarded): Guarded {
    if g.closing then g else g.(workers := g.workers + 1)
  }

  function Finished(g: Guarded): Guarded
    requires g.workers > 0
  {
    g.(workers := g.workers - 1)
  }

  function Tracked(g: Guarded, c: ConnId): Guarded {
    if g.closing then g else g.(conns := g.conns + {c})
  }

  function Untracked(g: Guarded, c: ConnId): Guarded {
    g.(conns := g.conns - {c})
  }

  function Sealed(g: Guarded): Guarded {
    g.(closing := true)
  }

  /** The fields and the mutex sections themselves; each section does what its function says. */
  class ServerLifecycle {
    var closing: bool
    var conns: set<ConnId>
    var workers: nat

    function State(): Guarded
      reads this
    {
      Guarded(closing, conns, workers)
    }

    constructor ()
      ensures State() == Guarded(false, {}, 0)
    {
      closing, conns, workers := false, {}, 0;
    }

    method BeginWorker() returns (ok: bool)
      modifies this
      ensures State() == Begun(old(State())) && ok == !old(closing)
      ensures workers == old(workers) + (if old(closing) then 0 else 1)
    {
      if closing {
        return false;
      }
      workers := workers + 1;
      return true;
    }

    method WorkerDone()
      requires workers > 0
      modifies this
      ensures State() == Finished(old(State())) && workers == old(workers) - 1
    {
      workers := workers - 1;
    }

    method TrackEntryConn(c: ConnId) returns (tracked: bool)
      modifies this
      ensures State() == Tracked(old(State()), c) && tracked == !old(closing)
      ensures conns == old(conns) + (if old(closing) then {} else {c})
    {
      if closing {
        return false;
      }
      conns := conns + {c};
      return true;
    }

    method DeleteConn(c: ConnId)
      modifies this
      ensures State() == Untracked(old(State()), c) && conns == old(conns) - {c}
    {
      conns := conns - {c};
    }

    method Seal() returns (snapshot: set<ConnId>)
      modifies this
      ensures State() == Sealed(old(State())) && snapshot == old(conns) && closing && conns == old(conns)
    {
      closing := true;
      snapshot := {};
      var todo := conns;
      while todo != {}
        invariant snapshot + todo == conns
      {
        var c :| c in todo;
        todo, snapshot := todo - {c}, snapshot + {c};
      }
    }
  }

  /** How far a connection's once-guarded Close has come. */
  datatype Once = Unclosed | SocketClosed | LeaseReleased | Closed

  datatype Acceptor = NotStarted | Accepting | Acquired(c: ConnId) | Registered(c: ConnId) | Refusing(c: ConnId) | Stopped {
    predicate Running() {
      !NotStarted? && !Stopped?
    }
  }

  datatype Closer = NotCalled | ClosingConns(todo: set<ConnId>) | WaitingForWorkers | Returned

  /** once has an entry for every connection that was ever granted a lease; releases counts its releases,
      and activeTotal is the limiter's counter. */
  datatype Server = Server(guarded: Guarded, once: map<ConnId, Once>, leased: set<ConnId>, activeTotal: nat,
                           releases: map<ConnId, nat>, acceptor: Acceptor, handlers: nat, closer: Closer)

  datatype Step =
    | StartAcceptor
    | AcceptorStops
    | AcquireLease(c: ConnId)
    | TrackConn
    | StartHandler
    | RefusalDone
    | StartWorker
    | WorkerExits
    | CloseSocket(c: ConnId)
    | ReleaseLease(c: ConnId)
    | DeleteFromConns(c: ConnId)
    | CallClose
    | ConnIsClosed(c: ConnId)
    | AllConnsClosed
    | CloseReturns

  predicate Init(s: Server) {
    s == Server(Guarded(false, {}, 0), map[], {}, 0, map[], NotStarted, 0, NotCalled)
  }

  /** Close is called on a connection only by whoever can reach it: the tracked ones by anyone,
      a refused one by the accept loop. */
  predicate Reachable(s: Server, c: ConnId) {
    c in s.guarded.conns || s.acceptor == Refusing(c)
  }

  predicate Enabled(s: Server, step: Step) {
    match step
    case StartAcceptor => s.acceptor.NotStarted?
    case AcceptorStops => s.acceptor.Accepting? && s.guarded.workers > 0
    case AcquireLease(c) => s.acceptor.Accepting? && c !in s.once
    case TrackConn => s.acceptor.Acquired?
    case StartHandler => s.acceptor.Registered?
    case RefusalDone => s.acceptor.Refusing? && s.acceptor.c in s.once && s.once[s.acceptor.c] == Closed && s.guarded.workers > 0
    case StartWorker => true
    case WorkerExits => s.handlers > 0 && s.guarded.workers > 0
    case CloseSocket(c) => c in s.once && s.once[c] == Unclosed && Reachable(s, c)
    case ReleaseLease(c) => c in s.once && s.once[c] == SocketClosed && c in s.releases
    case DeleteFromConns(c) => c in s.once && s.once[c] == LeaseReleased
    case CallClose => s.closer.NotCalled?
    case ConnIsClosed(c) => s.closer.ClosingConns? && c in s.closer.todo && c in s.once && s.once[c] == Closed
    case AllConnsClosed => s.closer == ClosingConns({})
    case CloseReturns => s.closer.WaitingForWorkers? && s.guarded.workers == 0
  }

  function Apply(s: Server, step: Step): Server
    requires Enabled(s, step)
  {
    var g := s.guarded;
    match step
    case StartAcceptor => if g.closing then s else s.(guarded := Begun(g), acceptor := Accepting)
    case AcceptorStops => s.(guarded := Finished(g), acceptor := Stopped)
    case AcquireLease(c) =>
      s.(once := s.once[c := Unclosed], leased := s.leased + {c}, activeTotal := s.activeTotal + 1,
         releases := s.releases[c := 0], acceptor := Acquired(c))
    case TrackConn =>
      s.(guarded := Tracked(g, s.acceptor.c), acceptor := if g.closing then Refusing(s.acceptor.c) else Registered(s.acceptor.c))
    case StartHandler =>
      if g.closing then s.(acceptor := Refusing(s.acceptor.c))
      else s.(guarded := Begun(g), handlers := s.handlers + 1, acceptor := Accepting)
    case RefusalDone => s.(guarded := Finished(g), acceptor := Stopped)
    case StartWorker => if g.closing then s else s.(guarded := Begun(g), handlers := s.handlers + 1)
    case WorkerExits => s.(guarded := Finished(g), handlers := s.handlers - 1)
    case CloseSocket(c) => s.(once := s.once[c := SocketClosed])
    case ReleaseLease(c) =>
      s.(once := s.once[c := LeaseReleased], leased := s.leased - {c},
         activeTotal := if s.activeTotal > 0 then s.activeTotal - 1 else 0, releases := s.releases[c := s.releases[c] + 1])
    case DeleteFromConns(c) => s.(once := s.once[c := Closed], guarded := Untracked(g, c))
    case CallClose => s.(guarded := Sealed(g), closer := ClosingConns(g.conns))
    case ConnIsClosed(c) => s.(closer := ClosingConns(s.closer.todo - {c}))
    case AllConnsClosed => s.(closer := WaitingForWorkers)
    case CloseReturns => s.(closer := Returned)
  }

  ghost predicate ConnInv(s: Server, c: ConnId) {
    && (c in s.leased <==> c in s.once && (s.once[c] == Unclosed || s.once[c] == SocketClosed))
    && (c in s.releases <==> c in s.once)
    && (c in s.once ==> s.releases[c] == if c in s.leased then 0 else 1)
    && (c in s.guarded.conns ==> c in s.once && s.once[c] != Closed)
    && (c in s.once && s.once[c] != Closed ==> c in s.guarded.conns || s.acceptor == Acquired(c) || s.acceptor == Refusing(c))
    && (s.acceptor == Acquired(c) ==> c in s.once && s.once[c] == Unclosed && c !in s.guarded.conns)
    && (s.acceptor == Refusing(c) || s.acceptor == Registered(c) ==> c in s.once)
    && (c in s.guarded.conns && s.closer.ClosingConns? ==> c in s.closer.todo)
  }

  ghost predicate Inv(s: Server) {
    && (forall c :: ConnInv(s, c))
    && s.activeTotal == |s.leased|
    && (s.guarded.closing <==> !s.closer.NotCalled?)
    && s.guarded.workers == s.handlers + (if s.acceptor.Running() then 1 else 0)
    && (s.closer.WaitingForWorkers? || s.closer.Returned? ==> s.guarded.conns == {})
    && (s.closer.Returned? ==> s.guarded.workers == 0)
  }

  lemma StepKeepsConn(s: Server, step: Step, c: ConnId)
    requires Inv(s) && Enabled(s, step)
    ensures ConnInv(Apply(s, step), c)
  {
    assert ConnInv(s, c);
  }

  lemma StepKeepsCounts(s: Server, step: Step)
    requires Inv(s) && Enabled(s, step)
    ensures Apply(s, step).activeTotal == |Apply(s, step).leased|
  {
    if step.ReleaseLease? {
      assert ConnInv(s, step.c);
      assert s.leased == Apply(s, step).leased + {step.c};
    } else if step.AcquireLease? {
      assert ConnInv(s, step.c);
    }
  }

  lemma StepKeepsInv(s: Server, step: Step)
    requires Inv(s) && Enabled(s, step)
    ensures Inv(Apply(s, step))
  {
    var s' := Apply(s, step);
    StepKeepsCounts(s, step);
    if step.AllConnsClosed? {
      forall c
        ensures c !in s'.guarded.conns
      {
        assert ConnInv(s, c);
      }
    }
    hide ConnInv;
    forall c
      ensures ConnInv(s', c)
    {
      StepKeepsConn(s, step, c);
    }
  }

  /** Once closing is set, no step adds a worker or a tracked connection. */
  lemma NothingAddedAfterClosing(s: Server, step: Step)
    requires Inv(s) && Enabled(s, step) && s.guarded.closing
    ensures var s' := Apply(s, step);
            s'.guarded.closing && s'.guarded.workers <= s.guarded.workers && s'.guarded.conns <= s.guarded.conns
  {
  }

  ghost predicate IsRun(run: seq<Server>, steps: seq<Step>) {
    && |run| == |steps| + 1 && Init(run[0])
    && forall i | 0 <= i < |steps| :: Enabled(run[i], steps[i]) && run[i + 1] == Apply(run[i], steps[i])
  }

  lemma {:induction false} RunKeepsInv(run: seq<Server>, steps: seq<Step>, i: nat)
    requires IsRun(run, steps) && i < |run|
    ensures Inv(run[i])
  {
    if i > 0 {
      RunKeepsInv(run, steps, i - 1);
      StepKeepsInv(run[i - 1], steps[i - 1]);
    }
  }

  /** The state is the last one of some run. */
  ghost predicate Reached(s: Server) {
    exists run, steps :: IsRun(run, steps) && run[|steps|] == s
  }

  lemma StartReached(s: Server)
    requires Init(s)
    ensures Reached(s)
  {
    var run: seq<Server>, steps: seq<Step> := [s], [];
    assert IsRun(run, steps) && run[|steps|] == s;
  }

  lemma Goes(s: Server, step: Step) returns (s': Server)
    requires Reached(s) && Enabled(s, step)
    ensures s' == Apply(s, step) && Reached(s')
  {
    s' := Apply(s, step);
    var run, steps :| IsRun(run, steps) && run[|steps|] == s;
    var run', steps' := run + [s'], steps + [step];
    assert IsRun(run', steps') && run'[|steps'|] == s';
  }

  /** There is a run that takes every kind of step but the accept loop's own end: c is served, d is refused because
      Close was called while it was in the accept loop's hands, and Close returns. */
  lemma SomeRunReturns(c: ConnId, d: ConnId) returns (s: Server)
    requires c != d
    ensures Reached(s) && s.closer.Returned? && s.releases == map[c := 1, d := 1]
  {
    hide *;
    s := ConnectionServed(c);
    s := CloseWhileRefusing(s, c, d);
    s := CloseWaits(s, c, d);
  }

  lemma ConnectionServed(c: ConnId) returns (s: Server)
    ensures Reached(s)
    ensures s == Server(Guarded(false, {c}, 3), map[c := Unclosed], {c}, 1, map[c := 0], Accepting, 2, NotCalled)
  {
    s := Server(Guarded(false, {}, 0), map[], {}, 0, map[], NotStarted, 0, NotCalled);
    StartReached(s);
    hide Reached;
    s := Goes(s, StartAcceptor);
    s := Goes(s, AcquireLease(c));
    s := Goes(s, TrackConn);
    s := Goes(s, StartHandler);
    s := Goes(s, StartWorker);
  }

  lemma CloseWaits(s: Server, c: ConnId, d: ConnId) returns (s': Server)
    requires c != d && Reached(s)
    requires s == Server(Guarded(true, {c}, 2), map[c := Unclosed, d := Closed], {c}, 1, map[c := 0, d := 1], Stopped, 2,
                         ClosingConns({c}))
    ensures Reached(s') && s'.closer.Returned? && s'.releases == map[c := 1, d := 1]
  {
    hide Reached;
    s' := Goes(s, CloseSocket(c));
    s' := Goes(s', ReleaseLease(c));
    s' := Goes(s', DeleteFromConns(c));
    assert s' == Server(Guarded(true, {}, 2), map[c := Closed, d := Closed], {}, 0, map[c := 1, d := 1], Stopped, 2,
                        ClosingConns({c}));
    s' := CloseEnds(s', c, d);
  }

  lemma CloseEnds(s: Server, c: ConnId, d: ConnId) returns (s': Server)
    requires c != d && Reached(s)
    requires s == Server(Guarded(true, {}, 2), map[c := Closed, d := Closed], {}, 0, map[c := 1, d := 1], Stopped, 2,
                         ClosingConns({c}))
    ensures Reached(s') && s'.closer.Returned? && s'.releases == map[c := 1, d := 1]
  {
    hide Reached;
    s' := Goes(s, ConnIsClosed(c));
    assert s'.closer == ClosingConns({});
    s' := Goes(s', AllConnsClosed);
    s' := Goes(s', WorkerExits);
    s' := Goes(s', WorkerExits);
    s' := Goes(s', CloseReturns);
  }

  lemma CloseWhileRefusing(s: Server, c: ConnId, d: ConnId) returns (s': Server)
    requires c != d && Reached(s)
    requires s == Server(Guarded(false, {c}, 3), map[c := Unclosed], {c}, 1, map[c := 0], Accepting, 2, NotCalled)
    ensures Reached(s')
    ensures s' == Server(Guarded(true, {c}, 2), map[c := Unclosed, d := Closed], {c}, 1, map[c := 0, d := 1], Stopped, 2,
                         ClosingConns({c}))
  {
    hide Reached;
    s' := Goes(s, AcquireLease(d));
    s' := Goes(s', CallClose);
    s' := Goes(s', TrackConn);
    s' := Goes(s', CloseSocket(d));
    s' := Goes(s', ReleaseLease(d));
    s' := Goes(s', DeleteFromConns(d));
    s' := Goes(s', RefusalDone);
  }

  /** And one in which the accept loop ends by itself. */
  lemma AcceptorMayStop() returns (s: Server)
    ensures Reached(s) && s.acceptor.Stopped? && s.guarded == Guarded(false, {}, 0)
  {
    s := Server(Guarded(false, {}, 0), map[], {}, 0, map[], NotStarted, 0, NotCalled);
    StartReached(s);
    hide Reached;
    s := Goes(s, StartAcceptor);
    s := Goes(s, AcceptorStops);
  }

  /** Over every run no lease is released twice, and an unreleased lease belongs to a connection that is
      tracked or still in the accept loop's hands. */
  lemma LeasesConserved(run: seq<Server>, steps: seq<Step>, i: nat, c: ConnId)
    requires IsRun(run, steps) && i < |run| && c in run[i].once
    ensures c in run[i].releases && run[i].releases[c] == if c in run[i].leased then 0 else 1
    ensures c in run[i].leased ==>
              c in run[i].guarded.conns || run[i].acceptor == Acquired(c) || run[i].acceptor == Refusing(c)
  {
    RunKeepsInv(run, steps, i);
    assert ConnInv(run[i], c);
  }

  /** When Close has returned, every lease ever granted was released exactly once and none is left,
      in that state and in every later one. */
  lemma CloseReleasesEverything(run: seq<Server>, steps: seq<Step>, i: nat)
    requires IsRun(run, steps) && i < |run| && run[i].closer.Returned?
    ensures run[i].leased == {} && run[i].activeTotal == 0 && run[i].guarded.conns == {} && run[i].guarded.workers == 0
    ensures forall c | c in run[i].once :: c in run[i].releases && run[i].releases[c] == 1
  {
    RunKeepsInv(run, steps, i);
    forall c
      ensures c !in run[i].leased
      ensures c in run[i].once ==> c in run[i].releases && run[i].releases[c] == 1
    {
      assert ConnInv(run[i], c);
    }
  }

  lemma NothingHappensAfterReturn(s: Server, step: Step)
    requires Inv(s) && Enabled(s, step) && s.closer.Returned?
    ensures Apply(s, step) == s
  {
    forall c | c in s.once
      ensures s.once[c] == Closed
    {
      assert ConnInv(s, c);
    }
  }

  /** After Close has returned the state is final: nothing is accepted, started or released any more. */
  lemma {:induction false} ReturnIsFinal(run: seq<Server>, steps: seq<Step>, i: nat, j: nat)
    requires IsRun(run, steps) && i <= j < |run| && run[i].closer.Returned?
    ensures run[j] == run[i]
  {
    if i < j {
      ReturnIsFinal(run, steps, i, j - 1);
      RunKeepsInv(run, steps, j - 1);
      NothingHappensAfterReturn(run[j - 1], steps[j - 1]);
    }
  }
}
