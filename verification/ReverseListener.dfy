// A reverse listener: its control, the inbound connections that wait for a client stream,
// and the exactly-once disposition of each of them over every interleaving.
module ReverseListener {
  type ConnId = nat
  type ControlId = nat
  type StreamId = string

  // ---- The mutex sections ----

  /** What the listener's mutex guards, and what each section does to it. */
  datatype Guarded = Guarded(controls: set<ControlId>, pending: map<StreamId, ConnId>, closed: bool) {
    function WithControl(k: ControlId): Guarded {
      if closed || controls != {} then this else this.(controls := {k})
    }

    function WithoutControl(k: ControlId): Guarded {
      this.(controls := controls - {k})
    }

    function WithPending(id: StreamId, c: ConnId): Guarded {
      if closed then this else this.(pending := pending[id := c])
    }

    function Without(id: StreamId): Guarded {
      this.(pending := pending - {id})
    }

    function Emptied(): Guarded {
      this.(pending := map[])
    }

    function Shut(): Guarded {
      Guarded({}, map[], true)
    }
  }

  /** An inbound connection waiting for its stream. Closing a closed channel panics, so the
      methods below may only close a done channel that is still open. */
  class PendingConn {
    const conn: ConnId
    var doneClosed: bool
    var connClosed: bool

    constructor (conn: ConnId)
      ensures this.conn == conn && !doneClosed && !connClosed
    {
      this.conn := conn;
      doneClosed, connClosed := false, false;
    }

    method CloseDone()
      requires !doneClosed
      modifies `doneClosed
      ensures doneClosed
    {
      doneClosed := true;
    }
  }

  datatype Taken = Nothing | Conn(conn: ConnId)

  class Listener {
    var controls: set<ControlId>
    var pending: map<StreamId, PendingConn>
    var closed: bool

    ghost function State(): Guarded
      reads this
    {
      Guarded(controls, map id | id in pending :: pending[id].conn, closed)
    }

    ghost predicate Valid()
      reads this, pending.Values
    {
      && |controls| <= 1
      && (closed ==> controls == {} && pending == map[])
      && (forall a, b | a in pending && b in pending && a != b :: pending[a] != pending[b])
      && (forall id | id in pending :: !pending[id].doneClosed && !pending[id].connClosed)
    }

    constructor ()
      ensures Valid() && State() == Guarded({}, map[], false)
    {
      controls, pending, closed := {}, map[], false;
    }

    method AddControl(control: ControlId) returns (ok: bool)
      requires Valid()
      modifies `controls
      ensures Valid() && ok == (!closed && old(controls) == {})
      ensures State() == old(State()).WithControl(control) && controls == if ok then {control} else old(controls)
    {
      if closed || |controls| > 0 {
        return false;
      }
      controls := controls + {control};
      return true;
    }

    method RemoveControl(control: ControlId)
      requires Valid()
      modifies `controls
      ensures Valid() && State() == old(State()).WithoutControl(control)
      ensures controls == old(controls) - {control}
    {
      if control in controls {
        ghost var before := controls;
        controls := controls - {control};
        assert before == controls + {control};
      }
    }

    method PickControl() returns (found: bool, control: ControlId)
      requires Valid()
      ensures found <==> controls != {}
      ensures found ==> controls == {control}
    {
      if controls == {} {
        return false, 0;
      }
      control :| control in controls;
      assert controls == {control} + (controls - {control});
      return true, control;
    }

    /** Registers a connection under a stream id; an id already in use would lose its connection. */
    method AddPending(streamID: StreamId, conn: ConnId) returns (p: PendingConn?)
      requires Valid()
      modifies `pending
      ensures Valid()
      ensures p == null <==> closed
      ensures p == null ==> pending == old(pending)
      ensures p != null ==> fresh(p) && p.conn == conn && pending == old(pending)[streamID := p]
      ensures State() == old(State()).WithPending(streamID, conn)
    {
      if closed {
        return null;
      }
      p := new PendingConn(conn);
      pending := pending[streamID := p];
    }

    method TakePending(streamID: StreamId) returns (taken: Taken)
      requires Valid()
      modifies `pending, pending.Values
      ensures Valid()
      ensures taken == if streamID in old(pending) then Conn(old(pending)[streamID].conn) else Nothing
      ensures pending == old(pending) - {streamID} && State() == old(State()).Without(streamID)
      ensures streamID in old(pending) ==> old(pending)[streamID].doneClosed && !old(pending)[streamID].connClosed
      ensures forall id | id in pending :: unchanged(pending[id])
    {
      if streamID !in pending {
        return Nothing;
      }
      var p := pending[streamID];
      pending := pending - {streamID};
      p.CloseDone();
      return Conn(p.conn);
    }

    method ClosePending()
      requires Valid()
      modifies `pending, pending.Values
      ensures Valid() && State() == old(State()).Emptied() && pending == map[] && controls == old(controls)
      ensures forall id | id in old(pending) :: old(pending)[id].doneClosed && old(pending)[id].connClosed
    {
      ghost var before := pending;
      while pending != map[]
        invariant Valid() && controls == old(controls) && closed == old(closed)
        invariant forall id | id in pending :: id in before && pending[id] == before[id]
        invariant forall id | id in before && id !in pending :: before[id].doneClosed && before[id].connClosed
        decreases |pending|
      {
        var id :| id in pending;
        CloseEntry(id, pending[id]);
      }
    }

    method CloseEntry(id: StreamId, p: PendingConn)
      requires Valid() && id in pending && pending[id] == p
      modifies `pending, p
      ensures Valid() && pending == old(pending) - {id} && |pending| == |old(pending)| - 1
      ensures p.connClosed && p.doneClosed
    {
      p.connClosed := true;
      p.CloseDone();
      ghost var was := pending;
      pending := pending - {id};
      assert was.Keys == pending.Keys + {id};
      assert |was.Keys| == |pending.Keys| + 1;
    }

    method IsIdle() returns (idle: bool)
      ensures idle <==> State().controls == {} && State().pending == map[]
    {
      assert State().pending.Keys == pending.Keys;
      idle := |controls| == 0 && |pending| == 0;
    }

    method Close()
      requires Valid()
      modifies this, pending.Values
      ensures Valid() && State() == old(State()).Shut() && closed && controls == {} && pending == map[]
      ensures forall id | id in old(pending) :: old(pending)[id].doneClosed && old(pending)[id].connClosed
    {
      if closed {
        return;
      }
      ClosePending();
      closed := true;
      controls := {};
    }
  }

  // ---- Every interleaving of handlers, streams and the listener's owner ----

  /** Where the goroutine that handles an inbound connection stands. */
  datatype Handler =
    | Started
    | ControlPicked
    | Registered(id: StreamId)
    | RequestSent(id: StreamId)
    | Expiring(id: StreamId)
    | Deferred(id: StreamId)
    | Finished

  /** Per connection: handed counts the hand-overs to a stream, closed the closes on this side, and doneCloses, once
      it is registered, the closes of its registration's channel. lost are the connections whose registration was
      overwritten by another one under the same stream id. */
  datatype Server = Server(guarded: Guarded,
                         handlers: map<ConnId, Handler>, handed: map<ConnId, nat>, closed: map<ConnId, nat>,
                         doneCloses: map<ConnId, nat>, lost: set<ConnId>)

  datatype Step =
    | AcceptConn(c: ConnId)
    | RefuseConn(c: ConnId)
    | Pick(c: ConnId)
    | IdFails(c: ConnId)
    | Register(c: ConnId, id: StreamId)
    | SendRequest(c: ConnId)
    | TimeOut(c: ConnId)
    | Wake(c: ConnId)
    | Expire(c: ConnId)
    | RunDeferred(c: ConnId)
    | StreamTakes(id: StreamId)
    | ControlAdded(k: ControlId)
    | ControlRemoved(k: ControlId)
    | PendingClosed
    | ListenerClosed

  function Init(): Server {
    Server(Guarded({}, map[], false), map[], map[], map[], map[], {})
  }

  predicate Enabled(s: Server, step: Step) {
    match step
    case AcceptConn(c) => c !in s.handlers
    case RefuseConn(c) => c !in s.handlers
    case Pick(c) => c in s.handlers && s.handlers[c] == Started
    case IdFails(c) => c in s.handlers && s.handlers[c] == ControlPicked
    case Register(c, id) => c in s.handlers && s.handlers[c] == ControlPicked
    case SendRequest(c) => c in s.handlers && s.handlers[c].Registered?
    case TimeOut(c) => c in s.handlers && (s.handlers[c].Registered? || s.handlers[c].RequestSent?)
    case Wake(c) => c in s.handlers && (s.handlers[c].Registered? || s.handlers[c].RequestSent?)
    case Expire(c) => c in s.handlers && s.handlers[c].Expiring?
    case RunDeferred(c) => c in s.handlers && s.handlers[c].Deferred?
    case _ => true
  }

  function Plus<K>(m: map<K, nat>, c: K): map<K, nat> {
    m[c := (if c in m then m[c] else 0) + 1]
  }

  /** The taker removes the entry and closes its channel; the connection is then the taker's. */
  function Without(s: Server, id: StreamId): Server {
    if id !in s.guarded.pending then s
    else s.(guarded := s.guarded.Without(id), doneCloses := Plus(s.doneCloses, s.guarded.pending[id]))
  }

  function TakeAndClose(s: Server, id: StreamId): Server {
    if id !in s.guarded.pending then s else Without(s, id).(closed := Plus(s.closed, s.guarded.pending[id]))
  }

  function AllClosed(s: Server): Server {
    s.(guarded := s.guarded.Emptied(),
       closed := map c | c in s.closed :: s.closed[c] + (if c in s.guarded.pending.Values then 1 else 0),
       doneCloses := map c | c in s.doneCloses :: s.doneCloses[c] + (if c in s.guarded.pending.Values then 1 else 0))
  }

  /** Any stream id may be drawn; one that is in use loses the connection that waits under it. */
  function Registering(s: Server, c: ConnId, id: StreamId): Server {
    s.(handlers := s.handlers[c := Registered(id)], guarded := s.guarded.WithPending(id, c),
       doneCloses := s.doneCloses[c := 0],
       lost := s.lost + if id in s.guarded.pending then {s.guarded.pending[id]} else {})
  }

  function Apply(s: Server, step: Step): Server
    requires Enabled(s, step)
  {
    match step
    case AcceptConn(c) => s.(handlers := s.handlers[c := Started], handed := s.handed[c := 0], closed := s.closed[c := 0])
    case RefuseConn(c) => s.(handlers := s.handlers[c := Finished], handed := s.handed[c := 0], closed := s.closed[c := 1])
    case Pick(c) =>
      if s.guarded.controls == {} then s.(handlers := s.handlers[c := Finished], closed := Plus(s.closed, c))
      else s.(handlers := s.handlers[c := ControlPicked])
    case IdFails(c) => s.(handlers := s.handlers[c := Finished], closed := Plus(s.closed, c))
    case Register(c, id) =>
      if s.guarded.closed then s.(handlers := s.handlers[c := Finished], closed := Plus(s.closed, c))
      else Registering(s, c, id)
    case SendRequest(c) => s.(handlers := s.handlers[c := RequestSent(s.handlers[c].id)])
    case TimeOut(c) => s.(handlers := s.handlers[c := Expiring(s.handlers[c].id)])
    case Wake(c) => s.(handlers := s.handlers[c := Deferred(s.handlers[c].id)])
    case Expire(c) => TakeAndClose(s, s.handlers[c].id).(handlers := s.handlers[c := Deferred(s.handlers[c].id)])
    case RunDeferred(c) => TakeAndClose(s, s.handlers[c].id).(handlers := s.handlers[c := Finished])
    case StreamTakes(id) =>
      if id in s.guarded.pending then Without(s, id).(handed := Plus(s.handed, s.guarded.pending[id])) else s
    case ControlAdded(k) => s.(guarded := s.guarded.WithControl(k))
    case ControlRemoved(k) => s.(guarded := s.guarded.WithoutControl(k))
    case PendingClosed => AllClosed(s)
    case ListenerClosed => if s.guarded.closed then s else AllClosed(s).(guarded := s.guarded.Shut())
  }

  predicate Waiting(h: Handler) {
    h.Registered? || h.RequestSent? || h.Expiring? || h.Deferred?
  }

  predicate Early(h: Handler) {
    h == Started || h == ControlPicked
  }

  predicate IsPending(s: Server, c: ConnId) {
    c in s.handlers && Waiting(s.handlers[c]) && s.handlers[c].id in s.guarded.pending
    && s.guarded.pending[s.handlers[c].id] == c
  }

  function Count(b: bool): nat {
    if b then 1 else 0
  }

  /** One of five things holds of a connection: its handler has not registered it yet, it is pending, it was handed
      to one stream, it was closed once, or its registration was overwritten. */
  ghost predicate ConnInv(s: Server, c: ConnId) {
    && (c in s.handlers <==> c in s.handed) && (c in s.handlers <==> c in s.closed)
    && (c in s.handlers ==>
          && s.handed[c] + s.closed[c] + Count(c in s.lost) == 1 - Count(Early(s.handlers[c]) || IsPending(s, c))
          && (Early(s.handlers[c]) ==> c !in s.doneCloses)
          && (Waiting(s.handlers[c]) ==> c in s.doneCloses))
    && (c in s.lost ==> c in s.doneCloses)
    && (c in s.doneCloses ==>
          c in s.handlers && s.doneCloses[c] == 1 - Count(IsPending(s, c) || c in s.lost))
  }

  ghost predicate StreamInv(s: Server, id: StreamId) {
    id in s.guarded.pending ==>
      var c := s.guarded.pending[id];
      c in s.handlers && Waiting(s.handlers[c]) && s.handlers[c].id == id
  }

  ghost predicate Inv(s: Server) {
    && (forall c :: ConnInv(s, c))
    && (forall id :: StreamInv(s, id))
    && (s.guarded.closed ==> s.guarded.controls == {} && s.guarded.pending == map[])
    && |s.guarded.controls| <= 1
  }

  lemma PendingValue(s: Server, c: ConnId)
    requires Inv(s)
    ensures c in s.guarded.pending.Values <==> IsPending(s, c)
  {
    if c in s.guarded.pending.Values {
      var id :| id in s.guarded.pending && s.guarded.pending[id] == c;
      assert StreamInv(s, id);
    }
  }

  /** The step takes what is pending under an id: its own handler's, when the time is up or it returns, or that
      of a stream. */
  predicate Takes(step: Step) {
    step.Expire? || step.RunDeferred? || step.StreamTakes?
  }

  lemma TakingKeepsConns(s: Server, step: Step, c: ConnId)
    requires Inv(s) && Enabled(s, step) && Takes(step)
    ensures ConnInv(Apply(s, step), c)
  {
    var id := if step.StreamTakes? then step.id else s.handlers[step.c].id;
    assert ConnInv(s, c) && StreamInv(s, id);
    if !step.StreamTakes? {
      assert ConnInv(s, step.c);
    }
  }

  lemma RegisteringKeepsConns(s: Server, d: ConnId, id: StreamId, c: ConnId)
    requires Inv(s) && Enabled(s, Register(d, id))
    ensures ConnInv(Apply(s, Register(d, id)), c)
  {
    assert ConnInv(s, c) && ConnInv(s, d) && StreamInv(s, id);
  }

  lemma ClosingKeepsConns(s: Server, c: ConnId)
    requires Inv(s)
    ensures ConnInv(AllClosed(s), c)
  {
    assert ConnInv(s, c);
    PendingValue(s, c);
  }

  lemma StepKeepsConns(s: Server, step: Step, c: ConnId)
    requires Inv(s) && Enabled(s, step)
    ensures ConnInv(Apply(s, step), c)
  {
    if Takes(step) {
      TakingKeepsConns(s, step, c);
    } else if step.Register? {
      RegisteringKeepsConns(s, step.c, step.id, c);
    } else if step.PendingClosed? || step.ListenerClosed? {
      ClosingKeepsConns(s, c);
      assert ConnInv(s, c);
    } else {
      assert ConnInv(s, c);
    }
  }

  lemma StepKeepsStreams(s: Server, step: Step, id: StreamId)
    requires Inv(s) && Enabled(s, step)
    ensures StreamInv(Apply(s, step), id)
  {
    assert StreamInv(s, id);
    match step
    case Expire(d) => assert ConnInv(s, d);
    case RunDeferred(d) => assert ConnInv(s, d);
    case StreamTakes(other) => assert StreamInv(s, other);
    case _ =>
  }

  lemma StepKeepsInv(s: Server, step: Step)
    requires Inv(s) && Enabled(s, step)
    ensures Inv(Apply(s, step))
  {
    hide ConnInv, StreamInv;
    var s' := Apply(s, step);
    forall c
      ensures ConnInv(s', c)
    {
      StepKeepsConns(s, step, c);
    }
    forall id
      ensures StreamInv(s', id)
    {
      StepKeepsStreams(s, step, id);
    }
    ControlsBounded(s, step);
  }

  lemma ControlsBounded(s: Server, step: Step)
    requires |s.guarded.controls| <= 1 && Enabled(s, step)
    ensures |Apply(s, step).guarded.controls| <= 1
  {
    if step.ControlRemoved? && step.k in s.guarded.controls {
      assert s.guarded.controls == (s.guarded.controls - {step.k}) + {step.k};
    }
  }

  ghost predicate IsRun(run: seq<Server>, steps: seq<Step>) {
    && |run| == |steps| + 1 && run[0] == Init()
    && forall i | 0 <= i < |steps| :: Enabled(run[i], steps[i]) && run[i + 1] == Apply(run[i], steps[i])
  }

  lemma {:induction false} RunKeepsInv(run: seq<Server>, steps: seq<Step>, i: nat)
    requires IsRun(run, steps) && i < |run|
    ensures Inv(run[i])
  {
    if i > 0 {
      RunKeepsInv(run, steps, i - 1);
      StepKeepsInv(run[i - 1], steps[i - 1]);
    }
  }

  /** The step registers another connection under the id under which this one waits. */
  ghost predicate Overwrites(s: Server, step: Step, c: ConnId) {
    step.Register? && !s.guarded.closed && step.id in s.guarded.pending && s.guarded.pending[step.id] == c
  }

  ghost predicate Overwritten(run: seq<Server>, steps: seq<Step>, i: nat, c: ConnId)
    requires i < |run| && |run| == |steps| + 1
  {
    exists j | 0 <= j < i :: Overwrites(run[j], steps[j], c)
  }

  lemma LostStep(s: Server, step: Step, c: ConnId)
    requires Enabled(s, step)
    ensures c in Apply(s, step).lost <==> c in s.lost || Overwrites(s, step, c)
  {
  }

  lemma {:induction false} LostIffOverwritten(run: seq<Server>, steps: seq<Step>, i: nat, c: ConnId)
    requires IsRun(run, steps) && i < |run|
    ensures c in run[i].lost <==> Overwritten(run, steps, i, c)
  {
    if i > 0 {
      LostIffOverwritten(run, steps, i - 1, c);
      LostStep(run[i - 1], steps[i - 1], c);
      hide Apply, Enabled, Overwrites;
    }
  }

  /** In every interleaving and for every choice of stream ids: when its handler has returned, a connection waits
      under no stream id, and it was handed to exactly one stream or closed exactly once, never both, if and only
      if no other connection was registered under its id while it waited. Otherwise it was neither. */
  lemma DisposedOnceIffNotOverwritten(run: seq<Server>, steps: seq<Step>, i: nat, c: ConnId)
    requires IsRun(run, steps) && i < |run| && c in run[i].handlers && run[i].handlers[c] == Finished
    ensures c in run[i].handed && c in run[i].closed && c !in run[i].guarded.pending.Values
    ensures run[i].handed[c] + run[i].closed[c] == if Overwritten(run, steps, i, c) then 0 else 1
  {
    hide Overwritten;
    RunKeepsInv(run, steps, i);
    assert ConnInv(run[i], c);
    PendingValue(run[i], c);
    LostIffOverwritten(run, steps, i, c);
  }

  /** Stream ids that are not pending at the moment they are registered, used before or not, are enough. */
  lemma DisposedExactlyOnce(run: seq<Server>, steps: seq<Step>, i: nat, c: ConnId)
    requires IsRun(run, steps) && i < |run| && c in run[i].handlers && run[i].handlers[c] == Finished
    requires forall j | 0 <= j < i :: steps[j].Register? ==> steps[j].id !in run[j].guarded.pending
    ensures c in run[i].handed && c in run[i].closed && run[i].handed[c] + run[i].closed[c] == 1
    ensures c !in run[i].guarded.pending.Values
  {
    DisposedOnceIffNotOverwritten(run, steps, i, c);
  }

  /** The channel of a registration is never closed twice; it is closed exactly when its connection has stopped
      being pending other than by being overwritten. */
  lemma DoneClosedOnce(run: seq<Server>, steps: seq<Step>, i: nat, c: ConnId)
    requires IsRun(run, steps) && i < |run| && c in run[i].doneCloses
    ensures run[i].doneCloses[c] ==
            if c in run[i].guarded.pending.Values || Overwritten(run, steps, i, c) then 0 else 1
  {
    hide Overwritten;
    RunKeepsInv(run, steps, i);
    assert ConnInv(run[i], c);
    PendingValue(run[i], c);
    LostIffOverwritten(run, steps, i, c);
  }

  /** The state after two connections have registered under one id. */
  function BothRegistered(c: ConnId, d: ConnId, id: StreamId, k: ControlId): Server {
    Server(Guarded({k}, map[id := d], false), map[c := Registered(id), d := Registered(id)], map[c := 0, d := 0],
           map[c := 0, d := 0], map[c := 0, d := 0], {c})
  }

  function OneRegistered(c: ConnId, id: StreamId, k: ControlId): Server {
    Server(Guarded({k}, map[id := c], false), map[c := Registered(id)], map[c := 0], map[c := 0], map[c := 0], {})
  }

  lemma IdDrawnOnce(c: ConnId, id: StreamId, k: ControlId) returns (run: seq<Server>, steps: seq<Step>)
    ensures IsRun(run, steps) && |run| == 5 && run[4] == OneRegistered(c, id, k)
  {
    steps := [ControlAdded(k), AcceptConn(c), Pick(c), Register(c, id)];
    var s1 := Apply(Init(), steps[0]);
    var s2 := Apply(s1, steps[1]);
    var s3 := Apply(s2, steps[2]);
    run := [Init(), s1, s2, s3, Apply(s3, steps[3])];
  }

  lemma IdDrawnTwice(c: ConnId, d: ConnId, id: StreamId, k: ControlId)
    returns (run: seq<Server>, steps: seq<Step>)
    requires c != d
    ensures IsRun(run, steps) && |run| == 8 && run[7] == BothRegistered(c, d, id, k)
  {
    run, steps := IdDrawnOnce(c, id, k);
    var s4 := OneRegistered(c, id, k);
    var s5 := Apply(s4, AcceptConn(d));
    var s6 := Apply(s5, Pick(d));
    var s7 := Apply(s6, Register(d, id));
    assert s7 == BothRegistered(c, d, id, k);
    hide Apply, Enabled, IsRun, OneRegistered, BothRegistered;
    RunExtended(run, steps, AcceptConn(d), s5);
    RunExtended(run + [s5], steps + [AcceptConn(d)], Pick(d), s6);
    RunExtended(run + [s5] + [s6], steps + [AcceptConn(d)] + [Pick(d)], Register(d, id), s7);
    run, steps := run + [s5] + [s6] + [s7], steps + [AcceptConn(d)] + [Pick(d)] + [Register(d, id)];
  }

  /** A run that draws one id twice: the first connection is neither handed over nor closed when its handler has
      returned, and that handler closes the second one instead. */
  lemma ReusedIdLosesConnection(c: ConnId, d: ConnId, id: StreamId, k: ControlId)
    returns (run: seq<Server>, steps: seq<Step>)
    requires c != d
    ensures IsRun(run, steps) && |run| == 10
    ensures c in run[9].handlers && run[9].handlers[c] == Finished && c in run[9].handed && c in run[9].closed
    ensures run[9].handed[c] + run[9].closed[c] == 0 && c !in run[9].guarded.pending.Values
    ensures d in run[9].closed && run[9].closed[d] == 1
  {
    run, steps := IdDrawnTwice(c, d, id, k);
    var s7 := BothRegistered(c, d, id, k);
    var s8 := Apply(s7, Wake(c));
    var s9 := Apply(s8, RunDeferred(c));
    assert s9.guarded.pending == map[];
    hide Apply, Enabled, BothRegistered;
    RunExtended(run, steps, Wake(c), s8);
    run, steps := run + [s8], steps + [Wake(c)];
    RunExtended(run, steps, RunDeferred(c), s9);
    run, steps := run + [s9], steps + [RunDeferred(c)];
  }

  lemma RunExtended(run: seq<Server>, steps: seq<Step>, step: Step, next: Server)
    requires run != [] && IsRun(run, steps)
    requires Enabled(run[|run| - 1], step) && next == Apply(run[|run| - 1], step)
    ensures IsRun(run + [next], steps + [step])
  {
    hide Apply, Enabled;
  }

  // ---- What can happen to a connection, from any state that a run reaches ----

  /** The state is the last one of some run. */
  ghost predicate Reached(s: Server) {
    exists run, steps :: IsRun(run, steps) && run[|steps|] == s
  }

  lemma StartReached()
    ensures Reached(Init())
  {
    var run: seq<Server>, steps: seq<Step> := [Init()], [];
    assert IsRun(run, steps) && run[|steps|] == Init();
  }

  lemma Goes(s: Server, step: Step) returns (s': Server)
    requires Reached(s) && Enabled(s, step)
    ensures s' == Apply(s, step) && Reached(s')
  {
    s' := Apply(s, step);
    var run, steps :| IsRun(run, steps) && run[|steps|] == s;
    RunExtended(run, steps, step, s');
    var run', steps' := run + [s'], steps + [step];
    assert IsRun(run', steps') && run'[|steps'|] == s';
  }

  /** How the handler of a connection has ended: returned, with so many hand-overs and closes. */
  ghost predicate Ended(s: Server, c: ConnId, handed: nat, closed: nat) {
    && c in s.handlers && s.handlers[c] == Finished && c in s.handed && s.handed[c] == handed
    && c in s.closed && s.closed[c] == closed
  }

  /** Without a control it is closed at once, and so it is if no worker may start or no id can be drawn. */
  lemma ClosedAtOnce(s: Server, c: ConnId) returns (s': Server, refused: Server)
    requires Reached(s) && c !in s.handlers
    ensures Reached(s') && Reached(refused) && Ended(s', c, 0, 1) && Ended(refused, c, 0, 1)
    ensures s'.guarded == refused.guarded == s.guarded
  {
    hide Reached;
    refused := Goes(s, RefuseConn(c));
    s' := Goes(s, AcceptConn(c));
    s' := Goes(s', Pick(c));
    if s.guarded.controls != {} {
      s' := Goes(s', IdFails(c));
    }
  }

  /** With a control it waits under its id. */
  lemma Waits(s: Server, c: ConnId, id: StreamId) returns (s': Server)
    requires Reached(s) && !s.guarded.closed && s.guarded.controls != {}
    requires c !in s.handlers && id !in s.guarded.pending
    ensures Reached(s') && s'.guarded == s.guarded.(pending := s.guarded.pending[id := c])
    ensures s'.handlers == s.handlers[c := RequestSent(id)] && s'.handed == s.handed[c := 0]
    ensures s'.closed == s.closed[c := 0] && c in s'.doneCloses
  {
    hide Reached;
    s' := Goes(s, AcceptConn(c));
    s' := Goes(s', Pick(c));
    s' := Goes(s', Register(c, id));
    s' := Goes(s', SendRequest(c));
  }

  /** A stream that comes in time takes it, and the listener is then as before. */
  lemma TakenInTime(s: Server, c: ConnId, id: StreamId) returns (s': Server)
    requires Reached(s) && !s.guarded.closed && s.guarded.controls != {}
    requires c !in s.handlers && id !in s.guarded.pending
    ensures Reached(s') && Ended(s', c, 1, 0) && s'.guarded == s.guarded
  {
    hide Reached;
    s' := Waits(s, c, id);
    assert s'.guarded.pending - {id} == s.guarded.pending;
    s' := Goes(s', StreamTakes(id));
    s' := Goes(s', Wake(c));
    s' := Goes(s', RunDeferred(c));
  }

  /** When none comes it is closed, and the listener is then as before. */
  lemma ExpiresClosed(s: Server, c: ConnId, id: StreamId) returns (s': Server)
    requires Reached(s) && !s.guarded.closed && s.guarded.controls != {}
    requires c !in s.handlers && id !in s.guarded.pending
    ensures Reached(s') && Ended(s', c, 0, 1) && s'.guarded == s.guarded
  {
    hide Reached;
    s' := Waits(s, c, id);
    assert s'.guarded.pending - {id} == s.guarded.pending;
    s' := Goes(s', TimeOut(c));
    s' := Goes(s', Expire(c));
    s' := Goes(s', RunDeferred(c));
  }

  /** Closing the listener, or only its pending connections, closes one that waits. */
  lemma ClosedWhileWaiting(s: Server, c: ConnId, id: StreamId) returns (shut: Server, emptied: Server)
    requires Reached(s) && !s.guarded.closed && s.guarded.controls != {}
    requires c !in s.handlers && id !in s.guarded.pending
    ensures Reached(shut) && Ended(shut, c, 0, 1) && shut.guarded == Guarded({}, map[], true)
    ensures Reached(emptied) && Ended(emptied, c, 0, 1) && emptied.guarded == Guarded(s.guarded.controls, map[], false)
  {
    hide Reached;
    var w := Waits(s, c, id);
    assert w.guarded.pending[id] in w.guarded.pending.Values;
    shut := Goes(w, ListenerClosed);
    shut := Goes(shut, Wake(c));
    shut := Goes(shut, RunDeferred(c));
    emptied := Goes(w, PendingClosed);
    emptied := Goes(emptied, Wake(c));
    emptied := Goes(emptied, RunDeferred(c));
  }

  /** A control comes only into an open listener without one. */
  lemma ControlComes(s: Server, k: ControlId) returns (added: Server, removed: Server)
    requires Reached(s) && !s.guarded.closed && s.guarded.controls == {}
    ensures Reached(added) && added == s.(guarded := s.guarded.(controls := {k}))
    ensures Reached(removed) && removed == s
  {
    hide Reached;
    added := Goes(s, ControlAdded(k));
    removed := Goes(added, ControlRemoved(k));
    assert {k} - {k} == {};
  }

  lemma ClosedIsFinal(s: Server, step: Step)
    requires Enabled(s, step) && s.guarded.closed
    ensures Apply(s, step).guarded.closed
  {
  }

  /** A closed listener never again has a control or a pending connection. */
  lemma {:induction false} ClosedStaysEmpty(run: seq<Server>, steps: seq<Step>, i: nat, j: nat)
    requires IsRun(run, steps) && i <= j < |run| && run[i].guarded.closed
    ensures run[j].guarded.closed && run[j].guarded.controls == {} && run[j].guarded.pending == map[]
  {
    hide Apply, Enabled, ConnInv, StreamInv;
    RunKeepsInv(run, steps, j);
    if i < j {
      ClosedStaysEmpty(run, steps, i, j - 1);
      ClosedIsFinal(run[j - 1], steps[j - 1]);
    }
  }
}
