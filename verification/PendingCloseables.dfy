// Items that a cancellation closes, over every interleaving of track, release and one cancelAll.
// Every access to the atomic flag or to the concurrent set is one step.
module PendingCloseables {
  type Item = nat

  /** How far the call that tracks an item has come. */
  datatype Track = FlagRead | Added | FlagSeen | TakenBack | Done

  datatype Cancel = NotCalled | FlagSet | Closing(todo: set<Item>) | Taken(item: Item, rest: set<Item>) | Finished

  /** closes counts the closes of each tracked item; releasedItems are those a release took out of the set. */
  datatype State = State(cancelled: bool, items: set<Item>, tracks: map<Item, Track>, closes: map<Item, nat>,
                         releasedItems: set<Item>, cancel: Cancel)

  datatype Step =
    | TrackReadsFlag(v: Item)
    | TrackAdds(v: Item)
    | TrackRereadsFlag(v: Item)
    | TrackRemoves(v: Item)
    | TrackCloses(v: Item)
    | Releases(v: Item)
    | CancelSetsFlag
    | CancelLists(concurrent: set<Item>)
    | CancelRemoves(v: Item)
    | CancelCloses
    | CancelEnds

  const INITIAL := State(false, {}, map[], map[], {}, NotCalled)

  predicate At(s: State, v: Item, at: Track) {
    v in s.tracks && s.tracks[v] == at
  }

  predicate Enabled(s: State, step: Step) {
    match step
    case TrackReadsFlag(v) => v !in s.tracks
    case TrackAdds(v) => At(s, v, FlagRead)
    case TrackRereadsFlag(v) => At(s, v, Added)
    case TrackRemoves(v) => At(s, v, FlagSeen)
    case TrackCloses(v) => At(s, v, TakenBack) && v in s.closes
    case Releases(v) => true
    case CancelSetsFlag => s.cancel.NotCalled?
    case CancelLists(concurrent) => s.cancel.FlagSet?
    case CancelRemoves(v) => s.cancel.Closing? && v in s.cancel.todo
    case CancelCloses => s.cancel.Taken? && s.cancel.item in s.closes
    case CancelEnds => s.cancel == Closing({})
  }

  function Closed(s: State, v: Item): State
    requires v in s.closes
  {
    s.(closes := s.closes[v := s.closes[v] + 1])
  }

  function Apply(s: State, step: Step): State
    requires Enabled(s, step)
  {
    match step
    case TrackReadsFlag(v) =>
      if s.cancelled then s.(tracks := s.tracks[v := Done], closes := s.closes[v := 1])
      else s.(tracks := s.tracks[v := FlagRead], closes := s.closes[v := 0])
    case TrackAdds(v) => s.(items := s.items + {v}, tracks := s.tracks[v := Added])
    case TrackRereadsFlag(v) => s.(tracks := s.tracks[v := if s.cancelled then FlagSeen else Done])
    case TrackRemoves(v) => s.(items := s.items - {v}, tracks := s.tracks[v := if v in s.items then TakenBack else Done])
    case TrackCloses(v) => Closed(s, v).(tracks := s.tracks[v := Done])
    case Releases(v) => if v in s.items then s.(items := s.items - {v}, releasedItems := s.releasedItems + {v}) else s
    case CancelSetsFlag => s.(cancelled := true, cancel := FlagSet)
    // The list holds every item of the set, and perhaps items that others add or have just removed.
    case CancelLists(concurrent) => s.(cancel := Closing(s.items + concurrent))
    case CancelRemoves(v) =>
      var rest := s.cancel.todo - {v};
      s.(items := s.items - {v}, cancel := if v in s.items then Taken(v, rest) else Closing(rest))
    case CancelCloses => Closed(s, s.cancel.item).(cancel := Closing(s.cancel.rest))
    case CancelEnds => s.(cancel := Finished)
  }

  function Count(b: bool): nat {
    if b then 1 else 0
  }

  predicate CancelWillSee(s: State, v: Item) {
    match s.cancel
    case NotCalled => true
    case FlagSet => true
    case Closing(todo) => v in todo
    case Taken(_, rest) => v in rest
    case Finished => false
  }

  /** An item is always in exactly one place, and one left in the set will still be looked at:
      by its own track call if that has not reread the flag, and otherwise by the cancellation. */
  ghost predicate ItemInv(s: State, v: Item) {
    && (v in s.tracks <==> v in s.closes)
    && (v in s.items ==> At(s, v, Added) || At(s, v, FlagSeen) || At(s, v, Done))
    && (v in s.releasedItems ==> v in s.tracks)
    && (s.cancel.Taken? && s.cancel.item == v ==> v in s.tracks)
    && (v in s.tracks ==>
          s.closes[v] + Count(v in s.items) + Count(v in s.releasedItems) + Count(At(s, v, FlagRead))
          + Count(At(s, v, TakenBack)) + Count(s.cancel.Taken? && s.cancel.item == v) == 1)
    && (v in s.items && At(s, v, Done) ==> CancelWillSee(s, v))
  }

  ghost predicate Inv(s: State) {
    && (forall v :: ItemInv(s, v))
    && (s.cancelled <==> !s.cancel.NotCalled?)
  }

  lemma StepKeepsItem(s: State, step: Step, v: Item)
    requires Inv(s) && Enabled(s, step)
    ensures ItemInv(Apply(s, step), v)
  {
    assert ItemInv(s, v);
    if step.CancelCloses? {
      assert ItemInv(s, s.cancel.item);
    }
  }

  lemma StepKeepsInv(s: State, step: Step)
    requires Inv(s) && Enabled(s, step)
    ensures Inv(Apply(s, step))
  {
    hide ItemInv;
    forall v
      ensures ItemInv(Apply(s, step), v)
    {
      StepKeepsItem(s, step, v);
    }
  }

  ghost predicate IsRun(run: seq<State>, steps: seq<Step>) {
    && |run| == |steps| + 1 && run[0] == INITIAL
    && forall i | 0 <= i < |steps| :: Enabled(run[i], steps[i]) && run[i + 1] == Apply(run[i], steps[i])
  }

  lemma {:induction false} RunKeepsInv(run: seq<State>, steps: seq<Step>, i: nat)
    requires IsRun(run, steps) && i < |run|
    ensures Inv(run[i])
  {
    if i > 0 {
      RunKeepsInv(run, steps, i - 1);
      StepKeepsInv(run[i - 1], steps[i - 1]);
    }
  }

  /** The state is the last one of some run. */
  ghost predicate Reached(s: State) {
    exists run, steps :: IsRun(run, steps) && run[|steps|] == s
  }

  lemma StartReached()
    ensures Reached(INITIAL)
  {
    var run: seq<State>, steps: seq<Step> := [INITIAL], [];
    assert IsRun(run, steps) && run[|steps|] == INITIAL;
  }

  lemma Goes(s: State, step: Step) returns (s': State)
    requires Reached(s) && Enabled(s, step)
    ensures s' == Apply(s, step) && Reached(s')
  {
    s' := Apply(s, step);
    var run, steps :| IsRun(run, steps) && run[|steps|] == s;
    var run', steps' := run + [s'], steps + [step];
    assert IsRun(run', steps') && run'[|steps'|] == s';
  }

  /** There is a run that takes every kind of step: a is closed by the cancellation and b, which comes too late for it,
      by its own second look; r is released before, and e comes after the flag was set. */
  lemma SomeRunEnds(a: Item, b: Item, r: Item, e: Item) returns (s: State)
    requires a != b && a != r && a != e && b != r && b != e && r != e
    ensures Reached(s) && s.cancel.Finished? && s.items == {} && s.releasedItems == {r}
    ensures s.tracks == map[a := Done, r := Done, b := Done, e := Done]
    ensures s.closes == map[a := 1, r := 0, b := 1, e := 1]
  {
    hide *;
    s := TwoTracked(a, r);
    s := Cancelled(s, a, b, r);
    s := TooLate(s, a, b, r, e);
  }

  lemma TwoTracked(a: Item, r: Item) returns (s: State)
    requires a != r
    ensures Reached(s)
    ensures s == State(false, {a}, map[a := Done, r := Done], map[a := 0, r := 0], {r}, NotCalled)
  {
    StartReached();
    hide Reached;
    s := Goes(INITIAL, TrackReadsFlag(a));
    s := Goes(s, TrackAdds(a));
    s := Goes(s, TrackRereadsFlag(a));
    s := Goes(s, TrackReadsFlag(r));
    s := Goes(s, TrackAdds(r));
    s := Goes(s, TrackRereadsFlag(r));
    s := Goes(s, Releases(r));
  }

  lemma Cancelled(s: State, a: Item, b: Item, r: Item) returns (s': State)
    requires a != r && a != b && b != r && Reached(s)
    requires s == State(false, {a}, map[a := Done, r := Done], map[a := 0, r := 0], {r}, NotCalled)
    ensures Reached(s')
    ensures s' == State(true, {}, map[a := Done, r := Done, b := FlagRead], map[a := 1, r := 0, b := 0], {r}, Finished)
  {
    hide Reached;
    s' := Goes(s, TrackReadsFlag(b));
    s' := Goes(s', CancelSetsFlag);
    s' := Goes(s', CancelLists({}));
    s' := Goes(s', CancelRemoves(a));
    s' := Goes(s', CancelCloses);
    assert s'.cancel == Closing({});
    s' := Goes(s', CancelEnds);
  }

  lemma TooLate(s: State, a: Item, b: Item, r: Item, e: Item) returns (s': State)
    requires a != b && a != r && a != e && b != r && b != e && r != e && Reached(s)
    requires s == State(true, {}, map[a := Done, r := Done, b := FlagRead], map[a := 1, r := 0, b := 0], {r}, Finished)
    ensures Reached(s')
    ensures s' == State(true, {}, map[a := Done, r := Done, b := Done, e := Done], map[a := 1, r := 0, b := 1, e := 1],
                        {r}, Finished)
  {
    hide Reached;
    s' := Goes(s, TrackAdds(b));
    s' := Goes(s', TrackRereadsFlag(b));
    s' := Goes(s', TrackRemoves(b));
    s' := Goes(s', TrackCloses(b));
    s' := Goes(s', TrackReadsFlag(e));
  }

  /** At every moment of every run no item has been closed twice, and none that a release took out is closed. */
  lemma ClosedAtMostOnce(run: seq<State>, steps: seq<Step>, i: nat, v: Item)
    requires IsRun(run, steps) && i < |run| && v in run[i].closes
    ensures run[i].closes[v] + Count(v in run[i].releasedItems) <= 1
  {
    RunKeepsInv(run, steps, i);
    assert ItemInv(run[i], v);
  }

  /** When cancelAll has finished, an item whose track call has returned and that no release took out
      has been closed exactly once. */
  lemma CancelledItemsAreClosed(run: seq<State>, steps: seq<Step>, i: nat, v: Item)
    requires IsRun(run, steps) && i < |run| && run[i].cancel.Finished? && At(run[i], v, Done)
    ensures v !in run[i].items
    ensures v in run[i].closes && run[i].closes[v] == if v in run[i].releasedItems then 0 else 1
  {
    RunKeepsInv(run, steps, i);
    assert ItemInv(run[i], v);
  }

  /** The second look at the flag is needed: an item added after the cancellation listed the set
      would otherwise stay open for good. */
  lemma SecondLookIsNeeded(s: State, v: Item)
    requires Inv(s) && s.cancel.Finished? && At(s, v, FlagRead)
    ensures Enabled(s, TrackAdds(v)) && v in Apply(s, TrackAdds(v)).items
    ensures !CancelWillSee(Apply(s, TrackAdds(v)), v)
    ensures Inv(Apply(s, TrackAdds(v))) && Apply(Apply(s, TrackAdds(v)), TrackRereadsFlag(v)).tracks[v] == FlagSeen
  {
    StepKeepsInv(s, TrackAdds(v));
  }
}
