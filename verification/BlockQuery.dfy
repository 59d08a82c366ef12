// The query of a block over every run of the failure tracker: it looks at the permanent set without the lock,
// reads the entries under the read lock, and may look again under the lock. Any sections of other threads run
// before, between and after the three.
module BlockQuery {
  import opened FailModel
  import opened TrackerSteps

  /** A query looks at the permanent set in state first, reads the entries in state read, and looks again, if it
      does, in state again. It reads the clock between the last two, and no reading is older than what a section
      has seen before it. */
  datatype Query = Query(key: string, first: nat, read: nat, again: nat, now: int)

  ghost predicate QueryOf(q: Query, run: seq<Shared>) {
    && q.first <= q.read <= q.again < |run|
    && run[q.read].ledger.clock <= q.now <= run[q.again].ledger.clock
  }

  ghost function FirstSection(q: Query, run: seq<Shared>): Answer
    requires QueryOf(q, run)
  {
    ReadAnswer(run[q.read].entries, q.key, q.now)
  }

  /** blockKind */
  ghost function AnswerTo(q: Query, run: seq<Shared>): Kind
    requires QueryOf(q, run)
  {
    if q.key in run[q.first].permanent then Permanent
    else
      match FirstSection(q, run)
      case Final(kind) => kind
      case LookAgain => RecheckAnswer(run[q.again].entries, run[q.again].permanent, q.key, q.now)
  }

  /** The state whose section gives the answer. */
  ghost function Answering(q: Query, run: seq<Shared>): nat
    requires QueryOf(q, run)
  {
    if FirstSection(q, run).Final? then q.read else q.again
  }

  /** A block stands at the answering section: a permanent one, or a temporary one that has not run out by the
      clock reading or by the time of the section, whichever is later. */
  ghost predicate BlockStands(q: Query, run: seq<Shared>)
    requires QueryOf(q, run)
  {
    var s := run[Answering(q, run)];
    BlockedAt(s.entries, s.permanent, q.key, if q.now > s.ledger.clock then q.now else s.ledger.clock)
  }

  /** Between the two states the address was promoted, and no one has undone that since. */
  ghost predicate PromotedBetween(steps: seq<Section>, key: string, from: nat, to: nat)
    requires to <= |steps|
  {
    exists i | from <= i < to :: steps[i] == Promotes(key) && NotUndone(steps, key, i + 1, to)
  }

  ghost predicate NotUndone(steps: seq<Section>, key: string, from: nat, to: nat)
    requires to <= |steps|
  {
    forall j | from <= j < to :: steps[j] != UnblocksPermanently(key)
  }

  lemma PermanentStep(s: Shared, step: Section, cfg: Limits, key: string)
    requires Enabled(s, step, cfg)
    ensures key in Apply(s, step, cfg).permanent <==>
            step == Promotes(key) || (key in s.permanent && step != UnblocksPermanently(key))
  {
  }

  lemma {:induction false} PermanentIffPromoted(run: seq<Shared>, steps: seq<Section>, cfg: Limits, key: string,
                                                from: nat, to: nat)
    requires IsRun(run, steps, cfg) && from <= to < |run| && key !in run[from].permanent
    ensures key in run[to].permanent <==> PromotedBetween(steps, key, from, to)
  {
    if from < to {
      var last := to - 1;
      PermanentIffPromoted(run, steps, cfg, key, from, last);
      PermanentStep(run[last], steps[last], cfg, key);
      hide Apply, Enabled, SharedInv;
      PromotedStep(steps, key, from, last);
    }
  }

  lemma PromotedStep(steps: seq<Section>, key: string, from: nat, last: nat)
    requires from <= last < |steps|
    ensures PromotedBetween(steps, key, from, last + 1) <==>
            || steps[last] == Promotes(key)
            || (PromotedBetween(steps, key, from, last) && steps[last] != UnblocksPermanently(key))
  {
    if steps[last] == Promotes(key) {
      assert NotUndone(steps, key, last + 1, last + 1);
    }
    forall i | from <= i < last && steps[i] == Promotes(key)
      ensures NotUndone(steps, key, i + 1, last + 1) <==>
              NotUndone(steps, key, i + 1, last) && steps[last] != UnblocksPermanently(key)
    {
    }
  }

  /** Over every run, a query misses a block that stands when it is answered if and only if the address was not
      permanent at the first look and has been promoted between that look and the answering section. */
  lemma BlockMissedIffPromoted(q: Query, run: seq<Shared>, steps: seq<Section>, cfg: Limits)
    requires IsRun(run, steps, cfg) && QueryOf(q, run) && BlockStands(q, run)
    ensures AnswerTo(q, run) == NotBlocked <==>
            && q.key !in run[q.first].permanent
            && PromotedBetween(steps, q.key, q.first, Answering(q, run))
  {
    if q.key !in run[q.first].permanent {
      var at := Answering(q, run);
      RunKeepsInv(run, steps, cfg, q.read);
      RunKeepsInv(run, steps, cfg, q.again);
      PermanentIffPromoted(run, steps, cfg, q.key, q.first, at);
      hide IsRun, PromotedBetween;
      AnswerWithoutFirstLook(q, run, cfg);
    }
  }

  lemma AnswerWithoutFirstLook(q: Query, run: seq<Shared>, cfg: Limits)
    requires QueryOf(q, run) && SharedInv(run[q.read], cfg) && SharedInv(run[q.again], cfg)
    requires q.key !in run[q.first].permanent && BlockStands(q, run)
    ensures AnswerTo(q, run) == NotBlocked <==> q.key in run[Answering(q, run)].permanent
    ensures AnswerTo(q, run) != NotBlocked ==> AnswerTo(q, run) == Temporary
  {
    hide FailuresAgree, BlockAgrees, OnDisk;
  }

  /** No section between the two states lifts the address's block: no unblock, no promotion that failed, and no
      permanent unblock while the address is permanent. */
  ghost predicate NotLifted(run: seq<Shared>, steps: seq<Section>, key: string, from: nat, to: nat)
    requires to <= |steps| <= |run|
  {
    forall i | from <= i < to ::
      && steps[i] != Unblocks(key) && steps[i] != PromotionFails(key)
      && (steps[i] == UnblocksPermanently(key) ==> key !in run[i].permanent)
  }

  ghost predicate NotPromoted(steps: seq<Section>, key: string, from: nat, to: nat)
    requires to <= |steps|
  {
    forall i | from <= i < to :: steps[i] != Promotes(key)
  }

  /** A block until the given time is promised, and a new one now would not end earlier. */
  ghost predicate Promised(s: Shared, key: string, until: int, cfg: Limits) {
    key in s.ledger.promised && until <= s.ledger.promised[key] && until <= s.ledger.clock + cfg.blockFor
  }

  lemma PromiseStep(s: Shared, step: Section, cfg: Limits, key: string, until: int)
    requires SharedInv(s, cfg) && Enabled(s, step, cfg) && Promised(s, key, until, cfg)
    requires step != Unblocks(key) && step != PromotionFails(key) && step != Promotes(key)
    ensures Promised(Apply(s, step, cfg), key, until, cfg)
  {
    hide Inv, CleanAll, Failed, Saved, Rechecked;
  }

  lemma {:induction false} PromiseStands(run: seq<Shared>, steps: seq<Section>, cfg: Limits, key: string, until: int,
                                         from: nat, to: nat)
    requires IsRun(run, steps, cfg) && from <= to < |run| && Promised(run[from], key, until, cfg)
    requires NotLifted(run, steps, key, from, to) && NotPromoted(steps, key, from, to)
    ensures Promised(run[to], key, until, cfg)
  {
    hide Apply, Enabled, SharedInv, Promised;
    if from < to {
      PromiseStands(run, steps, cfg, key, until, from, to - 1);
      RunKeepsInv(run, steps, cfg, to - 1);
      PromiseStep(run[to - 1], steps[to - 1], cfg, key, until);
    }
  }

  /** A promised block either still stands, or has become permanent and stayed so. */
  lemma {:induction false} StandsOrPermanent(run: seq<Shared>, steps: seq<Section>, cfg: Limits, key: string,
                                             until: int, from: nat, to: nat)
    requires IsRun(run, steps, cfg) && from <= to < |run| && Promised(run[from], key, until, cfg)
    requires NotLifted(run, steps, key, from, to)
    ensures Promised(run[to], key, until, cfg) || key in run[to].permanent
  {
    if from < to {
      var last := to - 1;
      StandsOrPermanent(run, steps, cfg, key, until, from, last);
      PermanentStep(run[last], steps[last], cfg, key);
      RunKeepsInv(run, steps, cfg, last);
      hide Apply, Enabled, SharedInv, Promised;
      if Promised(run[last], key, until, cfg) && steps[last] != Promotes(key) {
        PromiseStep(run[last], steps[last], cfg, key, until);
      }
    }
  }

  /** A temporary block is never lost early: unless it is lifted, every query that reads the clock before its
      deadline answers Temporary or Permanent, as long as the address is not promoted inside the query. */
  lemma PromisedBlockIsAnswered(q: Query, run: seq<Shared>, steps: seq<Section>, cfg: Limits, from: nat, until: int)
    requires IsRun(run, steps, cfg) && QueryOf(q, run) && from <= q.first
    requires Promised(run[from], q.key, until, cfg) && q.now < until
    requires NotLifted(run, steps, q.key, from, q.read) && NotPromoted(steps, q.key, q.first, q.read)
    ensures AnswerTo(q, run) == Temporary || AnswerTo(q, run) == Permanent
  {
    StandsOrPermanent(run, steps, cfg, q.key, until, from, q.first);
    if q.key !in run[q.first].permanent {
      PromiseStands(run, steps, cfg, q.key, until, q.first, q.read);
      RunKeepsInv(run, steps, cfg, q.read);
      var s := run[q.read];
      hide FailuresAgree, OnDisk;
      RunningBlockIsSeen(s.entries, s.permanent, s.disk, s.ledger, q.key, q.now, cfg);
    }
  }

  /** A failure that completes the limit makes such a promise. */
  lemma BlockIsPromised(s: Shared, cfg: Limits, key: string)
    requires Enabled(s, Fails(key), cfg) && Blocks(s.entries[key], s.ledger.clock, cfg)
    ensures Promised(Apply(s, Fails(key), cfg), key, s.ledger.clock + cfg.blockFor, cfg)
  {
  }

  /** The first way a block is missed: a running block is promoted between the first look and the read. */
  lemma ReadMissesPromotion(s: Shared, cfg: Limits, key: string, now: int)
    returns (q: Query, run: seq<Shared>, steps: seq<Section>)
    requires SharedInv(s, cfg) && key !in s.permanent && key in s.entries
    requires s.entries[key].blockedUntil.After(now) && s.ledger.clock <= now
    requires CompletesProtocol(s.entries[key], s.ledger.clock, cfg)
    ensures IsRun(run, steps, cfg) && run[0] == s && QueryOf(q, run) && q.key == key && q.now == now
    ensures BlockStands(q, run) && AnswerTo(q, run) == NotBlocked
  {
    hide Inv;
    steps := [Promotes(key), ReadsClock(now)];
    var s1 := Apply(s, steps[0], cfg);
    run := [s, s1, Apply(s1, steps[1], cfg)];
    q := Query(key, 0, 1, 2, now);
    assert s1.ledger.clock == s.ledger.clock && key !in s1.entries && key in s1.permanent;
  }

  /** The second way: the deadline the query read has run out, so it looks again; meanwhile the block was renewed
      and the address promoted. It answers "not blocked" before the new deadline. */
  lemma RecheckMissesPromotion(s: Shared, cfg: Limits, key: string)
    returns (q: Query, run: seq<Shared>, steps: seq<Section>)
    requires SharedInv(s, cfg) && key !in s.permanent && key in s.entries && s.entries[key].blockedUntil.Until?
    requires !s.entries[key].blockedUntil.After(s.ledger.clock)
    requires Blocks(s.entries[key], s.ledger.clock, cfg) && CompletesProtocol(s.entries[key], s.ledger.clock, cfg)
    requires cfg.blockFor > 0
    ensures IsRun(run, steps, cfg) && run[0] == s && QueryOf(q, run) && q.key == key
    ensures FirstSection(q, run) == LookAgain && AnswerTo(q, run) == NotBlocked && BlockStands(q, run)
    ensures steps == [Fails(key), Promotes(key)] && run[1].entries[key].blockedUntil.After(q.now)
  {
    hide Inv;
    steps := [Fails(key), Promotes(key)];
    var s1 := Apply(s, steps[0], cfg);
    assert key in s1.entries && s1.ledger.clock == s.ledger.clock;
    var s2 := Apply(s1, steps[1], cfg);
    run := [s, s1, s2];
    q := Query(key, 0, 0, 2, s.ledger.clock);
    assert key !in s2.entries && key in s2.permanent && s2.ledger.clock == s.ledger.clock;
  }
}
