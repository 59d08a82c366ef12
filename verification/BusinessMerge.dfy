// One row for all the log entries of a lifecycle: how two entries merge, and what a merged group says.
module BusinessMerge {
  import opened Collections

  /** A log time: empty, or the instant that an RFC 3339 text denotes, in nanoseconds. Several texts denote one
      instant. */
  type Time = Option<int>

  datatype TextField =
    RemoteIP | Username | ClientID | ForwardName | Direction | Target | ListenAddr | Code | Message

  datatype NumberField = DurationMS | BytesUp | BytesDown

  datatype Details = Details(remoteIP: string, username: string, clientID: string, forwardName: string,
                             direction: string, target: string, listenAddr: string, code: string, message: string,
                             durationMS: int, bytesUp: int, bytesDown: int) {
    function Text(f: TextField): string {
      match f
      case RemoteIP => remoteIP
      case Username => username
      case ClientID => clientID
      case ForwardName => forwardName
      case Direction => direction
      case Target => target
      case ListenAddr => listenAddr
      case Code => code
      case Message => message
    }

    function Number(f: NumberField): int {
      match f
      case DurationMS => durationMS
      case BytesUp => bytesUp
      case BytesDown => bytesDown
    }
  }

  /** timeText is the text of the time, as the log spells it. */
  datatype Entry = Entry(time: Time, timeText: string, startedAt: Time, endedAt: Time, requestID: string, kind: string,
                         result: string, details: Details)

  /** businessTimeAfter and businessTimeBefore; an empty text compares below every other. */
  predicate After(a: Time, b: Time) {
    a.Some? && (b.None? || a.value > b.value)
  }

  predicate Before(a: Time, b: Time) {
    After(b, a)
  }

  function Priority(result: string): nat {
    if result in {"closed", "failed", "denied", "blocked", "error"} then 4
    else if result in {"connected", "activated"} then 3
    else if result == "ok" then 2
    else if result == "" then 0
    else 1
  }

  predicate IsLifecycleKind(kind: string) {
    kind == "open" || kind == "reverse_stream" || kind == "reverse_listen"
  }

  predicate IsLifecycle(e: Entry) {
    e.requestID != "" && IsLifecycleKind(e.kind)
  }

  function LifecycleKey(e: Entry): (key: string)
    ensures key == "" <==> !IsLifecycle(e)
  {
    if e.requestID == "" || !IsLifecycleKind(e.kind) then "" else e.requestID + "\0" + e.kind
  }

  lemma LastNulSplits(p: string, k: string, q: string, l: string)
    requires '\0' !in k && '\0' !in l && p + "\0" + k == q + "\0" + l
    ensures p == q && k == l
  {
    var x := p + "\0" + k;
    assert forall i | |p| < i < |x| :: x[i] == k[i - |p| - 1];
    assert forall i | |q| < i < |x| :: x[i] == l[i - |q| - 1];
    assert x[|p|] == '\0' && x[|q|] == '\0';
    assert x[..|p|] == p && x[..|q|] == q && x[|p| + 1..] == k && x[|q| + 1..] == l;
  }

  /** The key stands for one request and one lifecycle kind, whatever characters the request id has. */
  lemma LifecycleKeyIsInjective(a: Entry, b: Entry)
    requires LifecycleKey(a) != ""
    ensures LifecycleKey(a) == LifecycleKey(b) <==> a.requestID == b.requestID && a.kind == b.kind
  {
    if LifecycleKey(a) == LifecycleKey(b) {
      LastNulSplits(a.requestID, a.kind, b.requestID, b.kind);
    }
  }

  function FirstText(dst: string, src: string): string {
    if dst == "" then src else dst
  }

  function FirstNumber(dst: int, src: int): int {
    if dst == 0 then src else dst
  }

  function CarryDetails(d: Details, s: Details): Details {
    Details(FirstText(d.remoteIP, s.remoteIP), FirstText(d.username, s.username), FirstText(d.clientID, s.clientID),
            FirstText(d.forwardName, s.forwardName), FirstText(d.direction, s.direction),
            FirstText(d.target, s.target), FirstText(d.listenAddr, s.listenAddr), FirstText(d.code, s.code),
            FirstText(d.message, s.message), FirstNumber(d.durationMS, s.durationMS),
            FirstNumber(d.bytesUp, s.bytesUp), FirstNumber(d.bytesDown, s.bytesDown))
  }

  /** carryBusinessFields */
  function Carry(dst: Entry, src: Entry): Entry {
    Entry(
      if dst.time.None? then src.time else dst.time,
      if dst.time.None? then src.timeText else dst.timeText,
      if dst.startedAt.None? || (src.startedAt.Some? && Before(src.startedAt, dst.startedAt)) then src.startedAt
      else dst.startedAt,
      if dst.endedAt.None? || (src.endedAt.Some? && After(src.endedAt, dst.endedAt)) then src.endedAt
      else dst.endedAt,
      FirstText(dst.requestID, src.requestID),
      FirstText(dst.kind, src.kind),
      FirstText(dst.result, src.result),
      CarryDetails(dst.details, src.details))
  }

  /** mergeBusinessLifecycle */
  function Merge(dst: Entry, src: Entry): Entry {
    var srcPriority, dstPriority := Priority(src.result), Priority(dst.result);
    if srcPriority > dstPriority || (srcPriority == dstPriority && After(src.time, dst.time)) then Carry(src, dst)
    else Carry(dst, src)
  }

  lemma MergeKeepsKey(dst: Entry, src: Entry)
    requires LifecycleKey(dst) == LifecycleKey(src) != ""
    ensures LifecycleKey(Merge(dst, src)) == LifecycleKey(dst)
  {
    LifecycleKeyIsInjective(dst, src);
  }

  /** A group of entries merged one after the other. */
  function Folded(group: seq<Entry>): Entry
    requires group != []
  {
    var n := |group| - 1;
    if n == 0 then group[0] else Merge(Folded(group[..n]), group[n])
  }

  /** The group's summary, said without any order. */
  ghost predicate IsTop(p: nat, group: seq<Entry>) {
    && (exists e | e in group :: Priority(e.result) == p)
    && forall e | e in group :: Priority(e.result) <= p
  }

  ghost predicate IsEarliestStart(t: Time, group: seq<Entry>) {
    && (exists e | e in group :: e.startedAt == t)
    && forall e | e in group && e.startedAt.Some? :: t.Some? && t.value <= e.startedAt.value
  }

  ghost predicate IsLatestEnd(t: Time, group: seq<Entry>) {
    && (exists e | e in group :: e.endedAt == t)
    && forall e | e in group && e.endedAt.Some? :: t.Some? && e.endedAt.value <= t.value
  }

  ghost predicate Timed(group: seq<Entry>) {
    forall e | e in group :: e.time.Some?
  }

  /** The row's time and result are those of a latest entry among the ones with the highest priority. */
  ghost predicate IsDecisive(time: Time, result: string, group: seq<Entry>) {
    && (exists e | e in group :: e.time == time && e.result == result)
    && IsTop(Priority(result), group)
    && forall e | e in group && Priority(e.result) == Priority(result) :: !After(e.time, time)
  }

  lemma {:induction false} FoldedKeepsKey(group: seq<Entry>, key: string)
    requires group != [] && key != "" && forall e | e in group :: LifecycleKey(e) == key
    ensures LifecycleKey(Folded(group)) == key
  {
    var n := |group| - 1;
    if n > 0 {
      FoldedKeepsKey(group[..n], key);
      assert group[n] in group;
      MergeKeepsKey(Folded(group[..n]), group[n]);
    }
  }

  lemma {:induction false} FoldedHasTopPriority(group: seq<Entry>)
    requires group != []
    ensures IsTop(Priority(Folded(group).result), group)
  {
    hide Merge, Priority;
    var n := |group| - 1;
    assert group == group[..n] + [group[n]];
    if n > 0 {
      FoldedHasTopPriority(group[..n]);
      MergePriority(Folded(group[..n]), group[n]);
    }
  }

  lemma MergePriority(dst: Entry, src: Entry)
    ensures var p, q := Priority(dst.result), Priority(src.result);
            Priority(Merge(dst, src).result) == if q > p then q else p
  {
  }

  lemma {:induction false} FoldedSpan(group: seq<Entry>)
    requires group != []
    ensures IsEarliestStart(Folded(group).startedAt, group)
    ensures IsLatestEnd(Folded(group).endedAt, group)
  {
    hide Merge;
    var n := |group| - 1;
    assert group == group[..n] + [group[n]];
    if n > 0 {
      FoldedSpan(group[..n]);
      MergeSpan(Folded(group[..n]), group[n]);
    } else {
      assert group[0] in group;
    }
  }

  lemma MergeSpan(dst: Entry, src: Entry)
    ensures var t := Merge(dst, src).startedAt;
            && t in {dst.startedAt, src.startedAt}
            && !(dst.startedAt.Some? && (t.None? || dst.startedAt.value < t.value))
            && !(src.startedAt.Some? && (t.None? || src.startedAt.value < t.value))
    ensures var t := Merge(dst, src).endedAt;
            t in {dst.endedAt, src.endedAt} && !After(dst.endedAt, t) && !After(src.endedAt, t)
  {
  }

  lemma {:induction false} FoldedIsDecisive(group: seq<Entry>)
    requires group != [] && Timed(group)
    ensures Folded(group).time.Some? && IsDecisive(Folded(group).time, Folded(group).result, group)
  {
    hide Merge, Priority;
    var n := |group| - 1;
    assert group == group[..n] + [group[n]];
    FoldedHasTopPriority(group);
    if n > 0 {
      FoldedIsDecisive(group[..n]);
      MergeDecides(Folded(group[..n]), group[n]);
      assert group[n] in group;
    } else {
      assert group[0] in group;
    }
  }

  lemma MergeDecides(dst: Entry, src: Entry)
    requires dst.time.Some? && src.time.Some?
    ensures var m := Merge(dst, src);
            && ((m.time, m.result) == (dst.time, dst.result) || (m.time, m.result) == (src.time, src.result))
            && (Priority(dst.result) == Priority(m.result) ==> !After(dst.time, m.time))
            && (Priority(src.result) == Priority(m.result) ==> !After(src.time, m.time))
  {
  }

  // ---- The row in terms of the results ----

  const ENDED: set<string> := {"closed", "failed", "denied", "blocked", "error"}
  const STARTED: set<string> := {"connected", "activated"}

  /** Both results say that the connection has ended, or both that it has started, or both something unknown. */
  ghost predicate Alike(a: string, b: string) {
    a == b || (a in ENDED && b in ENDED) || (a in STARTED && b in STARTED) || (Unknown(a) && Unknown(b))
  }

  ghost predicate Unknown(a: string) {
    a != "" && a != "ok" && a !in ENDED && a !in STARTED
  }

  ghost predicate SomeEnded(group: seq<Entry>) {
    exists e | e in group :: e.result in ENDED
  }

  ghost predicate SomeStarted(group: seq<Entry>) {
    exists e | e in group :: e.result in STARTED
  }

  /** An end wins over everything else, then a start, then "ok", then any other text; and the row says nothing only
      if no entry does. */
  lemma ResultOfGroup(group: seq<Entry>)
    requires group != []
    ensures var r := Folded(group).result;
            && (exists e | e in group :: e.result == r)
            && (SomeEnded(group) <==> r in ENDED)
            && (!SomeEnded(group) ==> (SomeStarted(group) <==> r in STARTED))
            && (!SomeEnded(group) && !SomeStarted(group) ==> ((exists e | e in group :: e.result == "ok") <==> r == "ok"))
            && (r == "" <==> forall e | e in group :: e.result == "")
  {
    FoldedHasTopPriority(group);
    ResultComes(group);
    var r := Folded(group).result;
    assert Priority("ok") == 2 && Priority("") == 0;
    assert r in ENDED <==> Priority(r) == 4;
    assert r in STARTED <==> Priority(r) == 3;
  }

  lemma {:induction false} ResultComes(group: seq<Entry>)
    requires group != []
    ensures exists e | e in group :: e.result == Folded(group).result
  {
    hide Merge;
    var n := |group| - 1;
    assert group == group[..n] + [group[n]];
    if n > 0 {
      ResultComes(group[..n]);
      assert group[n] in group;
      MergeResult(Folded(group[..n]), group[n]);
    } else {
      assert group[0] in group;
    }
  }

  /** The row's time comes with its own text from one entry, also where some have none. */
  lemma {:induction false} TimeComesWithText(group: seq<Entry>)
    requires group != []
    ensures exists e | e in group :: e.time == Folded(group).time && e.timeText == Folded(group).timeText
  {
    hide Priority;
    var n := |group| - 1;
    assert group == group[..n] + [group[n]];
    assert group[n] in group;
    if n > 0 {
      TimeComesWithText(group[..n]);
    }
  }

  lemma MergeResult(dst: Entry, src: Entry)
    ensures Merge(dst, src).result in {dst.result, src.result}
  {
  }

  /** The row shows everything that this entry says: its time, its result, and each of its details. */
  ghost predicate Shows(row: Entry, e: Entry) {
    && row.time == e.time && row.timeText == e.timeText && row.result == e.result
    && (forall t: TextField :: e.details.Text(t) != "" ==> row.details.Text(t) == e.details.Text(t))
    && (forall k: NumberField :: e.details.Number(k) != 0 ==> row.details.Number(k) == e.details.Number(k))
  }

  lemma MergeShows(dst: Entry, src: Entry, e: Entry)
    requires dst.time.Some? && src.time.Some?
    requires Shows(dst, e)
    ensures Shows(Merge(dst, src), e) || Shows(Merge(dst, src), src)
  {
    ShowsItself(src);
    assert Priority("") == 0 && forall r :: Priority(r) == 0 <==> r == "";
    hide Shows, Carry, Priority;
    var p, q := Priority(dst.result), Priority(src.result);
    if q > p || (q == p && After(src.time, dst.time)) {
      CarryShows(src, dst, src);
    } else {
      CarryShows(dst, src, e);
    }
  }

  lemma CarryShows(dst: Entry, src: Entry, e: Entry)
    requires Shows(dst, e) && dst.time.Some? && (dst.result == "" ==> src.result == "")
    ensures Shows(Carry(dst, src), e)
  {
    var row := Carry(dst, src);
    forall t: TextField | e.details.Text(t) != ""
      ensures row.details.Text(t) == e.details.Text(t)
    {
      CarriesText(dst.details, src.details, t);
    }
    forall k: NumberField | e.details.Number(k) != 0
      ensures row.details.Number(k) == e.details.Number(k)
    {
      CarriesNumber(dst.details, src.details, k);
    }
  }

  lemma CarriesText(d: Details, s: Details, t: TextField)
    ensures d.Text(t) != "" ==> CarryDetails(d, s).Text(t) == d.Text(t)
  {
  }

  lemma CarriesNumber(d: Details, s: Details, k: NumberField)
    ensures d.Number(k) != 0 ==> CarryDetails(d, s).Number(k) == d.Number(k)
  {
  }

  /** With times, the row shows everything that some entry says, and no entry with a result of that kind is later. */
  lemma {:induction false} RowShowsLatest(group: seq<Entry>)
    requires group != [] && Timed(group)
    ensures Folded(group).time.Some?
    ensures exists e | e in group :: Shows(Folded(group), e)
    ensures forall e | e in group && Alike(e.result, Folded(group).result) :: e.time.value <= Folded(group).time.value
  {
    FoldedIsDecisive(group);
    SomeShown(group);
    forall e | e in group && Alike(e.result, Folded(group).result)
      ensures Priority(e.result) == Priority(Folded(group).result)
    {
    }
  }

  lemma {:induction false} SomeShown(group: seq<Entry>)
    requires group != [] && Timed(group)
    ensures exists e | e in group :: Shows(Folded(group), e)
  {
    hide Merge, Shows;
    var n := |group| - 1;
    assert group == group[..n] + [group[n]];
    assert group[n] in group;
    if n > 0 {
      SomeShown(group[..n]);
      FoldedIsDecisive(group[..n]);
      var e :| e in group[..n] && Shows(Folded(group[..n]), e);
      MergeShows(Folded(group[..n]), group[n], e);
      assert e in group;
    } else {
      ShowsItself(group[0]);
    }
  }

  lemma ShowsItself(e: Entry)
    ensures Shows(e, e)
  {
  }

  /** Nothing a row could show is lost: a field is empty only if it is empty in every entry, and what it shows
      comes from one of them. */
  lemma {:induction false} FoldedKeepsDetails(group: seq<Entry>, t: TextField, k: NumberField)
    requires group != []
    ensures exists e | e in group :: e.details.Text(t) == Folded(group).details.Text(t)
    ensures Folded(group).details.Text(t) == "" ==> forall e | e in group :: e.details.Text(t) == ""
    ensures exists e | e in group :: e.details.Number(k) == Folded(group).details.Number(k)
    ensures Folded(group).details.Number(k) == 0 ==> forall e | e in group :: e.details.Number(k) == 0
  {
    hide Merge, Details.Text, Details.Number;
    var n := |group| - 1;
    assert group == group[..n] + [group[n]];
    if n > 0 {
      FoldedKeepsDetails(group[..n], t, k);
      MergeKeepsDetails(Folded(group[..n]), group[n], t, k);
      assert group[n] in group;
    } else {
      assert group[0] in group;
    }
  }

  lemma MergeKeepsDetails(dst: Entry, src: Entry, t: TextField, k: NumberField)
    ensures var m, d, s := Merge(dst, src).details, dst.details, src.details;
            && m.Text(t) in {d.Text(t), s.Text(t)} && (m.Text(t) == "" ==> d.Text(t) == s.Text(t) == "")
            && m.Number(k) in {d.Number(k), s.Number(k)} && (m.Number(k) == 0 ==> d.Number(k) == s.Number(k) == 0)
  {
  }

  ghost predicate SameMembers(group: seq<Entry>, other: seq<Entry>) {
    forall e :: e in group <==> e in other
  }

  lemma TopIsUnique(p: nat, q: nat, group: seq<Entry>, other: seq<Entry>)
    requires SameMembers(group, other) && IsTop(p, group) && IsTop(q, other)
    ensures p == q
  {
    hide Priority;
  }

  lemma SpanIsUnique(t: Time, u: Time, group: seq<Entry>, other: seq<Entry>)
    requires SameMembers(group, other)
    ensures IsEarliestStart(t, group) && IsEarliestStart(u, other) ==> t == u
    ensures IsLatestEnd(t, group) && IsLatestEnd(u, other) ==> t == u
  {
  }

  lemma DecisiveTimeIsUnique(t: Time, r: string, u: Time, q: string, group: seq<Entry>, other: seq<Entry>)
    requires SameMembers(group, other) && t.Some? && u.Some?
    requires IsDecisive(t, r, group) && IsDecisive(u, q, other)
    ensures t == u && Priority(r) == Priority(q)
  {
    TopIsUnique(Priority(r), Priority(q), group, other);
    hide Priority, IsTop;
  }

  /** Whatever order a group's entries come in, the merged row has the same priority, span and time. */
  lemma OrderDoesNotMatter(group: seq<Entry>, other: seq<Entry>)
    requires group != [] && multiset(group) == multiset(other)
    ensures other != []
    ensures Priority(Folded(group).result) == Priority(Folded(other).result)
    ensures Folded(group).startedAt == Folded(other).startedAt && Folded(group).endedAt == Folded(other).endedAt
    ensures Timed(group) ==> Folded(group).time == Folded(other).time
  {
    hide Folded, Priority, Merge, IsTop, IsEarliestStart, IsLatestEnd, IsDecisive;
    assert group[0] in multiset(other);
    assert SameMembers(group, other) by {
      assert forall e :: e in group <==> e in multiset(group);
      assert forall e :: e in other <==> e in multiset(other);
    }
    var x, y := Folded(group), Folded(other);
    FoldedHasTopPriority(group);
    FoldedHasTopPriority(other);
    TopIsUnique(Priority(x.result), Priority(y.result), group, other);
    FoldedSpan(group);
    FoldedSpan(other);
    SpanIsUnique(x.startedAt, y.startedAt, group, other);
    SpanIsUnique(x.endedAt, y.endedAt, group, other);
    if Timed(group) {
      FoldedIsDecisive(group);
      FoldedIsDecisive(other);
      DecisiveTimeIsUnique(x.time, x.result, y.time, y.result, group, other);
    }
  }
}
