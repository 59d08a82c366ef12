// The business flow: log events and request logs gathered into rows, one row for each lifecycle.
module BusinessFlow {
  import opened BusinessMerge
  import opened Collections
  import opened Sorting
  import opened Text

  const SECOND := 1_000_000_000
  const MILLISECOND := 1_000_000

  /** businessStartFromDuration: printing as RFC 3339 drops the fraction of a second. */
  function StartFromDuration(end: Time, durationMS: int): Time {
    if end.None? || durationMS <= 0 then None
    else Some((end.value - durationMS * MILLISECOND) / SECOND * SECOND)
  }

  function NormalKind(kind: string): string {
    if Trim(kind) == "reverse" then "reverse_listen" else Trim(kind)
  }

  /** prepareBusinessFlowEntry */
  function Prepared(entry: Entry): Entry {
    var e := entry.(kind := NormalKind(entry.kind), result := Trim(entry.result));
    if !IsLifecycleKind(e.kind) then e
    else if e.result in {"closed", "failed", "denied", "blocked", "error"} then
      var ended := if e.endedAt.None? then e.time else e.endedAt;
      var started :=
        if e.startedAt.None? && e.details.durationMS > 0 then StartFromDuration(ended, e.details.durationMS)
        else e.startedAt;
      e.(endedAt := ended, startedAt := started)
    else e.(startedAt := if e.startedAt.None? then e.time else e.startedAt)
  }

  /** What preparing an event means for its times. An event that ends a lifecycle gets its own time as the end, and a
      start as long before the end as it lasted, to the second; every other event of a lifecycle gets its own time as
      the start. What an event already says stays, and so do events outside every lifecycle. */
  lemma PreparedTimes(event: Entry)
    ensures var e, kind, result := Prepared(event), Trim(event.kind), Trim(event.result);
            && e.kind == (if kind == "reverse" then "reverse_listen" else kind) && e.result == result
            && e == event.(kind := e.kind, result := e.result, startedAt := e.startedAt, endedAt := e.endedAt)
            && (event.startedAt.Some? ==> e.startedAt == event.startedAt)
            && (event.endedAt.Some? ==> e.endedAt == event.endedAt)
            && (if kind !in {"open", "reverse_stream", "reverse_listen", "reverse"} then
                  e.startedAt == event.startedAt && e.endedAt == event.endedAt
                else if result in {"closed", "failed", "denied", "blocked", "error"} then
                  && (event.endedAt.None? ==> e.endedAt == event.time)
                  && (event.startedAt.None? ==>
                        (e.startedAt.Some? <==> event.details.durationMS > 0 && e.endedAt.Some?))
                  && (event.startedAt.None? && e.startedAt.Some? ==>
                        && e.startedAt.value % 1_000_000_000 == 0
                        && 0 <= e.endedAt.value - event.details.durationMS * 1_000_000 - e.startedAt.value < 1_000_000_000)
                else
                  e.endedAt == event.endedAt && (event.startedAt.None? ==> e.startedAt == event.time))
  {
    hide Trim;
  }

  /** A request log; peer is the answer of requestRemoteIP. */
  datatype Request = Request(time: Time, timeText: string, requestID: string, requestType: string, result: string,
                             ok: bool, code: string, message: string, readError: string, peer: string, username: string,
                             clientID: string, forwardName: string, direction: string, target: string,
                             listenAddr: string, durationMS: int)

  predicate Contains(s: string, part: string) {
    exists i | 0 <= i <= |s| :: part <= s[i..]
  }

  lemma ContainsIff(s: string, part: string)
    ensures Contains(s, part) <==> exists before, after :: s == before + part + after
  {
    if Contains(s, part) {
      var i :| 0 <= i <= |s| && part <= s[i..];
      assert s == s[..i] + part + s[i + |part|..];
    }
    if before, after :| s == before + part + after {
      assert s[|before|..] == part + after;
    }
  }

  function KindOfRequestType(requestType: string): string {
    var kind := NormalKind(requestType);
    if kind in {"health", "login", "open", "reverse_listen", "reverse_stream", "forward_check"} then kind
    else "request"
  }

  /** businessResultFromRequest */
  function ResultOfRequest(r: Request, kind: string): string {
    var result := Trim(r.result);
    var code := Trim(r.code);
    if result == "blocked" || Contains(code, "blocked") then "blocked"
    else if result == "denied" || Contains(code, "denied") then "denied"
    else if result == "failed" || result == "error" || r.readError != "" || (!r.ok && code != "") then "failed"
    else if result == "ok" || r.ok then
      if kind == "open" || kind == "reverse_stream" then "connected"
      else if kind == "reverse_listen" then "activated"
      else "ok"
    else if result != "" then result
    else "failed"
  }

  /** A request is told as a success exactly if it succeeded, by its result or its response, and nothing speaks
      against that: no read error, and no code of a refused or failed one. Of the rest "blocked" wins over "denied",
      that over "failed", and any other result is told as it is. */
  lemma ResultTellsSuccess(r: Request, kind: string)
    ensures var result, code, told := Trim(r.result), Trim(r.code), ResultOfRequest(r, kind);
            var blocked := result == "blocked" || Contains(code, "blocked");
            var denied := result == "denied" || Contains(code, "denied");
            var failed := result in {"failed", "error"} || r.readError != "" || (!r.ok && code != "");
            && (blocked ==> told == "blocked")
            && (denied && !blocked ==> told == "denied")
            && (failed && !blocked && !denied ==> told == "failed")
            && (!blocked && !denied && !failed && (r.ok || result == "ok") ==>
                  && (told == "connected" <==> kind in {"open", "reverse_stream"})
                  && (told == "activated" <==> kind == "reverse_listen")
                  && told in {"connected", "activated", "ok"})
            && (!blocked && !denied && !failed && !r.ok && result != "ok" ==>
                  told == if result == "" then "failed" else result)
  {
    hide Trim, Contains;
  }

  /** businessFlowFromRequest */
  function FlowOf(r: Request): Option<Entry> {
    var kind := KindOfRequestType(r.requestType);
    var result := ResultOfRequest(r, kind);
    if kind == "health" || (kind == "request" && result == "ok") then None
    else
      var message :=
        if Trim(r.readError) == "" then Trim(r.message)
        else if Trim(r.message) == "" then r.readError
        else Trim(r.message) + " / " + r.readError;
      Some(Entry(r.time, r.timeText, r.time, None, r.requestID,
                 if kind == "login" && result != "ok" then "auth" else kind, result,
                 Details(r.peer, r.username, r.clientID, r.forwardName, r.direction, r.target, r.listenAddr,
                         Trim(r.code), message, r.durationMS, 0, 0)))
  }

  /** What a request log tells: nothing of a health check, and of a request without a kind of its own only if it went
      wrong; otherwise who asked for what, when, and how it went. A login that went wrong counts as "auth". */
  lemma FlowTells(r: Request)
    ensures var flow, asked := FlowOf(r), NormalKind(r.requestType);
            var known := asked in {"login", "open", "reverse_listen", "reverse_stream", "forward_check"};
            && (flow.None? <==> asked == "health" || (!known && ResultOfRequest(r, "request") == "ok"))
            && (flow.Some? ==>
                  var e := flow.value;
                  && e.time == e.startedAt == r.time && e.timeText == r.timeText && e.endedAt.None?
                  && e.requestID == r.requestID
                  && e.result == ResultOfRequest(r, if known then asked else "request")
                  && (e.kind == "auth" <==> asked == "login" && e.result != "ok")
                  && (e.kind != "auth" ==> e.kind == if known then asked else "request")
                  && e.details.remoteIP == r.peer && e.details.username == r.username && e.details.clientID == r.clientID
                  && e.details.forwardName == r.forwardName && e.details.direction == r.direction
                  && e.details.target == r.target && e.details.listenAddr == r.listenAddr
                  && e.details.code == Trim(r.code) && e.details.durationMS == r.durationMS
                  && e.details.bytesUp == e.details.bytesDown == 0)
  {
    hide Trim, ResultOfRequest;
  }

  /** The message shows both what the server answered and what went wrong in reading it. */
  lemma FlowMessage(r: Request)
    requires FlowOf(r).Some?
    ensures var message := FlowOf(r).value.details.message;
            && (Trim(r.readError) == "" ==> message == Trim(r.message))
            && (Trim(r.readError) != "" && Trim(r.message) == "" ==> message == r.readError)
            && (Trim(r.readError) != "" && Trim(r.message) != "" ==>
                  message == Trim(r.message) + " / " + r.readError)
  {
    hide Trim, ResultOfRequest;
  }

  /** businessRowKey, for entries that are not part of a lifecycle. */
  function RowKey(e: Entry): string {
    if e.requestID != "" then e.requestID + "\0" + e.kind + "\0" + e.result
    else
      e.timeText + "\0" + e.kind + "\0" + e.result + "\0" + e.details.remoteIP + "\0" + e.details.code + "\0"
      + e.details.message
  }

  predicate NulFree(s: string) {
    '\0' !in s
  }

  lemma FirstNulSplits(p: string, k: string, q: string, l: string)
    requires NulFree(p) && NulFree(q)
    ensures p + "\0" + k == q + "\0" + l <==> p == q && k == l
  {
    var x, y := p + "\0" + k, q + "\0" + l;
    if x == y {
      assert x[|p|] == '\0' && x[|q|] == '\0';
      assert x[..|p|] == p && x[..|q|] == q && x[|p| + 1..] == k && x[|q| + 1..] == l;
      assert forall i | 0 <= i < |p| :: x[i] == p[i];
      assert forall i | 0 <= i < |q| :: x[i] == q[i];
    }
  }

  /** Of entries outside every lifecycle, those with one id, kind and result share a row, and those without an id that
      agree in time, kind, result, address, code and message; no entry with an id shares one with an entry without. */
  lemma RowKeyMeans(a: Entry, b: Entry)
    requires NulFree(a.requestID) && NulFree(a.kind) && NulFree(a.result) && NulFree(a.timeText)
    requires NulFree(b.requestID) && NulFree(b.kind) && NulFree(b.result) && NulFree(b.timeText)
    requires NulFree(a.details.remoteIP) && NulFree(a.details.code) && NulFree(a.details.message)
    requires NulFree(b.details.remoteIP) && NulFree(b.details.code) && NulFree(b.details.message)
    ensures RowKey(a) == RowKey(b) <==>
            if a.requestID != "" || b.requestID != "" then
              (a.requestID, a.kind, a.result) == (b.requestID, b.kind, b.result)
            else
              && (a.timeText, a.kind, a.result) == (b.timeText, b.kind, b.result)
              && (a.details.remoteIP, a.details.code, a.details.message) ==
                 (b.details.remoteIP, b.details.code, b.details.message)
  {
    var restA := a.details.remoteIP + "\0" + (a.details.code + "\0" + a.details.message);
    var restB := b.details.remoteIP + "\0" + (b.details.code + "\0" + b.details.message);
    RowKeyParts(a, restA);
    RowKeyParts(b, restB);
    var firstA := if a.requestID != "" then a.requestID else a.timeText;
    var firstB := if b.requestID != "" then b.requestID else b.timeText;
    var endA := if a.requestID != "" then a.result else a.result + "\0" + restA;
    var endB := if b.requestID != "" then b.result else b.result + "\0" + restB;
    hide RowKey;
    FirstNulSplits(firstA, a.kind + "\0" + endA, firstB, b.kind + "\0" + endB);
    FirstNulSplits(a.kind, endA, b.kind, endB);
    FirstNulSplits(a.result, restA, b.result, restB);
    FirstNulSplits(a.details.remoteIP, a.details.code + "\0" + a.details.message, b.details.remoteIP,
                   b.details.code + "\0" + b.details.message);
    FirstNulSplits(a.details.code, a.details.message, b.details.code, b.details.message);
    assert a.requestID == "" ==> endA[|a.result|] == '\0' && !NulFree(endA);
    assert b.requestID == "" ==> endB[|b.result|] == '\0' && !NulFree(endB);
  }

  lemma RowKeyParts(e: Entry, rest: string)
    requires rest == e.details.remoteIP + "\0" + (e.details.code + "\0" + e.details.message)
    ensures RowKey(e) == (if e.requestID != "" then e.requestID else e.timeText) + "\0" +
                         (e.kind + "\0" + if e.requestID != "" then e.result else e.result + "\0" + rest)
  {
    if e.requestID != "" {
      assert RowKey(e) == e.requestID + "\0" + (e.kind + "\0" + e.result);
    } else {
      assert RowKey(e) == e.timeText + "\0" + (e.kind + "\0" + (e.result + "\0" + rest));
    }
  }

  /** The entries of a log that belong to one lifecycle. */
  ghost function Group(log: seq<Entry>, key: string): seq<Entry> {
    if log == [] then []
    else
      var e := log[|log| - 1];
      Group(log[..|log| - 1], key) + if LifecycleKey(e) == key then [e] else []
  }

  lemma GroupOfOne(log: seq<Entry>, e: Entry, key: string)
    ensures Group(log + [e], key) == if LifecycleKey(e) == key then Group(log, key) + [e] else Group(log, key)
  {
    assert (log + [e])[..|log|] == log;
  }

  lemma {:induction false} GroupMembers(log: seq<Entry>, key: string)
    ensures forall e :: e in Group(log, key) <==> e in log && LifecycleKey(e) == key
  {
    if log != [] {
      GroupMembers(log[..|log| - 1], key);
      assert log == log[..|log| - 1] + [log[|log| - 1]];
    }
  }

  lemma {:induction false} GroupCounts(log: seq<Entry>, key: string)
    ensures forall e :: multiset(Group(log, key))[e] == if LifecycleKey(e) == key then multiset(log)[e] else 0
  {
    if log != [] {
      GroupCounts(log[..|log| - 1], key);
      assert log == log[..|log| - 1] + [log[|log| - 1]];
    }
  }

  ghost function RequestIDs(log: seq<Entry>): set<string> {
    (set e | e in log :: e.requestID) - {""}
  }

  /** The rows say of the log exactly this: each lifecycle has one row, its merged group, found through the index;
      every other entry is represented by one row with its key. */
  ghost predicate Indexed(rows: seq<Entry>, index: map<string, int>) {
    && (forall key | key in index :: 0 <= index[key] < |rows| && key != "" && LifecycleKey(rows[index[key]]) == key)
    && forall i | 0 <= i < |rows| && LifecycleKey(rows[i]) != "" ::
         LifecycleKey(rows[i]) in index && index[LifecycleKey(rows[i])] == i
  }

  ghost predicate GroupedAt(rows: seq<Entry>, index: map<string, int>, log: seq<Entry>, key: string)
    requires Indexed(rows, index)
  {
    && (key in index <==> Group(log, key) != [])
    && (key in index ==> rows[index[key]] == Folded(Group(log, key)))
  }

  ghost predicate Grouped(rows: seq<Entry>, index: map<string, int>, log: seq<Entry>)
    requires Indexed(rows, index)
  {
    forall key: string | key != "" :: GroupedAt(rows, index, log, key)
  }

  /** The rows outside every lifecycle. */
  ghost function Others(rows: seq<Entry>): seq<Entry> {
    if rows == [] then []
    else
      var e := rows[|rows| - 1];
      Others(rows[..|rows| - 1]) + if IsLifecycle(e) then [] else [e]
  }

  ghost function RowKeys(rows: seq<Entry>): set<string> {
    set e | e in rows :: RowKey(e)
  }

  /** The entries outside every lifecycle, in order, only the first for each key. */
  ghost function Firsts(log: seq<Entry>): seq<Entry> {
    if log == [] then []
    else
      var e := log[|log| - 1];
      var before := Firsts(log[..|log| - 1]);
      if !IsLifecycle(e) && RowKey(e) !in RowKeys(before) then before + [e] else before
  }

  lemma {:induction false} FirstsAreOnceEach(log: seq<Entry>)
    ensures var firsts := Firsts(log);
            && (forall e | e in firsts :: e in log && LifecycleKey(e) == "")
            && (forall i, j | 0 <= i < j < |firsts| :: RowKey(firsts[i]) != RowKey(firsts[j]))
            && (forall e | e in log && LifecycleKey(e) == "" :: RowKey(e) in RowKeys(firsts))
  {
    if log != [] {
      var init, e := log[..|log| - 1], log[|log| - 1];
      FirstsAreOnceEach(init);
      assert log == init + [e];
      var before := Firsts(init);
      hide RowKey, LifecycleKey, IsLifecycle;
      assert forall i | 0 <= i < |before| :: before[i] in before;
      assert RowKeys(before + [e]) == RowKeys(before) + {RowKey(e)};
    }
  }

  /** The k-th of the firsts is at position at[k] of the log, and nothing before it there has its key. */
  ghost predicate AreEarliest(log: seq<Entry>, firsts: seq<Entry>, at: seq<nat>) {
    && |at| == |firsts| && (forall k | 0 <= k < |at| :: at[k] < |log| && log[at[k]] == firsts[k])
    && (forall k | 0 < k < |at| :: at[k - 1] < at[k])
    && forall k, j | 0 <= k < |at| && 0 <= j < at[k] && !IsLifecycle(log[j]) :: RowKey(log[j]) != RowKey(firsts[k])
  }

  lemma EarliestStay(log: seq<Entry>, e: Entry, firsts: seq<Entry>, at: seq<nat>)
    requires AreEarliest(log, firsts, at)
    ensures AreEarliest(log + [e], firsts, at)
  {
    hide RowKey, IsLifecycle;
  }

  lemma EarliestGrow(log: seq<Entry>, e: Entry, firsts: seq<Entry>, at: seq<nat>)
    requires AreEarliest(log, firsts, at) && RowKey(e) !in RowKeys(firsts)
    requires forall x | x in log && !IsLifecycle(x) :: RowKey(x) in RowKeys(firsts)
    ensures AreEarliest(log + [e], firsts + [e], at + [|log|])
  {
    hide RowKey, IsLifecycle;
    assert forall j | 0 <= j < |log| :: log[j] in log;
  }

  /** Each representative is the first of its key in the log, and they keep the log's order. */
  lemma {:induction false} FirstsAreEarliest(log: seq<Entry>) returns (at: seq<nat>)
    ensures AreEarliest(log, Firsts(log), at)
  {
    if log == [] {
      at := [];
    } else {
      var init, e := log[..|log| - 1], log[|log| - 1];
      assert log == init + [e];
      at := FirstsAreEarliest(init);
      FirstsAreOnceEach(init);
      hide RowKey, AreEarliest;
      if !IsLifecycle(e) && RowKey(e) !in RowKeys(Firsts(init)) {
        EarliestGrow(init, e, Firsts(init), at);
        at := at + [|init|];
      } else {
        EarliestStay(init, e, Firsts(init), at);
      }
    }
  }

  lemma {:induction false} OthersOfOne(rows: seq<Entry>, e: Entry)
    ensures Others(rows + [e]) == if LifecycleKey(e) == "" then Others(rows) + [e] else Others(rows)
  {
    assert (rows + [e])[..|rows|] == rows;
  }

  lemma {:induction false} OthersOfUpdate(rows: seq<Entry>, i: nat, m: Entry)
    requires i < |rows| && LifecycleKey(rows[i]) != "" && LifecycleKey(m) != ""
    ensures Others(rows[i := m]) == Others(rows)
  {
    hide IsLifecycle, LifecycleKey;
    var n := |rows| - 1;
    if i < n {
      OthersOfUpdate(rows[..n], i, m);
      assert rows[i := m][..n] == rows[..n][i := m];
    } else {
      assert rows[i := m][..n] == rows[..n];
    }
  }

  ghost predicate OthersOnce(rows: seq<Entry>, seen: set<string>, log: seq<Entry>) {
    Others(rows) == Firsts(log) && seen == RowKeys(Firsts(log))
  }

  ghost predicate Tells(rows: seq<Entry>, index: map<string, int>, seen: set<string>, log: seq<Entry>)
  {
    Indexed(rows, index) && Grouped(rows, index, log) && OthersOnce(rows, seen, log)
  }

  /** A new entry of a lifecycle that has a row: the row absorbs it. */
  lemma MergeTells(rows: seq<Entry>, index: map<string, int>, seen: set<string>, log: seq<Entry>, e: Entry)
    requires Tells(rows, index, seen, log) && LifecycleKey(e) in index
    ensures var i := index[LifecycleKey(e)];
            Tells(rows[i := Merge(rows[i], e)], index, seen, log + [e])
  {
    var i := index[LifecycleKey(e)];
    var m := Merge(rows[i], e);
    MergeKeepsKey(rows[i], e);
    IndexedSameKeys(rows, rows[i := m], index);
    OthersOfUpdate(rows, i, m);
    FirstsOfOne(log, e);
    assert OthersOnce(rows[i := m], seen, log + [e]);
    hide Merge, Group, Folded, LifecycleKey, OthersOnce;
    var rows' := rows[i := m];
    forall k: string | k != "" ensures GroupedAt(rows', index, log + [e], k) {
      assert GroupedAt(rows, index, log, k);
      MergeGroupedAt(rows, index, log, e, k);
    }
    hide Indexed, GroupedAt;
  }

  lemma IndexedSameKeys(rows: seq<Entry>, rows': seq<Entry>, index: map<string, int>)
    requires Indexed(rows, index) && |rows'| == |rows|
    requires forall i | 0 <= i < |rows| :: LifecycleKey(rows'[i]) == LifecycleKey(rows[i])
    ensures Indexed(rows', index)
  {
    hide IsLifecycle, LifecycleKey;
  }

  lemma MergeGroupedAt(rows: seq<Entry>, index: map<string, int>, log: seq<Entry>, e: Entry, k: string)
    requires Indexed(rows, index) && LifecycleKey(e) in index && k != ""
    requires GroupedAt(rows, index, log, k)
    requires Indexed(rows[index[LifecycleKey(e)] := Merge(rows[index[LifecycleKey(e)]], e)], index)
    ensures GroupedAt(rows[index[LifecycleKey(e)] := Merge(rows[index[LifecycleKey(e)]], e)], index, log + [e], k)
  {
    GroupOfOne(log, e, k);
    FoldedOfOne(Group(log, k), e);
    hide Merge, Group, Folded, LifecycleKey;
    assert k != LifecycleKey(e) && k in index ==> index[k] != index[LifecycleKey(e)];
  }

  lemma FoldedOfOne(group: seq<Entry>, e: Entry)
    ensures Folded(group + [e]) == if group == [] then e else Merge(Folded(group), e)
  {
    assert (group + [e])[..|group|] == group;
  }

  /** The first entry of a lifecycle gets a row of its own. */
  lemma AppendTells(rows: seq<Entry>, index: map<string, int>, seen: set<string>, log: seq<Entry>, e: Entry)
    requires Tells(rows, index, seen, log) && LifecycleKey(e) != "" && LifecycleKey(e) !in index
    ensures Tells(rows + [e], index[LifecycleKey(e) := |rows|], seen, log + [e])
  {
    var rows', index' := rows + [e], index[LifecycleKey(e) := |rows|];
    OthersGrow(rows, seen, log, e);
    hide IsLifecycle, LifecycleKey, OthersOnce, Folded, Group;
    IndexedGrows(rows, index, e);
    forall k: string | k != "" ensures GroupedAt(rows', index', log + [e], k) {
      assert GroupedAt(rows, index, log, k);
      AppendGroupedAt(rows, index, log, e, k);
    }
    hide Indexed, GroupedAt;
  }

  lemma AppendGroupedAt(rows: seq<Entry>, index: map<string, int>, log: seq<Entry>, e: Entry, k: string)
    requires Indexed(rows, index) && k != "" && GroupedAt(rows, index, log, k)
    ensures LifecycleKey(e) != "" && LifecycleKey(e) !in index && Indexed(rows + [e], index[LifecycleKey(e) := |rows|]) ==>
              GroupedAt(rows + [e], index[LifecycleKey(e) := |rows|], log + [e], k)
    ensures LifecycleKey(e) == "" && Indexed(rows + [e], index) ==> GroupedAt(rows + [e], index, log + [e], k)
    ensures LifecycleKey(e) == "" ==> GroupedAt(rows, index, log + [e], k)
  {
    GroupOfOne(log, e, k);
    FoldedOfOne(Group(log, k), e);
    hide Merge, Group, Folded, LifecycleKey;
    assert Indexed(rows, index);
    hide Indexed;
  }

  lemma IndexedGrows(rows: seq<Entry>, index: map<string, int>, e: Entry)
    requires Indexed(rows, index) && LifecycleKey(e) !in index
    ensures LifecycleKey(e) != "" ==> Indexed(rows + [e], index[LifecycleKey(e) := |rows|])
    ensures LifecycleKey(e) == "" ==> Indexed(rows + [e], index)
  {
    hide IsLifecycle, LifecycleKey;
    assert forall i | 0 <= i < |rows| :: (rows + [e])[i] == rows[i];
  }

  lemma FirstsOfOne(log: seq<Entry>, e: Entry)
    ensures Firsts(log + [e]) ==
            if LifecycleKey(e) == "" && RowKey(e) !in RowKeys(Firsts(log)) then
              Firsts(log) + [e]
            else Firsts(log)
  {
    assert (log + [e])[..|log|] == log;
  }

  lemma OthersGrow(rows: seq<Entry>, seen: set<string>, log: seq<Entry>, e: Entry)
    requires OthersOnce(rows, seen, log)
    ensures LifecycleKey(e) != "" ==> OthersOnce(rows + [e], seen, log + [e])
    ensures LifecycleKey(e) == "" && RowKey(e) !in seen ==>
              OthersOnce(rows + [e], seen + {RowKey(e)}, log + [e])
    ensures LifecycleKey(e) == "" && RowKey(e) in seen ==> OthersOnce(rows, seen, log + [e])
  {
    FirstsOfOne(log, e);
    OthersOfOne(rows, e);
    hide RowKey, LifecycleKey, IsLifecycle, Others, Firsts;
    var firsts := Firsts(log);
    assert RowKeys(firsts + [e]) == RowKeys(firsts) + {RowKey(e)};
  }

  /** An entry outside every lifecycle gets a row unless its key has been seen. */
  lemma OtherTells(rows: seq<Entry>, index: map<string, int>, seen: set<string>, log: seq<Entry>, e: Entry)
    requires Tells(rows, index, seen, log) && LifecycleKey(e) == ""
    ensures RowKey(e) in seen ==> Tells(rows, index, seen, log + [e])
    ensures RowKey(e) !in seen ==> Tells(rows + [e], index, seen + {RowKey(e)}, log + [e])
  {
    OthersGrow(rows, seen, log, e);
    hide RowKey, LifecycleKey, IsLifecycle, OthersOnce, Group, Folded;
    IndexedGrows(rows, index, e);
    forall k: string | k != ""
      ensures GroupedAt(rows, index, log + [e], k)
      ensures GroupedAt(rows + [e], index, log + [e], k)
    {
      assert GroupedAt(rows, index, log, k);
      AppendGroupedAt(rows, index, log, e, k);
    }
    hide Indexed, GroupedAt;
  }

  /** The log as it is after an event: entries without a kind are dropped. */
  ghost function WithEvent(log: seq<Entry>, event: Entry): seq<Entry> {
    if NormalKind(event.kind) == "" then log else log + [Prepared(event)]
  }

  ghost function WithEvents(log: seq<Entry>, events: seq<Entry>): seq<Entry> {
    if events == [] then log
    else WithEvent(WithEvents(log, events[..|events| - 1]), events[|events| - 1])
  }

  /** A request log counts if no entry carries its id yet, and it is neither a health check nor a plain success. */
  predicate Counts(ids: set<string>, r: Request) {
    Trim(r.requestType) != "health" && r.requestID !in ids && FlowOf(r).Some?
  }

  ghost function WithRequest(log: seq<Entry>, r: Request): seq<Entry> {
    if Counts(RequestIDs(log), r) then WithEvent(log, FlowOf(r).value) else log
  }

  ghost function WithRequests(log: seq<Entry>, requests: seq<Request>): seq<Entry> {
    if requests == [] then log
    else WithRequest(WithRequests(log, requests[..|requests| - 1]), requests[|requests| - 1])
  }

  /** An event enters the log unless it has no kind. */
  lemma EventEnters(log: seq<Entry>, event: Entry)
    ensures WithEvent(log, event) == if Trim(event.kind) == "" then log else log + [Prepared(event)]
  {
    hide Trim, Prepared;
  }

  /** A request log enters exactly if it tells something and no entry of the log has its id yet. */
  lemma RequestEnters(log: seq<Entry>, r: Request)
    ensures WithRequest(log, r) ==
            if FlowOf(r).Some? && (r.requestID == "" || forall e | e in log :: e.requestID != r.requestID)
            then log + [Prepared(FlowOf(r).value)] else log
  {
    FlowKeepsID(r);
    FlowTells(r);
    assert Trim(r.requestType) == "health" ==> FlowOf(r).None?;
    hide FlowOf, Prepared, Trim, NormalKind;
  }

  /** A request log adds an entry only if no business event carries its id, and then at most one. */
  lemma {:induction false} RequestsAddUnknownIDs(log: seq<Entry>, requests: seq<Request>, id: string)
    requires id in RequestIDs(log)
    ensures log <= WithRequests(log, requests)
    ensures forall i | |log| <= i < |WithRequests(log, requests)| :: WithRequests(log, requests)[i].requestID != id
    ensures RequestIDs(log) <= RequestIDs(WithRequests(log, requests))
  {
    if requests != [] {
      var before := WithRequests(log, requests[..|requests| - 1]);
      RequestsAddUnknownIDs(log, requests[..|requests| - 1], id);
      FlowKeepsID(requests[|requests| - 1]);
      hide FlowOf, Prepared, NormalKind;
    }
  }

  lemma FlowKeepsID(r: Request)
    ensures FlowOf(r).Some? ==> Prepared(FlowOf(r).value).requestID == r.requestID
    ensures FlowOf(r).Some? ==> NormalKind(FlowOf(r).value.kind) != ""
  {
    hide ResultOfRequest;
    assert forall k | k in {"login", "auth", "open", "reverse_listen", "reverse_stream", "forward_check", "request"} ::
        Trim(k) == k;
  }

  class BusinessFlowSet {
    var rows: seq<Entry>
    var lifecycleIndex: map<string, int>
    var businessRequestIDs: set<string>
    var seenRows: set<string>
    var seenRequests: set<string>
    ghost var log: seq<Entry>

    ghost predicate Valid()
      reads this
    {
      && Tells(rows, lifecycleIndex, seenRows, log)
      && businessRequestIDs == RequestIDs(log) && seenRequests <= businessRequestIDs
    }

    constructor ()
      ensures Valid() && log == []
    {
      rows, lifecycleIndex, seenRows, log := [], map[], {}, [];
      businessRequestIDs, seenRequests := {}, {};
    }

    /** addBusinessEvent */
    method AddBusinessEvent(event: Entry)
      requires Valid()
      modifies `rows, `lifecycleIndex, `businessRequestIDs, `seenRows, `log
      ensures Valid() && log == WithEvent(old(log), event)
    {
      hide IsLifecycle, LifecycleKey, Tells, Merge, RowKey, Prepared;
      var entry := Prepared(event);
      PreparedKindIsNormal(event);
      if entry.kind == "" {
        return;
      }
      IDsOfOne(log, entry);
      if entry.requestID != "" {
        businessRequestIDs := businessRequestIDs + {entry.requestID};
      }
      AddRow(entry);
    }

    method AddRow(entry: Entry)
      requires Tells(rows, lifecycleIndex, seenRows, log)
      modifies `rows, `lifecycleIndex, `seenRows, `log
      ensures Tells(rows, lifecycleIndex, seenRows, log) && log == old(log) + [entry]
    {
      assert forall k | k in lifecycleIndex :: 0 <= lifecycleIndex[k] < |rows|;
      hide IsLifecycle, LifecycleKey, Tells, Merge, RowKey, Indexed, Grouped, OthersOnce, Group, Folded, Firsts, Others;
      var key := LifecycleKey(entry);
      if key != "" {
        if key in lifecycleIndex {
          var i := lifecycleIndex[key];
          MergeTells(rows, lifecycleIndex, seenRows, log, entry);
          rows := rows[i := Merge(rows[i], entry)];
        } else {
          AppendTells(rows, lifecycleIndex, seenRows, log, entry);
          lifecycleIndex := lifecycleIndex[key := |rows|];
          rows := rows + [entry];
        }
      } else {
        OtherTells(rows, lifecycleIndex, seenRows, log, entry);
        var rowKey := RowKey(entry);
        if rowKey !in seenRows {
          seenRows := seenRows + {rowKey};
          rows := rows + [entry];
        }
      }
      log := log + [entry];
    }

    /** addRequestLog */
    method AddRequestLog(r: Request)
      requires Valid()
      modifies this
      ensures Valid() && log == WithRequest(old(log), r)
    {
      hide Tells, FlowOf, Prepared, NormalKind, Trim;
      if Trim(r.requestType) == "health" {
        return;
      }
      if r.requestID != "" {
        if r.requestID in seenRequests || r.requestID in businessRequestIDs {
          return;
        }
      }
      var flow := FlowOf(r);
      if flow.None? {
        return;
      }
      FlowKeepsID(r);
      IDsOfOne(log, Prepared(flow.value));
      AddBusinessEvent(flow.value);
      if r.requestID != "" {
        seenRequests := seenRequests + {r.requestID};
      }
    }
  }

  lemma PreparedKindIsNormal(event: Entry)
    ensures Prepared(event).kind == NormalKind(event.kind) && Prepared(event).requestID == event.requestID
  {
  }

  lemma IDsOfOne(log: seq<Entry>, e: Entry)
    ensures RequestIDs(log + [e]) == RequestIDs(log) + ({e.requestID} - {""})
  {
    assert forall x | x in log :: x in log + [e];
    assert e in log + [e];
  }

  /** Each lifecycle of the log has exactly one row, its merged group. */
  ghost predicate LifecyclesTold(rows: seq<Entry>, log: seq<Entry>) {
    && (forall r | r in rows && IsLifecycle(r) :: IsMerged(r, log))
    && (forall i, j | 0 <= i < j < |rows| && IsLifecycle(rows[i]) :: !SameRequest(rows[i], rows[j]))
    && (forall e | e in log && IsLifecycle(e) :: exists r :: r in rows && SameRequest(r, e))
  }

  predicate SameRequest(a: Entry, b: Entry) {
    a.requestID == b.requestID && a.kind == b.kind
  }

  /** The row is the merged group of its lifecycle. */
  ghost predicate IsMerged(r: Entry, log: seq<Entry>) {
    Group(log, LifecycleKey(r)) != [] && r == Folded(Group(log, LifecycleKey(r)))
  }

  /** What the finished rows say of the log. */
  ghost predicate IsFlow(rows: seq<Entry>, log: seq<Entry>) {
    LifecyclesTold(rows, log) && Others(rows) == Firsts(log)
  }

  /** At most one row for a request id and lifecycle kind. */
  lemma OneRowPerLifecycle(rows: seq<Entry>, index: map<string, int>, i: nat, j: nat)
    requires Indexed(rows, index) && i < j < |rows| && IsLifecycle(rows[i])
    ensures !SameRequest(rows[i], rows[j])
  {
    LifecycleKeyIsInjective(rows[i], rows[j]);
    hide LifecycleKey, IsLifecycle;
  }

  lemma TellsIsFlow(rows: seq<Entry>, index: map<string, int>, seen: set<string>, log: seq<Entry>)
    requires Tells(rows, index, seen, log)
    ensures IsFlow(rows, log)
  {
    hide IsLifecycle, LifecycleKey, Folded, Firsts, Others, Group;
    forall i | 0 <= i < |rows| && IsLifecycle(rows[i])
      ensures IsMerged(rows[i], log)
    {
      assert GroupedAt(rows, index, log, LifecycleKey(rows[i]));
    }
    forall i, j | 0 <= i < j < |rows| && IsLifecycle(rows[i])
      ensures !SameRequest(rows[i], rows[j])
    {
      OneRowPerLifecycle(rows, index, i, j);
    }
    forall e | e in log && IsLifecycle(e)
      ensures exists r :: r in rows && SameRequest(r, e)
    {
      GroupMembers(log, LifecycleKey(e));
      assert GroupedAt(rows, index, log, LifecycleKey(e));
      var r := rows[index[LifecycleKey(e)]];
      LifecycleKeyIsInjective(r, e);
      assert r in rows && SameRequest(r, e);
    }
  }

  ghost function Log(events: seq<Entry>, requests: seq<Request>): seq<Entry> {
    WithRequests(WithEvents([], events), requests)
  }

  /** buildBusinessFlow, before the rows are sorted and cut off. */
  method BuildRows(events: seq<Entry>, requests: seq<Request>) returns (rows: seq<Entry>)
    ensures IsFlow(rows, Log(events, requests))
  {
    hide WithEvent, WithRequest, IsFlow, Tells;
    var flow := new BusinessFlowSet();
    for i := 0 to |events|
      invariant flow.Valid() && fresh(flow) && flow.log == WithEvents([], events[..i])
    {
      assert events[..i + 1][..i] == events[..i];
      flow.AddBusinessEvent(events[i]);
    }
    assert events[..|events|] == events;
    for i := 0 to |requests|
      invariant flow.Valid() && fresh(flow)
      invariant flow.log == WithRequests(WithEvents([], events), requests[..i])
    {
      assert requests[..i + 1][..i] == requests[..i];
      flow.AddRequestLog(requests[i]);
    }
    assert requests[..|requests|] == requests;
    TellsIsFlow(flow.rows, flow.lifecycleIndex, flow.seenRows, flow.log);
    return flow.rows;
  }

  /** Newest first. */
  predicate Newer(a: Entry, b: Entry) {
    After(a.time, b.time)
  }

  lemma NewerIsStrictWeak()
    ensures StrictWeak(Newer)
  {
  }

  /** The first of the sorted rows, as many as the limit allows. */
  ghost predicate IsShown(shown: seq<Entry>, rows: seq<Entry>, max: int) {
    var limit := if max > 0 then max else 120;
    && |shown| == (if |rows| > limit then limit else |rows|) && shown <= StableSort(rows, Newer)
  }

  /** buildBusinessFlow: the rows sorted by time, newest first, and cut off. */
  method BuildBusinessFlow(events: seq<Entry>, requests: seq<Request>, max: int)
    returns (shown: seq<Entry>)
    ensures exists rows :: IsFlow(rows, Log(events, requests)) && IsShown(shown, rows, max)
    ensures |shown| <= if max > 0 then max else 120
  {
    var limit := max;
    if limit <= 0 {
      limit := 120;
    }
    hide Log, IsFlow;
    var rows := BuildRows(events, requests);
    NewerIsStrictWeak();
    StableSortSorts(rows, Newer);
    shown := StableSort(rows, Newer);
    if |shown| > limit {
      shown := shown[..limit];
    }
    assert IsFlow(rows, Log(events, requests)) && IsShown(shown, rows, max);
  }

  /** What is shown is a part of the rows, newest first; no row that is cut off is newer than one that is shown,
      and rows of one time keep the order in which they were found. */
  lemma ShownAreNewest(rows: seq<Entry>, i: nat, j: nat, x: Entry)
    requires i < j < |rows|
    ensures |StableSort(rows, Newer)| == |rows| && multiset(StableSort(rows, Newer)) == multiset(rows)
    ensures var later, earlier := StableSort(rows, Newer)[j].time, StableSort(rows, Newer)[i].time;
            later.Some? ==> earlier.Some? && later.value <= earlier.value
    ensures OfTime(StableSort(rows, Newer), x.time) == OfTime(rows, x.time)
  {
    NewerIsStrictWeak();
    AlikeIsSameTime(rows, x);
    AlikeIsSameTime(StableSort(rows, Newer), x);
    StableSortSorts(rows, Newer);
    StableSortIsStable(rows, x, Newer);
    assert !Newer(StableSort(rows, Newer)[j], StableSort(rows, Newer)[i]);
  }

  /** The rows of one time, in order. */
  ghost function OfTime(rows: seq<Entry>, time: Time): seq<Entry> {
    if rows == [] then []
    else OfTime(rows[..|rows| - 1], time) + if rows[|rows| - 1].time == time then [rows[|rows| - 1]] else []
  }

  lemma {:induction false} AlikeIsSameTime(rows: seq<Entry>, x: Entry)
    ensures AlikeTo(rows, x, Newer) == OfTime(rows, x.time)
  {
    if rows != [] {
      AlikeIsSameTime(rows[..|rows| - 1], x);
    }
  }

  ghost function Entered(events: seq<Entry>): multiset<Entry> {
    multiset(WithEvents([], events))
  }

  lemma {:induction false} EnteredOfSum(a: seq<Entry>, b: seq<Entry>)
    ensures Entered(a + b) == Entered(a) + Entered(b)
  {
    hide NormalKind, Prepared;
    if b == [] {
      assert a + b == a;
    } else {
      EnteredOfSum(a, b[..|b| - 1]);
      assert (a + b)[..|a + b| - 1] == a + b[..|b| - 1];
    }
  }

  lemma WithoutOne<T>(a: seq<T>, b: seq<T>, e: T)
    ensures multiset(a) + multiset{e} == multiset(b) + multiset{e} ==> multiset(a) == multiset(b)
  {
    var x, y := multiset(a), multiset(b);
    if x + multiset{e} == y + multiset{e} {
      assert forall k :: x[k] == (x + multiset{e})[k] - multiset{e}[k] == y[k];
    }
  }

  lemma {:induction false} EnteredOfPermutation(a: seq<Entry>, b: seq<Entry>)
    requires multiset(a) == multiset(b)
    ensures Entered(a) == Entered(b)
  {
    hide Entered;
    assert |multiset(a)| == |a| && |multiset(b)| == |b|;
    if a == [] {
      assert b == [];
    } else {
      var n := |a| - 1;
      assert a == a[..n] + [a[n]];
      assert a[n] in multiset(b);
      var i :| 0 <= i < |b| && b[i] == a[n];
      var left, right := b[..i], b[i + 1..];
      assert b == left + [a[n]] + right;
      WithoutOne(a[..n], left + right, a[n]);
      EnteredOfPermutation(a[..n], left + right);
      EnteredOfSum(a[..n], [a[n]]);
      EnteredOfSum(left + [a[n]], right);
      EnteredOfSum(left, [a[n]]);
      EnteredOfSum(left, right);
    }
  }

  lemma SameIDs(a: seq<Entry>, b: seq<Entry>)
    requires multiset(a) == multiset(b)
    ensures RequestIDs(a) == RequestIDs(b)
  {
    assert forall e :: e in a <==> e in multiset(a);
    assert forall e :: e in b <==> e in multiset(b);
  }

  lemma {:induction false} RequestsOnPermutation(a: seq<Entry>, b: seq<Entry>, requests: seq<Request>)
    requires multiset(a) == multiset(b)
    ensures multiset(WithRequests(a, requests)) == multiset(WithRequests(b, requests))
  {
    if requests != [] {
      var init := requests[..|requests| - 1];
      RequestsOnPermutation(a, b, init);
      SameIDs(WithRequests(a, init), WithRequests(b, init));
      hide FlowOf, Prepared, NormalKind, Trim, RequestIDs;
    }
  }

  /** No two request logs share an id. */
  ghost predicate DistinctIDs(requests: seq<Request>) {
    forall i, j | 0 <= i < j < |requests| && requests[i].requestID != "" :: requests[i].requestID != requests[j].requestID
  }

  /** What request logs with distinct ids add to a log that carries the given ids. */
  ghost function Additions(ids: set<string>, requests: seq<Request>): multiset<Entry> {
    if requests == [] then multiset{}
    else Additions(ids, requests[..|requests| - 1]) + Addition(ids, requests[|requests| - 1])
  }

  ghost function Addition(ids: set<string>, r: Request): multiset<Entry> {
    if Counts(ids, r) then multiset{Prepared(FlowOf(r).value)} else multiset{}
  }

  ghost function IDsOf(requests: seq<Request>): set<string> {
    set r | r in requests :: r.requestID
  }

  lemma OneAddition(log: seq<Entry>, before: seq<Entry>, seen: set<string>, r: Request)
    requires RequestIDs(log) <= RequestIDs(before) <= RequestIDs(log) + seen
    requires r.requestID == "" || r.requestID !in seen
    ensures multiset(WithRequest(before, r)) == multiset(before) + Addition(RequestIDs(log), r)
    ensures RequestIDs(log) <= RequestIDs(WithRequest(before, r)) <= RequestIDs(log) + seen + {r.requestID}
  {
    assert "" !in RequestIDs(before) + RequestIDs(log);
    FlowKeepsID(r);
    hide FlowOf, Prepared, NormalKind, Trim, RequestIDs;
    assert Counts(RequestIDs(before), r) <==> Counts(RequestIDs(log), r);
    if Counts(RequestIDs(log), r) {
      IDsOfOne(before, Prepared(FlowOf(r).value));
    }
  }

  lemma DistinctInit(requests: seq<Request>)
    requires requests != [] && DistinctIDs(requests)
    ensures var init, r := requests[..|requests| - 1], requests[|requests| - 1];
            && DistinctIDs(init) && (r.requestID == "" || r.requestID !in IDsOf(init))
            && IDsOf(requests) == IDsOf(init) + {r.requestID}
  {
    assert requests == requests[..|requests| - 1] + [requests[|requests| - 1]];
  }

  /** With distinct ids no request log hides another one. */
  lemma {:induction false} RequestsAreAdditions(log: seq<Entry>, requests: seq<Request>)
    requires DistinctIDs(requests)
    ensures multiset(WithRequests(log, requests)) == multiset(log) + Additions(RequestIDs(log), requests)
    ensures RequestIDs(log) <= RequestIDs(WithRequests(log, requests)) <= RequestIDs(log) + IDsOf(requests)
  {
    hide WithRequest, RequestIDs, IDsOf, DistinctIDs, Addition;
    if requests != [] {
      var init, r := requests[..|requests| - 1], requests[|requests| - 1];
      DistinctInit(requests);
      RequestsAreAdditions(log, init);
      OneAddition(log, WithRequests(log, init), IDsOf(init), r);
    }
  }

  lemma {:induction false} AdditionsOfSum(ids: set<string>, a: seq<Request>, b: seq<Request>)
    ensures Additions(ids, a + b) == Additions(ids, a) + Additions(ids, b)
  {
    hide Addition;
    if b == [] {
      assert a + b == a;
    } else {
      AdditionsOfSum(ids, a, b[..|b| - 1]);
      assert (a + b)[..|a + b| - 1] == a + b[..|b| - 1];
    }
  }

  lemma {:induction false} AdditionsOfPermutation(ids: set<string>, a: seq<Request>, b: seq<Request>)
    requires multiset(a) == multiset(b)
    ensures Additions(ids, a) == Additions(ids, b)
  {
    hide Additions;
    assert |multiset(a)| == |a| && |multiset(b)| == |b|;
    if a == [] {
      assert b == [];
    } else {
      var n := |a| - 1;
      assert a == a[..n] + [a[n]];
      assert a[n] in multiset(b);
      var i :| 0 <= i < |b| && b[i] == a[n];
      var left, right := b[..i], b[i + 1..];
      assert b == left + [a[n]] + right;
      WithoutOne(a[..n], left + right, a[n]);
      AdditionsOfPermutation(ids, a[..n], left + right);
      AdditionsOfSum(ids, a[..n], [a[n]]);
      AdditionsOfSum(ids, left + [a[n]], right);
      AdditionsOfSum(ids, left, [a[n]]);
      AdditionsOfSum(ids, left, right);
    }
  }

  /** Whatever order the events and the request logs are read in, the log holds the same entries; request logs that
      share an id keep their order, because of those the first counts. */
  lemma LogOfPermutation(events: seq<Entry>, events': seq<Entry>, requests: seq<Request>, requests': seq<Request>)
    requires multiset(events) == multiset(events')
    requires requests == requests' ||
             (multiset(requests) == multiset(requests') && DistinctIDs(requests) && DistinctIDs(requests'))
    ensures multiset(Log(events, requests)) == multiset(Log(events', requests'))
  {
    hide Counts, WithEvent, DistinctIDs, Additions;
    var start, start' := WithEvents([], events), WithEvents([], events');
    EnteredOfPermutation(events, events');
    RequestsOnPermutation(start, start', requests);
    if requests != requests' {
      RequestsAreAdditions(start', requests);
      RequestsAreAdditions(start', requests');
      AdditionsOfPermutation(RequestIDs(start'), requests, requests');
    }
  }

  ghost predicate SameLifecycle(r: Entry, s: Entry, timed: bool) {
    && r.requestID == s.requestID && r.kind == s.kind && Priority(r.result) == Priority(s.result)
    && r.startedAt == s.startedAt && r.endedAt == s.endedAt && (timed ==> r.time == s.time)
  }

  lemma SameGroups(log: seq<Entry>, log': seq<Entry>, key: string)
    requires multiset(log) == multiset(log')
    ensures multiset(Group(log, key)) == multiset(Group(log', key))
    ensures Timed(log) ==> Timed(Group(log, key))
  {
    GroupCounts(log, key);
    GroupCounts(log', key);
    GroupMembers(log, key);
    hide Group, LifecycleKey;
  }

  lemma PermutedLog(log: seq<Entry>, log': seq<Entry>, rows: seq<Entry>, rows': seq<Entry>, r: Entry)
    returns (s: Entry)
    requires multiset(log) == multiset(log')
    requires LifecyclesTold(rows, log) && LifecyclesTold(rows', log')
    requires r in rows && IsLifecycle(r)
    ensures s in rows' && SameLifecycle(r, s, Timed(log))
  {
    var key := LifecycleKey(r);
    assert IsMerged(r, log);
    hide Folded, Group, Priority, Timed, LifecycleKey, IsLifecycle;
    SameGroups(log, log', key);
    OrderDoesNotMatter(Group(log, key), Group(log', key));
    GroupMembers(log', key);
    var e := Group(log', key)[0];
    assert e in Group(log', key);
    LifecycleKeyIsInjective(e, r);
    s :| s in rows' && SameRequest(s, e);
    LifecycleKeyIsInjective(e, s);
    assert IsMerged(s, log');
  }

  /** Whatever order the events and the request logs are read in, every lifecycle gets a row with the same priority
      and span, and with the same time if every entry has one. */
  lemma FlowIsOrderIndependent(events: seq<Entry>, events': seq<Entry>, requests: seq<Request>,
                               requests': seq<Request>, rows: seq<Entry>, rows': seq<Entry>, r: Entry)
    requires multiset(events) == multiset(events')
    requires requests == requests' ||
             (multiset(requests) == multiset(requests') && DistinctIDs(requests) && DistinctIDs(requests'))
    requires IsFlow(rows, Log(events, requests)) && IsFlow(rows', Log(events', requests'))
    requires r in rows && IsLifecycle(r)
    ensures exists s | s in rows' :: SameLifecycle(r, s, Timed(Log(events, requests)))
  {
    LogOfPermutation(events, events', requests, requests');
    hide Log, LifecyclesTold, Others, Firsts, SameLifecycle, LifecycleKey, Timed;
    var s := PermutedLog(Log(events, requests), Log(events', requests'), rows, rows', r);
  }

  /** Of a log's entries with the row's id and kind: if one says that the connection ended, so does the row; otherwise,
      if one says that it started, so does the row; otherwise "ok" wins over any other text, and the row says nothing
      only if none of them does. With times, the row shows everything one of them says, and none of that kind is
      later. */
  lemma RowTellsResult(log: seq<Entry>, rows: seq<Entry>, r: Entry)
    requires LifecyclesTold(rows, log) && r in rows && IsLifecycle(r)
    ensures (exists e | e in log :: SameRequest(e, r) && e.result in ENDED) <==> r.result in ENDED
    ensures r.result !in ENDED ==>
              ((exists e | e in log :: SameRequest(e, r) && e.result in STARTED) <==> r.result in STARTED)
    ensures r.result !in ENDED && r.result !in STARTED ==>
              ((exists e | e in log :: SameRequest(e, r) && e.result == "ok") <==> r.result == "ok")
    ensures r.result == "" <==> forall e | e in log && SameRequest(e, r) :: e.result == ""
    ensures (forall e | e in log && SameRequest(e, r) :: e.time.Some?) ==>
              && r.time.Some? && (exists e | e in log :: SameRequest(e, r) && Shows(r, e))
              && forall e | e in log && SameRequest(e, r) && Alike(e.result, r.result) :: e.time.value <= r.time.value
  {
    var group := Group(log, LifecycleKey(r));
    GroupMembers(log, LifecycleKey(r));
    assert IsMerged(r, log);
    forall e: Entry
      ensures e in group <==> e in log && SameRequest(e, r)
    {
      LifecycleKeyIsInjective(r, e);
    }
    hide Group, Firsts, Others, LifecycleKey, SameRequest, Shows, Alike;
    ResultOfGroup(group);
    if forall e | e in log && SameRequest(e, r) :: e.time.Some? {
      RowShowsLatest(group);
    }
  }

  /** The row of a lifecycle tells its group's highest priority, its earliest start and its latest end. */
  lemma RowTellsGroup(log: seq<Entry>, rows: seq<Entry>, r: Entry)
    requires LifecyclesTold(rows, log) && r in rows && IsLifecycle(r)
    ensures var group := Group(log, LifecycleKey(r));
            && group != [] && (forall e :: e in group <==> e in log && LifecycleKey(e) == LifecycleKey(r))
            && IsTop(Priority(r.result), group)
            && IsEarliestStart(r.startedAt, group) && IsLatestEnd(r.endedAt, group)
            && (Timed(group) ==> IsDecisive(r.time, r.result, group))
  {
    var group := Group(log, LifecycleKey(r));
    GroupMembers(log, LifecycleKey(r));
    assert IsMerged(r, log);
    hide Group, Firsts, Others, LifecycleKey, IsTop, IsEarliestStart, IsLatestEnd, IsDecisive, Priority;
    FoldedHasTopPriority(group);
    FoldedSpan(group);
    if Timed(group) {
      FoldedIsDecisive(group);
    }
  }
}
