// The byte rate limiter: every chunk gets a time slot of its own, and what that means for the rate.
// Times are nanoseconds; the slot length is the exact quotient rounded down.
module RateLimiter {
  const SECOND: nat := 1_000_000_000
  const MAX_CHUNK: nat := 32 * 1024

  datatype Slot = Slot(bytes: nat, start: int, duration: nat) {
    function End(): int { start + duration }
  }

  function SlotLength(bytes: nat, rate: nat): nat
    requires rate > 0
  {
    bytes * SECOND / rate
  }

  /** Slots in the order they were handed out: each has its full length, and none begins before the last has ended. */
  ghost predicate Orderly(slots: seq<Slot>, rate: nat, chunk: nat)
    requires rate > 0
  {
    && (forall i | 0 <= i < |slots| :: 0 < slots[i].bytes <= chunk && slots[i].duration == SlotLength(slots[i].bytes, rate))
    && (forall i | 0 < i < |slots| :: slots[i - 1].End() <= slots[i].start)
  }

  function TotalBytes(slots: seq<Slot>): nat {
    if slots == [] then 0 else TotalBytes(slots[..|slots| - 1]) + slots[|slots| - 1].bytes
  }

  /** The slots that begin in the half-open interval of length d from a. */
  function InWindow(slots: seq<Slot>, a: int, d: nat): seq<Slot> {
    if slots == [] then []
    else
      var last := slots[|slots| - 1];
      InWindow(slots[..|slots| - 1], a, d) + if a <= last.start < a + d then [last] else []
  }

  // ---- The law of the rate ----

  lemma {:induction false} SlotsDoNotOverlap(slots: seq<Slot>, rate: nat, chunk: nat, i: nat, j: nat)
    requires rate > 0 && Orderly(slots, rate, chunk) && i < j < |slots|
    ensures slots[i].End() <= slots[j].start
  {
    if i < j - 1 {
      SlotsDoNotOverlap(slots, rate, chunk, i, j - 1);
      assert slots[j - 1].End() <= slots[j].start;
    } else {
      assert slots[j - 1].End() <= slots[j].start;
    }
  }

  lemma PrefixOrderly(slots: seq<Slot>, rate: nat, chunk: nat)
    requires rate > 0 && slots != [] && Orderly(slots, rate, chunk)
    ensures Orderly(slots[..|slots| - 1], rate, chunk)
  {
    var prefix := slots[..|slots| - 1];
    forall i | 0 <= i < |prefix|
      ensures 0 < prefix[i].bytes <= chunk && prefix[i].duration == SlotLength(prefix[i].bytes, rate)
    {
      assert prefix[i] == slots[i];
    }
    forall i | 0 < i < |prefix|
      ensures prefix[i - 1].End() <= prefix[i].start
    {
      assert prefix[i] == slots[i] && prefix[i - 1] == slots[i - 1];
    }
  }

  /** A slot is at most one nanosecond shorter than its bytes take at the given rate. */
  lemma SlotCoversBytes(bytes: nat, rate: nat)
    requires rate > 0
    ensures bytes * SECOND <= rate * (SlotLength(bytes, rate) + 1)
  {
    var q, r := bytes * SECOND / rate, bytes * SECOND % rate;
    assert bytes * SECOND == rate * q + r;
    assert rate * (q + 1) == rate * q + rate;
  }

  /** A slot is never longer than its bytes take at the given rate. */
  lemma SlotFitsBytes(bytes: nat, rate: nat)
    requires rate > 0
    ensures rate * SlotLength(bytes, rate) <= bytes * SECOND
  {
    var q, r := bytes * SECOND / rate, bytes * SECOND % rate;
    assert bytes * SECOND == rate * q + r;
  }

  lemma {:induction false} NothingBefore(slots: seq<Slot>, rate: nat, chunk: nat, a: int, d: nat)
    requires rate > 0 && Orderly(slots, rate, chunk)
    requires slots != [] ==> slots[|slots| - 1].start < a
    ensures InWindow(slots, a, d) == []
  {
    if slots != [] {
      PrefixOrderly(slots, rate, chunk);
      if |slots| > 1 {
        assert slots[|slots| - 2].End() <= slots[|slots| - 1].start;
      }
      NothingBefore(slots[..|slots| - 1], rate, chunk, a, d);
    }
  }

  lemma WindowStep(slots: seq<Slot>, a: int, d: nat)
    requires slots != []
    ensures var prefix, last := slots[..|slots| - 1], slots[|slots| - 1];
            if a <= last.start < a + d then
              InWindow(slots, a, d) == InWindow(prefix, a, d) + [last]
              && TotalBytes(InWindow(slots, a, d)) == TotalBytes(InWindow(prefix, a, d)) + last.bytes
            else InWindow(slots, a, d) == InWindow(prefix, a, d)
  {
    TotalBytesAppend(InWindow(slots[..|slots| - 1], a, d), slots[|slots| - 1]);
    hide TotalBytes;
  }

  lemma AddSlot(inner: nat, bytes: nat, rate: nat, earlier: int, duration: nat, span: int)
    requires inner * SECOND <= rate * earlier && bytes * SECOND <= rate * (duration + 1)
    requires earlier + duration + 1 <= span
    ensures (inner + bytes) * SECOND <= rate * span
  {
    assert rate * earlier + rate * (duration + 1) == rate * (earlier + duration + 1);
    MultiplyMonotonic(rate, earlier + duration + 1, span);
  }

  /** The bytes whose slots lie wholly between a and the end of the last slot fit the time between. */
  lemma {:induction false} BytesFitTime(slots: seq<Slot>, rate: nat, chunk: nat, a: int, d: nat)
    requires rate > 0 && slots != [] && Orderly(slots, rate, chunk)
    requires a <= slots[|slots| - 1].start < a + d
    ensures TotalBytes(InWindow(slots, a, d)) * SECOND
            <= rate * (slots[|slots| - 1].End() - a + |InWindow(slots, a, d)|)
  {
    var prefix, last := slots[..|slots| - 1], slots[|slots| - 1];
    var inner, all := InWindow(prefix, a, d), InWindow(slots, a, d);
    PrefixOrderly(slots, rate, chunk);
    WindowStep(slots, a, d);
    SlotCoversBytes(last.bytes, rate);
    var before: int := 0;
    assert last.duration == SlotLength(last.bytes, rate);
    assert TotalBytes([]) == 0;
    hide TotalBytes, InWindow, SlotLength;
    if prefix == [] || prefix[|prefix| - 1].start < a {
      NothingBefore(prefix, rate, chunk, a, d);
    } else {
      assert prefix[|prefix| - 1] == slots[|slots| - 2];
      assert slots[|slots| - 2].End() <= last.start;
      before := prefix[|prefix| - 1].End() - a;
      BytesFitTime(prefix, rate, chunk, a, d);
    }
    hide Orderly;
    AddSlot(TotalBytes(inner), last.bytes, rate, before + |inner|, last.duration, last.End() - a + |all|);
  }

  lemma MultiplyMonotonic(rate: nat, x: int, y: int)
    requires x <= y
    ensures rate * x <= rate * y
  {
  }

  lemma AddLastSlot(inner: nat, last: nat, chunk: nat, rate: nat, room: int, span: int)
    requires inner * SECOND <= rate * room && room <= span && last <= chunk
    ensures (inner + last) * SECOND <= chunk * SECOND + rate * span
  {
    MultiplyMonotonic(rate, room, span);
  }

  /** In any interval of length d the slots that begin there carry at most rate * d bytes, plus one chunk,
      plus what the rounding of each slot but the last can add. */
  lemma {:induction false} RateBound(slots: seq<Slot>, rate: nat, chunk: nat, a: int, d: nat)
    requires rate > 0 && Orderly(slots, rate, chunk)
    ensures TotalBytes(InWindow(slots, a, d)) * SECOND <= chunk * SECOND + rate * (d + |InWindow(slots, a, d)|)
  {
    if slots == [] {
      assert TotalBytes(InWindow(slots, a, d)) == 0;
      MultiplyMonotonic(rate, 0, d);
    } else {
      hide TotalBytes, InWindow, SlotLength;
      var prefix, last := slots[..|slots| - 1], slots[|slots| - 1];
      PrefixOrderly(slots, rate, chunk);
      WindowStep(slots, a, d);
      if a <= last.start < a + d {
        assert last.bytes <= chunk;
        var room := EarlierBytesFit(slots, rate, chunk, a, d);
        AddLastSlot(TotalBytes(InWindow(prefix, a, d)), last.bytes, chunk, rate, room, d + |InWindow(slots, a, d)|);
      } else {
        RateBound(prefix, rate, chunk, a, d);
      }
    }
  }

  /** All but the last slot of the window end before the last one starts. */
  lemma EarlierBytesFit(slots: seq<Slot>, rate: nat, chunk: nat, a: int, d: nat) returns (room: int)
    requires rate > 0 && slots != [] && Orderly(slots, rate, chunk)
    requires a <= slots[|slots| - 1].start < a + d
    ensures TotalBytes(InWindow(slots[..|slots| - 1], a, d)) * SECOND <= rate * room
    ensures room <= d + |InWindow(slots[..|slots| - 1], a, d)|
  {
    assert TotalBytes([]) == 0;
    hide TotalBytes, InWindow, SlotLength;
    var prefix, last := slots[..|slots| - 1], slots[|slots| - 1];
    PrefixOrderly(slots, rate, chunk);
    if prefix == [] || prefix[|prefix| - 1].start < a {
      NothingBefore(prefix, rate, chunk, a, d);
      room := 0;
    } else {
      assert prefix[|prefix| - 1] == slots[|slots| - 2];
      assert slots[|slots| - 2].End() <= last.start;
      BytesFitTime(prefix, rate, chunk, a, d);
      room := prefix[|prefix| - 1].End() - a + |InWindow(prefix, a, d)|;
    }
  }

  lemma TotalBytesAppend(slots: seq<Slot>, s: Slot)
    ensures TotalBytes(slots + [s]) == TotalBytes(slots) + s.bytes
  {
    assert (slots + [s])[..|slots|] == slots;
  }

  // ---- Requests one after the other ----

  /** What a caller asks for, and the clock reading it starts with. */
  datatype Request = Request(bytes: pos, now: int)
  type pos = n: nat | n > 0 witness 1

  /** A request gets the next free time that is not before its reading. */
  function SlotFor(next: int, r: Request, rate: nat): Slot
    requires rate > 0
  {
    Slot(r.bytes, if next < r.now then r.now else next, SlotLength(r.bytes, rate))
  }

  function NextAfter(next: int, slots: seq<Slot>): int {
    if slots == [] then next else slots[|slots| - 1].End()
  }

  function SlotsFrom(next: int, requests: seq<Request>, rate: nat): seq<Slot>
    requires rate > 0
  {
    if requests == [] then []
    else
      var before := SlotsFrom(next, requests[..|requests| - 1], rate);
      before + [SlotFor(NextAfter(next, before), requests[|requests| - 1], rate)]
  }

  lemma SlotsOfOneMore(next: int, requests: seq<Request>, r: Request, rate: nat)
    requires rate > 0
    ensures var before := SlotsFrom(next, requests, rate);
            SlotsFrom(next, requests + [r], rate) == before + [SlotFor(NextAfter(next, before), r, rate)]
  {
    assert (requests + [r])[..|requests|] == requests;
  }

  lemma {:induction false} SlotsOfPrefix(next: int, requests: seq<Request>, rate: nat, k: nat)
    requires rate > 0 && k <= |requests|
    ensures |SlotsFrom(next, requests, rate)| == |requests|
    ensures SlotsFrom(next, requests, rate)[..k] == SlotsFrom(next, requests[..k], rate)
  {
    var n := |requests|;
    if n > 0 {
      SlotsOfPrefix(next, requests[..n - 1], rate, if k < n then k else k - 1);
      if k < n {
        assert requests[..n - 1][..k] == requests[..k];
      } else {
        assert requests[..k] == requests;
      }
    } else {
      assert requests[..k] == requests;
    }
  }

  lemma SlotAt(next: int, requests: seq<Request>, rate: nat, k: nat)
    requires rate > 0 && k < |requests|
    ensures |SlotsFrom(next, requests, rate)| == |requests|
    ensures var slots := SlotsFrom(next, requests, rate);
            slots[k] == SlotFor(if k == 0 then next else slots[k - 1].End(), requests[k], rate)
  {
    SlotsOfPrefix(next, requests, rate, k);
    SlotsOfPrefix(next, requests, rate, k + 1);
    assert requests[..k + 1] == requests[..k] + [requests[k]];
    SlotsOfOneMore(next, requests[..k], requests[k], rate);
    hide SlotsFrom, SlotFor;
    var slots := SlotsFrom(next, requests, rate);
    assert slots[k] == slots[..k + 1][k];
    assert k > 0 ==> slots[..k][k - 1] == slots[k - 1];
  }

  /** The limiter is never idle while a request waits: up to any slot there is a busy stretch without gaps, which began
      with the reading of its first request or with the limiter itself. */
  lemma {:induction false} BusySince(next: int, requests: seq<Request>, rate: nat, k: nat) returns (j: nat)
    requires rate > 0 && k < |requests|
    ensures j <= k && |SlotsFrom(next, requests, rate)| == |requests|
    ensures var slots := SlotsFrom(next, requests, rate);
            && (slots[j].start == requests[j].now || (j == 0 && slots[j].start == next))
            && (forall i | j < i <= k :: slots[i].start == slots[i - 1].End())
            && (forall i | j <= i <= k :: slots[i].bytes == requests[i].bytes && requests[i].now <= slots[i].start)
  {
    SlotAt(next, requests, rate, k);
    hide SlotsFrom, SlotLength;
    var slots := SlotsFrom(next, requests, rate);
    if slots[k].start == requests[k].now || k == 0 {
      j := k;
    } else {
      j := BusySince(next, requests, rate, k - 1);
      assert slots[k].start == slots[k - 1].End();
    }
  }

  /** What a busy stretch lasts is what its bytes take: a slot starts no later than the stretch began plus the time
      the bytes handed out in it before take at the rate. */
  lemma {:induction false} StretchFitsBytes(slots: seq<Slot>, rate: nat, j: nat, k: nat)
    requires rate > 0 && j <= k < |slots|
    requires forall i | j < i <= k :: slots[i].start == slots[i - 1].End()
    requires forall i | j <= i < k :: slots[i].duration == SlotLength(slots[i].bytes, rate)
    ensures rate * (slots[k].start - slots[j].start) <= TotalBytes(slots[j..k]) * SECOND
    ensures TotalBytes(slots[j..k]) * SECOND <= rate * (slots[k].start - slots[j].start + k - j)
  {
    if j == k {
      assert slots[j..k] == [];
    } else {
      var last := slots[k - 1];
      hide SlotLength;
      StretchFitsBytes(slots, rate, j, k - 1);
      SlotFitsBytes(last.bytes, rate);
      SlotCoversBytes(last.bytes, rate);
      assert slots[j..k] == slots[j..k - 1] + [last];
      TotalBytesAppend(slots[j..k - 1], last);
      hide TotalBytes;
      StretchGrows(rate, last.start - slots[j].start, last.duration, TotalBytes(slots[j..k - 1]), last.bytes, k - 1 - j);
    }
  }

  /** No reading up to the k-th, and not the time the limiter starts with, is later than the given time. */
  ghost predicate NoneAfter(first: int, requests: seq<Request>, k: nat, latest: int) {
    first <= latest && forall i | 0 <= i <= k && i < |requests| :: requests[i].now <= latest
  }

  /** A time is at most as long after the latest reading up to the k-th as so many bytes take. */
  ghost predicate Prompt(first: int, requests: seq<Request>, rate: nat, k: nat, time: int, bytes: nat) {
    forall latest | NoneAfter(first, requests, k, latest) :: rate * (time - latest) <= bytes * SECOND
  }

  /** So a slot starts at most as long after the latest reading as the bytes handed out before it take. */
  lemma SlotIsPrompt(first: int, requests: seq<Request>, rate: nat, k: nat, latest: int) returns (j: nat)
    requires rate > 0 && k < |requests| && NoneAfter(first, requests, k, latest)
    ensures j <= k && |SlotsFrom(first, requests, rate)| == |requests|
    ensures var slots := SlotsFrom(first, requests, rate);
            && rate * (slots[k].start - latest) <= TotalBytes(slots[j..k]) * SECOND
            && TotalBytes(slots[j..k]) <= TotalBytes(slots[..k])
  {
    var slots := SlotsFrom(first, requests, rate);
    j := BusySince(first, requests, rate, k);
    SlotLengths(first, requests, rate);
    hide SlotsFrom, TotalBytes, SlotLength;
    StretchFitsBytes(slots, rate, j, k);
    MultiplyMonotonic(rate, slots[k].start - latest, slots[k].start - slots[j].start);
    assert slots[..k] == slots[..j] + slots[j..k];
    TotalBytesOfSum(slots[..j], slots[j..k]);
  }

  lemma LastIsPrompt(first: int, requests: seq<Request>, rate: nat)
    requires rate > 0 && requests != []
    ensures |SlotsFrom(first, requests, rate)| == |requests|
    ensures var slots, n := SlotsFrom(first, requests, rate), |requests| - 1;
            Prompt(first, requests, rate, n, slots[n].start, TotalBytes(slots[..n]))
  {
    SlotLengths(first, requests, rate);
    hide SlotsFrom, TotalBytes, NoneAfter;
    var slots, n := SlotsFrom(first, requests, rate), |requests| - 1;
    forall latest | NoneAfter(first, requests, n, latest)
      ensures rate * (slots[n].start - latest) <= TotalBytes(slots[..n]) * SECOND
    {
      var j := SlotIsPrompt(first, requests, rate, n, latest);
    }
  }

  lemma OrderlyGrows(slots: seq<Slot>, rate: nat, chunk: nat, s: Slot)
    requires rate > 0 && Orderly(slots, rate, chunk) && 0 < s.bytes <= chunk && s.duration == SlotLength(s.bytes, rate)
    requires slots != [] ==> slots[|slots| - 1].End() <= s.start
    ensures Orderly(slots + [s], rate, chunk)
  {
    hide SlotLength;
  }

  /** All that was handed out: orderly slots, those of the requests served, up to the time the next one may start. */
  ghost predicate HandedOut(first: int, served: seq<Request>, slots: seq<Slot>, next: int, rate: nat, chunk: nat)
    requires rate > 0
  {
    && Orderly(slots, rate, chunk)
    && slots == SlotsFrom(first, served, rate) && |slots| == |served| && next == NextAfter(first, slots)
  }

  /** What one more request does to all that was handed out. */
  lemma OneMore(first: int, served: seq<Request>, slots: seq<Slot>, next: int, rate: nat, chunk: nat, r: Request)
    requires rate > 0 && HandedOut(first, served, slots, next, rate, chunk) && r.bytes <= chunk
    ensures |slots| == |served|
    ensures var s := SlotFor(next, r, rate);
            && HandedOut(first, served + [r], slots + [s], s.End(), rate, chunk) && (slots + [s])[..|slots|] == slots
            && Prompt(first, served + [r], rate, |slots|, s.start, TotalBytes(slots))
  {
    var s := SlotFor(next, r, rate);
    SlotsOfOneMore(first, served, r, rate);
    OrderlyGrows(slots, rate, chunk, s);
    LastIsPrompt(first, served + [r], rate);
    assert (slots + [s])[..|slots|] == slots;
    hide Prompt, Orderly, SlotsFrom, TotalBytes;
  }

  lemma {:induction false} SlotLengths(first: int, requests: seq<Request>, rate: nat)
    requires rate > 0
    ensures |SlotsFrom(first, requests, rate)| == |requests|
    ensures forall i | 0 <= i < |requests| ::
              var s := SlotsFrom(first, requests, rate)[i];
              s.bytes == requests[i].bytes && s.duration == SlotLength(s.bytes, rate)
  {
    hide SlotLength;
    if requests != [] {
      SlotLengths(first, requests[..|requests| - 1], rate);
    }
  }

  lemma {:induction false} TotalBytesOfSum(a: seq<Slot>, b: seq<Slot>)
    ensures TotalBytes(a + b) == TotalBytes(a) + TotalBytes(b)
  {
    if b == [] {
      assert a + b == a;
    } else {
      TotalBytesOfSum(a, b[..|b| - 1]);
      assert (a + b)[..|a + b| - 1] == a + b[..|b| - 1];
    }
  }

  lemma StretchGrows(rate: nat, earlier: int, duration: nat, total: nat, bytes: nat, n: int)
    requires rate * earlier <= total * SECOND <= rate * (earlier + n)
    requires rate * duration <= bytes * SECOND <= rate * (duration + 1)
    ensures rate * (earlier + duration) <= (total + bytes) * SECOND <= rate * (earlier + duration + n + 1)
  {
    assert rate * (earlier + duration) == rate * earlier + rate * duration;
    assert rate * (earlier + duration + n + 1) == rate * (earlier + n) + rate * (duration + 1);
    assert (total + bytes) * SECOND == total * SECOND + bytes * SECOND;
  }

  /** The time a limiter starts with before its creation gains nothing: the slots are those of one that starts with
      its creation, if and only if the first reading of the clock is not before the creation. */
  lemma {:induction false} BurstIsGrantedIff(created: int, credit: nat, requests: seq<Request>, rate: nat)
    requires rate > 0 && credit > 0
    ensures |SlotsFrom(created - credit, requests, rate)| == |SlotsFrom(created, requests, rate)| == |requests|
    ensures SlotsFrom(created - credit, requests, rate) != SlotsFrom(created, requests, rate) <==>
            requests != [] && requests[0].now < created
  {
    hide SlotLength;
    var early, late := SlotsFrom(created - credit, requests, rate), SlotsFrom(created, requests, rate);
    if |requests| == 1 {
      assert requests[..|requests| - 1] == [];
      assert SlotsFrom(created - credit, [], rate) == SlotsFrom(created, [], rate) == [];
      assert early == [SlotFor(created - credit, requests[0], rate)] && late == [SlotFor(created, requests[0], rate)];
      assert early == late <==> early[0] == late[0];
    } else if |requests| > 1 {
      var init := requests[..|requests| - 1];
      BurstIsGrantedIff(created, credit, init, rate);
      assert early[..|init|] == SlotsFrom(created - credit, init, rate) && late[..|init|] == SlotsFrom(created, init, rate);
    }
  }

  // ---- The limiter ----

  class ByteRateLimiter {
    const rate: nat
    const chunk: nat
    var next: int
    ghost const first: int               // the time it starts with
    ghost var served: seq<Request>
    ghost var slots: seq<Slot>

    ghost predicate Valid()
      reads this
    {
      && rate > 0 && 1 <= chunk <= MAX_CHUNK && |slots| == |served|
      && HandedOut(first, served, slots, next, rate, chunk)
    }

    constructor (rateBytesPerSec: nat, now: int)
      requires rateBytesPerSec > 0
      ensures Valid() && rate == rateBytesPerSec && slots == []
      ensures 1 <= chunk <= 32 * 1024
      ensures chunk == 1 || 10 * chunk <= rateBytesPerSec
      ensures chunk == 32 * 1024 || rateBytesPerSec < 10 * (chunk + 1)
      ensures next == first == now - SlotLength(chunk, rate)
    {
      var c := rateBytesPerSec / 10;
      if c < 1 {
        c := 1;
      }
      if c > MAX_CHUNK {
        c := MAX_CHUNK;
      }
      rate, chunk := rateBytesPerSec, c;
      next := now - SlotLength(c, rateBytesPerSec);
      first := now - SlotLength(c, rateBytesPerSec);
      served, slots := [], [];
    }

    /** One chunk: now was read before the lock was taken and may be older than what other callers saw.
        The delays of the scheduler only add to the time at which the call returns. */
    method WaitChunk(n: nat, now: int, delay: nat) returns (returnedAt: int)
      requires Valid() && 0 < n <= chunk
      modifies this
      ensures served == old(served) + [Request(n, now)]
      ensures Valid() && |slots| == |old(slots)| + 1 && slots[..|old(slots)|] == old(slots)
      ensures var s := slots[|old(slots)|];
              && s == Slot(n, if old(next) < now then now else old(next), SlotLength(n, rate))
              && s.start >= now && returnedAt == s.start + delay && next == s.End()
      ensures Prompt(first, served, rate, |old(slots)|, returnedAt - delay, TotalBytes(old(slots)))
    {
      OneMore(first, served, slots, next, rate, chunk, Request(n, now));
      hide HandedOut, TotalBytes, SlotLength, Prompt;
      var duration := SlotLength(n, rate);
      var available := next;
      if available < now {
        available := now;
      }
      next := available + duration;
      var wait := available - now;
      slots, served := slots + [Slot(n, available, duration)], served + [Request(n, now)];
      returnedAt := now + delay;
      if wait > 0 {
        returnedAt := returnedAt + wait;
      }
    }

    /** The slots that callers are given one after the other, as while another one is between two chunks. */
    method OtherCallers(requests: seq<Request>)
      requires Valid() && forall r | r in requests :: r.bytes <= chunk
      modifies this
      ensures Valid() && slots == old(slots) + SlotsFrom(old(next), requests, rate) && served == old(served) + requests
      ensures old(slots) <= slots && |slots| == |old(slots)| + |requests|
    {
      hide Orderly, SlotLength;
      for i := 0 to |requests|
        invariant Valid() && |slots| == |old(slots)| + i && served == old(served) + requests[..i]
        invariant slots == old(slots) + SlotsFrom(old(next), requests[..i], rate)
        invariant next == NextAfter(old(next), SlotsFrom(old(next), requests[..i], rate))
      {
        assert requests[..i + 1][..i] == requests[..i];
        assert requests[i] in requests;
        var returnedAt := WaitChunk(requests[i].bytes, requests[i].now, 0);
      }
      assert requests[..|requests|] == requests;
    }

    /** One chunk, after other callers have been given theirs; position is that of its slot. */
    method WaitAfterOthers(n: nat, now: int, delay: nat, others: seq<Request>)
      returns (returnedAt: int, ghost position: nat)
      requires Valid() && 0 < n <= chunk && forall r | r in others :: r.bytes <= chunk
      modifies this
      ensures Valid() && old(slots) <= slots && old(served) <= served
      ensures |old(slots)| <= position < |slots| && slots[position].bytes == n && served[position] == Request(n, now)
      ensures returnedAt == slots[position].start + delay
    {
      hide HandedOut, TotalBytes, SlotLength, Prompt, SlotsFrom;
      OtherCallers(others);
      position := |slots|;
      returnedAt := WaitChunk(n, now, delay);
    }

    /** Splits n into chunks and waits for each; clock gives the reading each chunk starts with, others what runs
        before it, and delay what the scheduler adds to its sleep. The caller's slots lie at growing positions among
        all that were handed out, and times are those at which the chunks came back. */
    method Wait(n: int, clock: nat -> int, others: nat -> seq<Request>, delay: nat -> nat)
      returns (ghost mine: seq<Slot>, ghost at: seq<nat>, ghost times: seq<int>)
      requires Valid() && forall i, r | r in others(i) :: r.bytes <= chunk
      modifies this
      ensures Valid() && old(slots) <= slots
      ensures PickedAt(mine, slots, at, |old(slots)|)
      ensures TotalBytes(mine) == if n > 0 then n else 0
      ensures n <= chunk ==> |mine| <= 1
      ensures ReturnedAtStart(mine, times, delay) && AskedAt(mine, at, served, clock)
    {
      mine, at, times := [], [], [];
      assert TotalBytes(mine) == 0 && PickedAt(mine, slots, at, |slots|) && ReturnedAtStart(mine, times, delay);
      assert AskedAt(mine, at, served, clock);
      hide TotalBytes, Orderly, SlotLength, PickedAt, SlotsFrom, ReturnedAtStart, AskedAt, NoneAfter,
           HandedOut, Prompt;
      if n <= 0 {
        return;
      }
      var remaining := n;
      var i := 0;
      while remaining > 0
        invariant Valid() && 0 <= remaining <= n && old(slots) <= slots
        invariant PickedAt(mine, slots, at, |old(slots)|) && TotalBytes(mine) + remaining == n
        invariant n <= chunk ==> |mine| == if remaining == n then 0 else 1
        invariant n <= chunk ==> remaining == n || remaining == 0
        invariant ReturnedAtStart(mine, times, delay) && AskedAt(mine, at, served, clock) && i == |mine|
      {
        ghost var before, asked := slots, served;
        var c := if remaining > chunk then chunk else remaining;
        var returnedAt;
        ghost var position;
        returnedAt, position := WaitAfterOthers(c, clock(i), delay(i), others(i));
        PickNext(mine, before, at, |old(slots)|, slots, position);
        TotalBytesAppend(mine, slots[position]);
        ReturnNext(mine, times, delay, slots[position], returnedAt);
        AskNext(mine, at, asked, clock, served, position, slots[position]);
        mine, at, times := mine + [slots[position]], at + [position], times + [returnedAt];
        remaining, i := remaining - c, i + 1;
      }
    }

    /** A limited read asks the underlying reader for at most one chunk, and waits for what it got; reader says how
        much it delivers when it is asked for a number of bytes. */
    method Read(length: nat, reader: nat -> nat, clock: nat -> int, others: nat -> seq<Request>, delay: nat -> nat)
      returns (n: nat, ghost mine: seq<Slot>, ghost at: seq<nat>, ghost times: seq<int>)
      requires Valid() && forall asked :: reader(asked) <= asked
      requires forall i, r | r in others(i) :: r.bytes <= chunk
      modifies this
      ensures Valid() && old(slots) <= slots && PickedAt(mine, slots, at, |old(slots)|)
      ensures n == reader(if length > chunk then chunk else length) && n <= length && n <= chunk
      ensures TotalBytes(mine) == n && |mine| <= 1
      ensures ReturnedAtStart(mine, times, delay) && AskedAt(mine, at, served, clock)
    {
      var asked := length;
      if asked > chunk {
        asked := chunk;
      }
      n := reader(asked);
      mine, at, times := [], [], [];
      if n > 0 {
        mine, at, times := Wait(n, clock, others, delay);
      }
    }
  }

  /** Every chunk comes back when its slot starts, or later by what the scheduler adds. */
  ghost predicate ReturnedAtStart(mine: seq<Slot>, times: seq<int>, delay: nat -> nat) {
    |times| == |mine| && forall k | 0 <= k < |mine| :: times[k] == mine[k].start + delay(k)
  }

  /** Every chunk was asked for with its own bytes and reading, at the position of its slot. */
  ghost predicate AskedAt(mine: seq<Slot>, at: seq<nat>, served: seq<Request>, clock: nat -> int) {
    && |at| == |mine|
    && forall k | 0 <= k < |mine| ::
         at[k] < |served| && served[at[k]].bytes == mine[k].bytes && served[at[k]].now == clock(k)
  }

  lemma AskNext(mine: seq<Slot>, at: seq<nat>, before: seq<Request>, clock: nat -> int, served: seq<Request>,
                position: nat, s: Slot)
    requires AskedAt(mine, at, before, clock) && before <= served && position < |served|
    requires served[position].bytes == s.bytes && served[position].now == clock(|mine|)
    ensures AskedAt(mine + [s], at + [position], served, clock)
  {
  }

  lemma ReturnNext(mine: seq<Slot>, times: seq<int>, delay: nat -> nat, s: Slot, returnedAt: int)
    requires ReturnedAtStart(mine, times, delay) && returnedAt == s.start + delay(|mine|)
    ensures ReturnedAtStart(mine + [s], times + [returnedAt], delay)
  {
  }

  /** mine are the slots at these growing positions, all of them from the given one on. */
  ghost predicate PickedAt(mine: seq<Slot>, slots: seq<Slot>, at: seq<nat>, from: nat) {
    && |at| == |mine|
    && (forall k | 0 <= k < |at| :: from <= at[k] < |slots| && slots[at[k]] == mine[k])
    && forall k | 0 < k < |at| :: at[k - 1] < at[k]
  }

  lemma PickNext(mine: seq<Slot>, before: seq<Slot>, at: seq<nat>, from: nat, slots: seq<Slot>, position: nat)
    requires PickedAt(mine, before, at, from) && before <= slots && from <= |before| <= position < |slots|
    ensures PickedAt(mine + [slots[position]], slots, at + [position], from)
  {
  }
}
