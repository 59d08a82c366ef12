// Lists of event times from which the old ones are dropped, as the connection limiter and the
// failure tracker keep them, and what such a list still says about the full history.
module Timestamps {
  /** The times after the cutoff, in their order. */
  function Recent(items: seq<int>, cutoff: int): (r: seq<int>)
    ensures |r| <= |items|
  {
    if items == [] then []
    else
      var last := items[|items| - 1];
      Recent(items[..|items| - 1], cutoff) + if last > cutoff then [last] else []
  }

  /** The times recorded under a key; a key without an entry has none. */
  function History(m: map<string, seq<int>>, key: string): seq<int> {
    if key in m then m[key] else []
  }

  /** How many times lie in the half-open window of the given length that starts at lo. */
  function CountIn(items: seq<int>, lo: int, length: int): nat {
    if items == [] then 0
    else
      var last := items[|items| - 1];
      CountIn(items[..|items| - 1], lo, length) + if lo <= last < lo + length then 1 else 0
  }

  /** The kept times answer every question about times after the horizon as the full history does. */
  ghost predicate AgreeFrom(kept: seq<int>, history: seq<int>, horizon: int) {
    forall c :: c >= horizon ==> Recent(kept, c) == Recent(history, c)
  }

  ghost predicate RateBounded(history: seq<int>, window: int, limit: int) {
    forall t :: CountIn(history, t, window) <= limit
  }

  lemma RecentAppend(items: seq<int>, x: int, cutoff: int)
    ensures Recent(items + [x], cutoff) == Recent(items, cutoff) + if x > cutoff then [x] else []
  {
    assert (items + [x])[..|items|] == items;
  }

  lemma CountAppend(items: seq<int>, x: int, lo: int, length: int)
    ensures CountIn(items + [x], lo, length) == CountIn(items, lo, length) + if lo <= x < lo + length then 1 else 0
  {
    assert (items + [x])[..|items|] == items;
  }

  lemma {:induction false} RecentTwice(items: seq<int>, early: int, late: int)
    requires early <= late
    ensures Recent(Recent(items, early), late) == Recent(items, late)
  {
    if items != [] {
      var init, last := items[..|items| - 1], items[|items| - 1];
      RecentTwice(init, early, late);
      if last > early {
        RecentAppend(Recent(init, early), last, late);
      } else {
        assert Recent(items, early) == Recent(init, early);
        assert Recent(items, late) == Recent(init, late);
      }
    }
  }

  lemma {:induction false} RecentKeepsAll(items: seq<int>, cutoff: int)
    requires forall i | 0 <= i < |items| :: items[i] > cutoff
    ensures Recent(items, cutoff) == items
  {
    if items != [] {
      RecentKeepsAll(items[..|items| - 1], cutoff);
      assert items == items[..|items| - 1] + [items[|items| - 1]];
    }
  }

  /** Pruning at the horizon loses nothing that a later question can ask for. */
  lemma PruneAgrees(kept: seq<int>, history: seq<int>, horizon: int, cutoff: int)
    requires AgreeFrom(kept, history, horizon) && horizon <= cutoff
    ensures AgreeFrom(Recent(kept, cutoff), history, cutoff)
    ensures Recent(kept, cutoff) == Recent(history, cutoff)
  {
    forall c | c >= cutoff
      ensures Recent(Recent(kept, cutoff), c) == Recent(history, c)
    {
      RecentTwice(kept, cutoff, c);
    }
  }

  lemma AppendAgrees(kept: seq<int>, history: seq<int>, x: int, horizon: int)
    requires AgreeFrom(kept, history, horizon)
    ensures AgreeFrom(kept + [x], history + [x], horizon)
  {
    forall c | c >= horizon
      ensures Recent(kept + [x], c) == Recent(history + [x], c)
    {
      RecentAppend(kept, x, c);
      RecentAppend(history, x, c);
    }
  }

  lemma {:induction false} WindowWithinRecent(history: seq<int>, lo: int, length: int, cutoff: int)
    requires cutoff < lo
    ensures CountIn(history, lo, length) <= |Recent(history, cutoff)|
  {
    if history != [] {
      WindowWithinRecent(history[..|history| - 1], lo, length, cutoff);
    }
  }

  /** One more event keeps the rate if the window that ends with it had room. */
  lemma AdmissionKeepsRate(history: seq<int>, now: int, window: int, limit: int)
    requires RateBounded(history, window, limit)
    requires |Recent(history, now - window)| < limit
    ensures RateBounded(history + [now], window, limit)
  {
    forall t
      ensures CountIn(history + [now], t, window) <= limit
    {
      CountAppend(history, now, t, window);
      if t <= now < t + window {
        WindowWithinRecent(history, t, window, now - window);
      }
    }
  }

  /** Compacts the list in place: each kept time moves to the next free slot, then the rest is cut off. */
  method KeepRecent(items: seq<int>, cutoff: int) returns (kept: seq<int>)
    ensures kept == Recent(items, cutoff)
  {
    kept := items;
    var keep := 0;
    for i := 0 to |items|
      invariant 0 <= keep <= i && |kept| == |items|
      invariant kept[..keep] == Recent(items[..i], cutoff)
      invariant kept[i..] == items[i..]
    {
      var ts := kept[i];
      assert items[..i + 1] == items[..i] + [ts];
      RecentAppend(items[..i], ts, cutoff);
      if ts > cutoff {
        kept := kept[keep := ts];
        keep := keep + 1;
      }
    }
    assert items[..|items|] == items;
    kept := kept[..keep];
  }
}
