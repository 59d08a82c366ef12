// The addresses that were seen to succeed today, which protects them from a permanent block.
module SuccessMarks {
  import opened Collections

  datatype Day = NoDay | Day(number: int)

  /** What the tracker keeps. */
  datatype Marks = Marks(date: Day, ips: set<string>)

  /** A section that looks at the date: a success is marked, or a protocol failure asks for protection. The day is
      that of the section's clock reading, which a marking takes before it has the lock. */
  datatype Reading = Mark(key: string, day: int) | Check(day: int)

  function Rotated(m: Marks, day: int): Marks {
    if m.date == Day(day) then m else Marks(Day(day), {})
  }

  function Marked(m: Marks, key: string, day: int, maxItems: int): Marks {
    var r := Rotated(m, day);
    if key in r.ips || |r.ips| >= maxItems then r else r.(ips := r.ips + {key})
  }

  function After(m: Marks, r: Reading, maxItems: int): Marks {
    match r
    case Mark(key, day) => Marked(m, key, day, maxItems)
    case Check(day) => Rotated(m, day)
  }

  /** The marks after a history of readings, in the order in which their sections ran. */
  function MarksAfter(readings: seq<Reading>, maxItems: int): Marks {
    if readings == [] then Marks(NoDay, {})
    else After(MarksAfter(readings[..|readings| - 1], maxItems), readings[|readings| - 1], maxItems)
  }

  lemma MarksAfterOne(readings: seq<Reading>, r: Reading, maxItems: int)
    ensures MarksAfter(readings + [r], maxItems) == After(MarksAfter(readings, maxItems), r, maxItems)
  {
    assert (readings + [r])[..|readings|] == readings;
  }

  /** The i-th reading marked the address on that day, and the set had room for it. */
  ghost predicate Recorded(readings: seq<Reading>, i: nat, key: string, day: int, maxItems: int) {
    i < |readings| && readings[i] == Mark(key, day) && key in MarksAfter(readings[..i + 1], maxItems).ips
  }

  /** The date was left alone from the i-th reading on. */
  ghost predicate SameDayFrom(readings: seq<Reading>, i: nat, day: int) {
    forall j | i <= j < |readings| :: readings[j].day == day
  }

  ghost predicate Protected(readings: seq<Reading>, key: string, day: int, maxItems: int) {
    key in Rotated(MarksAfter(readings, maxItems), day).ips
  }

  lemma ProtectedStep(readings: seq<Reading>, key: string, day: int, maxItems: int)
    ensures readings == [] ==> !Protected(readings, key, day, maxItems)
    ensures readings != [] ==>
            var n: nat := |readings| - 1;
            Protected(readings, key, day, maxItems) <==>
            && readings[n].day == day
            && (Protected(readings[..n], key, day, maxItems) || Recorded(readings, n, key, day, maxItems))
  {
    if readings == [] {
      return;
    }
    var n := |readings| - 1;
    assert readings[..n + 1] == readings;
    assert MarksAfter(readings, maxItems) == After(MarksAfter(readings[..n], maxItems), readings[n], maxItems);
    hide MarksAfter;
  }

  lemma RecordedBefore(readings: seq<Reading>, i: nat, key: string, day: int, maxItems: int)
    requires i < |readings| - 1
    ensures Recorded(readings, i, key, day, maxItems) <==>
            Recorded(readings[..|readings| - 1], i, key, day, maxItems)
  {
    assert readings[..|readings| - 1][..i + 1] == readings[..i + 1];
  }

  lemma {:induction false} ProtectionWasRecorded(readings: seq<Reading>, key: string, day: int, maxItems: int)
    returns (i: nat)
    requires Protected(readings, key, day, maxItems)
    ensures i < |readings| && Recorded(readings, i, key, day, maxItems) && SameDayFrom(readings, i, day)
  {
    ProtectedStep(readings, key, day, maxItems);
    hide Protected, Recorded, MarksAfter;
    var n := |readings| - 1;
    i := n;
    if !Recorded(readings, n, key, day, maxItems) {
      i := ProtectionWasRecorded(readings[..n], key, day, maxItems);
      RecordedBefore(readings, i, key, day, maxItems);
      SameDayLonger(readings, i, day);
    }
  }

  lemma SameDayLonger(readings: seq<Reading>, i: nat, day: int)
    requires readings != [] && SameDayFrom(readings[..|readings| - 1], i, day) && readings[|readings| - 1].day == day
    ensures SameDayFrom(readings, i, day)
  {
    assert forall j | i <= j < |readings| - 1 :: readings[..|readings| - 1][j] == readings[j];
  }

  lemma {:induction false} RecordingProtects(readings: seq<Reading>, i: nat, key: string, day: int, maxItems: int)
    requires Recorded(readings, i, key, day, maxItems) && SameDayFrom(readings, i, day)
    ensures Protected(readings, key, day, maxItems)
  {
    var n := |readings| - 1;
    ProtectedStep(readings, key, day, maxItems);
    if i < n {
      RecordedBefore(readings, i, key, day, maxItems);
      hide Protected, Recorded, MarksAfter;
      assert SameDayFrom(readings[..n], i, day);
      RecordingProtects(readings[..n], i, key, day, maxItems);
    }
  }

  /** An address is protected on a day if and only if it was recorded that day and every reading since was of
      the same day. */
  lemma ProtectedIffUndisturbed(readings: seq<Reading>, key: string, day: int, maxItems: int)
    ensures Protected(readings, key, day, maxItems) <==>
            exists i: nat :: Recorded(readings, i, key, day, maxItems) && SameDayFrom(readings, i, day)
  {
    hide Protected, Recorded, SameDayFrom;
    if Protected(readings, key, day, maxItems) {
      var i := ProtectionWasRecorded(readings, key, day, maxItems);
    }
    if i: nat :| Recorded(readings, i, key, day, maxItems) && SameDayFrom(readings, i, day) {
      RecordingProtects(readings, i, key, day, maxItems);
    }
  }

  // ---- Protection in terms of the readings alone ----

  /** The addresses marked since the last reading of another day. */
  ghost function MarkedOn(readings: seq<Reading>, day: int): set<string> {
    set i | 0 <= i < |readings| && readings[i].Mark? && SameDayFrom(readings, i, day) :: readings[i].key
  }

  lemma MarkedOnStep(readings: seq<Reading>, r: Reading, day: int)
    ensures MarkedOn([], day) == {}
    ensures MarkedOn(readings + [r], day) ==
            if r.day != day then {} else MarkedOn(readings, day) + if r.Mark? then {r.key} else {}
  {
    var all := readings + [r];
    assert all[|readings|] == r;
    forall i | 0 <= i < |readings|
      ensures SameDayFrom(all, i, day) <==> SameDayFrom(readings, i, day) && r.day == day
    {
      assert forall j | i <= j < |readings| :: all[j] == readings[j];
    }
    assert SameDayFrom(all, |readings|, day) <==> r.day == day;
    forall key | key in MarkedOn(readings, day) && r.day == day
      ensures key in MarkedOn(all, day)
    {
      var i :| 0 <= i < |readings| && readings[i].Mark? && SameDayFrom(readings, i, day) && readings[i].key == key;
      assert all[i] == readings[i];
    }
  }

  /** The set holds addresses marked that day, all of them as long as there is room, and is full otherwise. */
  lemma {:induction false} SetIsMarked(readings: seq<Reading>, day: int, maxItems: int)
    requires 0 < maxItems
    ensures var ips, marked := Rotated(MarksAfter(readings, maxItems), day).ips, MarkedOn(readings, day);
            && ips <= marked && (|marked| <= maxItems ==> ips == marked) && (|marked| > maxItems ==> |ips| == maxItems)
  {
    MarkedOnStep([], Check(day), day);
    if readings != [] {
      var n := |readings| - 1;
      var init, r := readings[..n], readings[n];
      assert readings == init + [r];
      SetIsMarked(init, day, maxItems);
      MarkedOnStep(init, r, day);
      MarksAfterOne(init, r, maxItems);
      hide MarkedOn, MarksAfter;
      SetStep(Rotated(MarksAfter(init, maxItems), day).ips, MarkedOn(init, day), r, maxItems);
    }
  }

  lemma SetStep(ips: set<string>, marked: set<string>, r: Reading, maxItems: int)
    requires 0 < maxItems && ips <= marked && (|marked| <= maxItems ==> ips == marked)
    requires |marked| > maxItems ==> |ips| == maxItems
    ensures var marked' := marked + if r.Mark? then {r.key} else {};
            var ips' := if r.Check? || r.key in ips || |ips| >= maxItems then ips else ips + {r.key};
            && ips' <= marked' && (|marked'| <= maxItems ==> ips' == marked')
            && (|marked'| > maxItems ==> |ips'| == maxItems)
  {
    if r.Mark? {
      if r.key in marked {
        assert marked + {r.key} == marked;
      } else {
        assert |marked + {r.key}| == |marked| + 1;
      }
    }
  }

  /** A success is recorded if and only if its address was recorded before on this undisturbed day, or fewer than
      maxItems other addresses were marked on it. */
  lemma RecordedIff(readings: seq<Reading>, key: string, day: int, maxItems: int)
    requires 0 < maxItems
    ensures Recorded(readings + [Mark(key, day)], |readings|, key, day, maxItems) <==>
            Protected(readings, key, day, maxItems) || |MarkedOn(readings, day) - {key}| < maxItems
  {
    var all := readings + [Mark(key, day)];
    assert all[..|readings| + 1] == all;
    MarksAfterOne(readings, Mark(key, day), maxItems);
    SetIsMarked(readings, day, maxItems);
    var ips, marked := Rotated(MarksAfter(readings, maxItems), day).ips, MarkedOn(readings, day);
    hide MarksAfter, MarkedOn;
    if key !in ips {
      SubsetSize(ips, marked - {key});
      if |marked| <= maxItems {
        assert marked - {key} == marked;
      }
    }
  }

  /** The j-th reading marks the address, nothing has disturbed the day since, and fewer than maxItems other addresses
      had been marked on it. */
  ghost predicate MarkedInTime(readings: seq<Reading>, j: nat, key: string, day: int, maxItems: int) {
    && j < |readings| && readings[j] == Mark(key, day) && SameDayFrom(readings, j, day)
    && |MarkedOn(readings[..j], day) - {key}| < maxItems
  }

  lemma MarkedInTimeStep(readings: seq<Reading>, j: nat, key: string, day: int, maxItems: int)
    requires j < |readings| - 1
    ensures MarkedInTime(readings, j, key, day, maxItems) <==>
            MarkedInTime(readings[..|readings| - 1], j, key, day, maxItems) && readings[|readings| - 1].day == day
  {
    var init := readings[..|readings| - 1];
    assert init[..j] == readings[..j];
    assert forall k | j <= k < |init| :: init[k] == readings[k];
  }

  /** An address is protected on a day if and only if it was marked that day in time. This speaks of the readings
      alone. */
  lemma {:induction false} ProtectedIffMarkedInTime(readings: seq<Reading>, key: string, day: int, maxItems: int)
    requires 0 < maxItems
    ensures Protected(readings, key, day, maxItems) <==>
            exists j: nat :: MarkedInTime(readings, j, key, day, maxItems)
  {
    ProtectedStep(readings, key, day, maxItems);
    if readings != [] {
      var n := |readings| - 1;
      var init := readings[..n];
      ProtectedIffMarkedInTime(init, key, day, maxItems);
      LastInTime(readings, key, day, maxItems);
      hide Protected, Recorded, MarkedInTime;
      if j: nat :| MarkedInTime(init, j, key, day, maxItems) && readings[n].day == day {
        InRange(init, j, key, day, maxItems);
        MarkedInTimeStep(readings, j, key, day, maxItems);
      }
      if j: nat :| MarkedInTime(readings, j, key, day, maxItems) {
        InRange(readings, j, key, day, maxItems);
        if j < n {
          MarkedInTimeStep(readings, j, key, day, maxItems);
        }
      }
    }
  }

  lemma InRange(readings: seq<Reading>, j: nat, key: string, day: int, maxItems: int)
    requires MarkedInTime(readings, j, key, day, maxItems)
    ensures j < |readings| && readings[|readings| - 1].day == day
  {
  }

  /** For the last reading: recorded, unless already protected, means marked in time. */
  lemma LastInTime(readings: seq<Reading>, key: string, day: int, maxItems: int)
    requires 0 < maxItems && readings != []
    ensures var n: nat := |readings| - 1;
            && (MarkedInTime(readings, n, key, day, maxItems) ==> Recorded(readings, n, key, day, maxItems))
            && (Recorded(readings, n, key, day, maxItems) ==>
                  || Protected(readings[..n], key, day, maxItems)
                  || MarkedInTime(readings, n, key, day, maxItems))
  {
    var n := |readings| - 1;
    if readings[n] == Mark(key, day) {
      assert readings == readings[..n] + [Mark(key, day)];
      RecordedIff(readings[..n], key, day, maxItems);
      hide Recorded, Protected, MarkedOn;
    }
  }

  /** The readings come in the order of their days. */
  ghost predicate InOrder(readings: seq<Reading>) {
    forall i, j | 0 <= i < j < |readings| :: readings[i].day <= readings[j].day
  }

  /** With readings in order, and none of a later day, an address recorded on a day is protected that day. */
  lemma InOrderProtects(readings: seq<Reading>, i: nat, key: string, day: int, maxItems: int)
    requires InOrder(readings + [Check(day)]) && Recorded(readings, i, key, day, maxItems)
    ensures Protected(readings, key, day, maxItems)
  {
    var all := readings + [Check(day)];
    assert all[i] == readings[i] && all[|readings|] == Check(day);
    forall j | i <= j < |readings|
      ensures readings[j].day == day
    {
      assert all[j] == readings[j] && all[i].day <= all[j].day <= all[|readings|].day;
    }
    assert SameDayFrom(readings, i, day);
    RecordingProtects(readings, i, key, day, maxItems);
  }

  /** One reading of another day after the last recording takes the protection away. */
  lemma StaleReadingUnprotects(readings: seq<Reading>, r: Reading, key: string, day: int, maxItems: int)
    requires r.day != day
    ensures !Protected(readings + [r], key, day, maxItems)
  {
    MarksAfterOne(readings, r, maxItems);
  }
}
