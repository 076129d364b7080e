/** Slot intersection of src/utils/timeUtils.ts: `findOverlappingSlots` and
    `doSlotsOverlap`, over slots read through the codec.

    Note on grouping: the code groups its input by `slot.userId`, a field a
    TimeSlot does not have, so every slot lands in the single `undefined`
    bucket and the search intersects EVERY slot of EVERY participant. It does
    not look for a range that meets one slot per participant, which is what
    the comment at the grouping step suggests. This module models the code. */
module TimeUtils {
  import opened Types
  import opened TimeCodec

  /** A slot as minutes since midnight, `[start, end)`. */
  datatype MinuteRange = MinuteRange(start: nat, end: nat)

  predicate Contains(r: MinuteRange, t: int) { r.start <= t < r.end }

  predicate Within(inner: MinuteRange, outer: MinuteRange)
  {
    outer.start <= inner.start && inner.end <= outer.end
  }

  /** Both fields have the "HH:MM" shape the codec reads. */
  predicate WellFormedSlot(slot: TimeSlot) { IsHHMM(slot.start) && IsHHMM(slot.end) }

  /** Both fields are times of day, as the time inputs produce them. */
  predicate IsClockSlot(slot: TimeSlot) { IsClockTime(slot.start) && IsClockTime(slot.end) }

  predicate AllWellFormed(slots: seq<TimeSlot>)
  {
    forall k | 0 <= k < |slots| :: WellFormedSlot(slots[k])
  }

  function ToMinuteRange(slot: TimeSlot): MinuteRange
    requires WellFormedSlot(slot)
  {
    MinuteRange(TimeToMinutes(slot.start), TimeToMinutes(slot.end))
  }

  function ToMinuteRanges(slots: seq<TimeSlot>): seq<MinuteRange>
    requires AllWellFormed(slots)
  {
    seq(|slots|, k requires 0 <= k < |slots| => ToMinuteRange(slots[k]))
  }

  /** The slot the search reports, its two ends printed back as "HH:MM". */
  function ToTimeSlot(r: MinuteRange): TimeSlot
  {
    TimeSlot(MinutesToTime(r.start), MinutesToTime(r.end))
  }

  function Max(a: nat, b: nat): nat { if a >= b then a else b }

  function Min(a: nat, b: nat): nat { if a <= b then a else b }

  /** `doSlotsOverlap`: a strict test on half-open ranges. */
  function DoSlotsOverlap(slot1: TimeSlot, slot2: TimeSlot): bool
    requires WellFormedSlot(slot1) && WellFormedSlot(slot2)
  {
    var start1 := TimeToMinutes(slot1.start);
    var end1 := TimeToMinutes(slot1.end);
    var start2 := TimeToMinutes(slot2.start);
    var end2 := TimeToMinutes(slot2.end);
    start1 < end2 && start2 < end1
  }

  /** The test does not depend on the order of its arguments. */
  lemma DoSlotsOverlapSymmetric(slot1: TimeSlot, slot2: TimeSlot)
    requires WellFormedSlot(slot1) && WellFormedSlot(slot2)
    ensures DoSlotsOverlap(slot1, slot2) == DoSlotsOverlap(slot2, slot1)
  {
  }

  /** Slots that only share an endpoint do not overlap. */
  lemma TouchingSlotsDoNotOverlap(slot1: TimeSlot, slot2: TimeSlot)
    requires WellFormedSlot(slot1) && WellFormedSlot(slot2)
    requires TimeToMinutes(slot1.end) == TimeToMinutes(slot2.start)
    ensures !DoSlotsOverlap(slot1, slot2) && !DoSlotsOverlap(slot2, slot1)
  {
  }

  /** For slots whose start is before their end, overlapping means sharing
      at least one minute. */
  lemma OverlapIffSharedMinute(slot1: TimeSlot, slot2: TimeSlot)
    requires WellFormedSlot(slot1) && WellFormedSlot(slot2)
    requires TimeToMinutes(slot1.start) < TimeToMinutes(slot1.end)
    requires TimeToMinutes(slot2.start) < TimeToMinutes(slot2.end)
    ensures DoSlotsOverlap(slot1, slot2) <==>
      exists t :: Contains(ToMinuteRange(slot1), t) && Contains(ToMinuteRange(slot2), t)
  {
    var a, b := ToMinuteRange(slot1), ToMinuteRange(slot2);
    if DoSlotsOverlap(slot1, slot2) {
      var t := Max(a.start, b.start);
      assert Contains(a, t) && Contains(b, t);
    }
  }

  // ---------------------------------------------------------------------
  // The common-range loop, as specification functions.

  /** The inner loop's body for one candidate range: its intersection with
      the current slot, kept only when non-empty (touching ends are dropped). */
  function Clip(range: MinuteRange, slot: MinuteRange): seq<MinuteRange>
  {
    var overlapStart := Max(range.start, slot.start);
    var overlapEnd := Min(range.end, slot.end);
    if overlapStart < overlapEnd then [MinuteRange(overlapStart, overlapEnd)] else []
  }

  /** The inner loop over every candidate: `newRanges` for one slot. Every
      range it keeps is non-empty and lies inside that slot, and it never
      holds more ranges than there were candidates. */
  function Step(common: seq<MinuteRange>, slot: MinuteRange): (next: seq<MinuteRange>)
    ensures |next| <= |common|
    ensures forall x | x in next :: x.start < x.end && Within(x, slot)
  {
    if common == [] then []
    else Step(common[..|common| - 1], slot) + Clip(common[|common| - 1], slot)
  }

  /** The outer loop run to the end over `rest`, without the early exit. */
  function Sweep(common: seq<MinuteRange>, rest: seq<MinuteRange>): seq<MinuteRange>
    decreases |rest|
  {
    if rest == [] then common else Sweep(Step(common, rest[0]), rest[1..])
  }

  /** Once no candidate is left none comes back: the early `break` does not
      change the result. */
  lemma {:induction false} SweepOfNothing(rest: seq<MinuteRange>)
    ensures Sweep([], rest) == []
    decreases |rest|
  {
    if rest != [] {
      SweepOfNothing(rest[1..]);
    }
  }

  /** Seeded with one range, the list of candidates never holds two. */
  lemma {:induction false} SweepAtMostOne(common: seq<MinuteRange>, rest: seq<MinuteRange>)
    requires |common| <= 1
    ensures |Sweep(common, rest)| <= 1
    decreases |rest|
  {
    if rest != [] {
      SweepAtMostOne(Step(common, rest[0]), rest[1..]);
    }
  }

  /** After at least one later slot, every surviving candidate is non-empty. */
  lemma {:induction false} SweepKeepsNonEmpty(common: seq<MinuteRange>, rest: seq<MinuteRange>)
    requires rest != []
    ensures forall x | x in Sweep(common, rest) :: x.start < x.end
    decreases |rest|
  {
    if rest[1..] != [] {
      SweepKeepsNonEmpty(Step(common, rest[0]), rest[1..]);
    }
  }

  // ---------------------------------------------------------------------
  // The closed form: the latest start and the earliest end.

  /** The latest start of a non-empty list of ranges. */
  function MaxStart(rs: seq<MinuteRange>): nat
    requires rs != []
  {
    if |rs| == 1 then rs[0].start else Max(rs[0].start, MaxStart(rs[1..]))
  }

  /** The earliest end of a non-empty list of ranges. */
  function MinEnd(rs: seq<MinuteRange>): nat
    requires rs != []
  {
    if |rs| == 1 then rs[0].end else Min(rs[0].end, MinEnd(rs[1..]))
  }

  /** MaxStart is the largest start, and is the start of one of the ranges. */
  lemma {:induction false} MaxStartIsLargest(rs: seq<MinuteRange>)
    requires rs != []
    ensures forall k | 0 <= k < |rs| :: rs[k].start <= MaxStart(rs)
    ensures exists k | 0 <= k < |rs| :: rs[k].start == MaxStart(rs)
  {
    if |rs| > 1 {
      MaxStartIsLargest(rs[1..]);
      assert forall k | 1 <= k < |rs| :: rs[k] == rs[1..][k - 1];
      var j :| 0 <= j < |rs[1..]| && rs[1..][j].start == MaxStart(rs[1..]);
      assert rs[j + 1] == rs[1..][j];
      if MaxStart(rs) == rs[0].start {
        assert 0 <= 0 < |rs| && rs[0].start == MaxStart(rs);
      } else {
        assert 0 <= j + 1 < |rs| && rs[j + 1].start == MaxStart(rs);
      }
    } else {
      assert rs[0].start == MaxStart(rs);
    }
  }

  /** MinEnd is the smallest end, and is the end of one of the ranges. */
  lemma {:induction false} MinEndIsSmallest(rs: seq<MinuteRange>)
    requires rs != []
    ensures forall k | 0 <= k < |rs| :: MinEnd(rs) <= rs[k].end
    ensures exists k | 0 <= k < |rs| :: rs[k].end == MinEnd(rs)
  {
    if |rs| > 1 {
      MinEndIsSmallest(rs[1..]);
      assert forall k | 1 <= k < |rs| :: rs[k] == rs[1..][k - 1];
      var j :| 0 <= j < |rs[1..]| && rs[1..][j].end == MinEnd(rs[1..]);
      assert rs[j + 1] == rs[1..][j];
      if MinEnd(rs) == rs[0].end {
        assert 0 <= 0 < |rs| && rs[0].end == MinEnd(rs);
      } else {
        assert 0 <= j + 1 < |rs| && rs[j + 1].end == MinEnd(rs);
      }
    } else {
      assert rs[0].end == MinEnd(rs);
    }
  }

  /** What the search finds for two or more ranges: `[latest start, earliest
      end)` when that is non-empty. */
  function CommonRange(rs: seq<MinuteRange>): Option<MinuteRange>
  {
    if |rs| < 2 then None
    else if MaxStart(rs) < MinEnd(rs) then Some(MinuteRange(MaxStart(rs), MinEnd(rs)))
    else None
  }

  /** A found common range is non-empty and lies inside every range. */
  lemma CommonRangeWithinEvery(rs: seq<MinuteRange>)
    ensures CommonRange(rs).Some? ==>
      CommonRange(rs).value.start < CommonRange(rs).value.end &&
      forall k | 0 <= k < |rs| :: Within(CommonRange(rs).value, rs[k])
  {
    if |rs| >= 2 {
      MaxStartIsLargest(rs);
      MinEndIsSmallest(rs);
    }
  }

  function Candidates(o: Option<MinuteRange>): seq<MinuteRange>
  {
    match o
    case None => []
    case Some(r) => [r]
  }

  lemma StepOfOne(r: MinuteRange, slot: MinuteRange)
    ensures Step([r], slot) == Clip(r, slot)
  {
    assert [r][..0] == [];
  }

  lemma BoundsOfCons(r: MinuteRange, rest: seq<MinuteRange>)
    requires rest != []
    ensures MaxStart([r] + rest) == Max(r.start, MaxStart(rest))
    ensures MinEnd([r] + rest) == Min(r.end, MinEnd(rest))
  {
    assert ([r] + rest)[1..] == rest;
  }

  lemma SameBoundsSameCommonRange(a: seq<MinuteRange>, b: seq<MinuteRange>)
    requires |a| >= 2 && |b| >= 2
    requires MaxStart(a) == MaxStart(b) && MinEnd(a) == MinEnd(b)
    ensures CommonRange(a) == CommonRange(b)
  {
  }

  /** Seeded with `r` and run over a non-empty `rest`, the loop ends with the
      closed-form common range of `[r] + rest`, or with nothing. */
  lemma {:induction false} SweepFromSeed(r: MinuteRange, rest: seq<MinuteRange>)
    requires rest != []
    ensures Sweep([r], rest) == Candidates(CommonRange([r] + rest))
    decreases |rest|
  {
    var x, tail := rest[0], rest[1..];
    StepOfOne(r, x);
    BoundsOfCons(r, rest);
    assert Sweep([r], rest) == Sweep(Clip(r, x), tail);
    if tail == [] {
      assert rest == [x];
    } else {
      assert MaxStart(rest) == Max(x.start, MaxStart(tail));
      assert MinEnd(rest) == Min(x.end, MinEnd(tail));
      var s, e := Max(r.start, x.start), Min(r.end, x.end);
      var ms, me := MaxStart(tail), MinEnd(tail);
      assert Max(r.start, Max(x.start, ms)) == Max(s, ms);
      assert Min(r.end, Min(x.end, me)) == Min(e, me);
      if s < e {
        var r' := MinuteRange(s, e);
        assert Clip(r, x) == [r'];
        SweepFromSeed(r', tail);
        BoundsOfCons(r', tail);
        SameBoundsSameCommonRange([r'] + tail, [r] + rest);
      } else {
        assert Clip(r, x) == [];
        SweepOfNothing(tail);
        assert MinEnd([r] + rest) <= e <= s <= MaxStart([r] + rest);
      }
    }
  }

  /** The loop over a whole list of at least two ranges computes CommonRange. */
  lemma SweepIsCommonRange(rs: seq<MinuteRange>)
    requires |rs| >= 2
    ensures Sweep([rs[0]], rs[1..]) == Candidates(CommonRange(rs))
  {
    SweepFromSeed(rs[0], rs[1..]);
    assert [rs[0]] + rs[1..] == rs;
  }

  predicate InEveryRange(rs: seq<MinuteRange>, t: int)
  {
    forall k | 0 <= k < |rs| :: Contains(rs[k], t)
  }

  /** A minute lies in every range exactly when it lies in the common range:
      the result is the whole intersection, and nothing is missed when the
      result is absent. */
  lemma CommonRangeIsIntersection(rs: seq<MinuteRange>, t: int)
    requires |rs| >= 2
    ensures InEveryRange(rs, t) <==>
      (CommonRange(rs).Some? && Contains(CommonRange(rs).value, t))
  {
    MaxStartIsLargest(rs);
    MinEndIsSmallest(rs);
    if InEveryRange(rs, t) {
      var i :| 0 <= i < |rs| && rs[i].start == MaxStart(rs);
      var j :| 0 <= j < |rs| && rs[j].end == MinEnd(rs);
      assert Contains(rs[i], t) && Contains(rs[j], t);
    }
  }

  /** No common range exactly when no minute lies in every range. */
  lemma CommonRangeNoneIff(rs: seq<MinuteRange>)
    requires |rs| >= 2
    ensures CommonRange(rs) == None <==> forall t :: !InEveryRange(rs, t)
  {
    if CommonRange(rs).Some? {
      var t := CommonRange(rs).value.start;
      CommonRangeIsIntersection(rs, t);
    } else {
      forall t ensures !InEveryRange(rs, t) {
        CommonRangeIsIntersection(rs, t);
      }
    }
  }

  lemma MaxStartSameElements(rs: seq<MinuteRange>, qs: seq<MinuteRange>)
    requires rs != [] && qs != []
    requires forall x :: x in rs <==> x in qs
    ensures MaxStart(rs) == MaxStart(qs)
  {
    MaxStartIsLargest(rs);
    MaxStartIsLargest(qs);
    var i :| 0 <= i < |rs| && rs[i].start == MaxStart(rs);
    var j :| 0 <= j < |qs| && qs[j].start == MaxStart(qs);
    assert rs[i] in qs && qs[j] in rs;
  }

  lemma MinEndSameElements(rs: seq<MinuteRange>, qs: seq<MinuteRange>)
    requires rs != [] && qs != []
    requires forall x :: x in rs <==> x in qs
    ensures MinEnd(rs) == MinEnd(qs)
  {
    MinEndIsSmallest(rs);
    MinEndIsSmallest(qs);
    var i :| 0 <= i < |rs| && rs[i].end == MinEnd(rs);
    var j :| 0 <= j < |qs| && qs[j].end == MinEnd(qs);
    assert rs[i] in qs && qs[j] in rs;
  }

  /** The result depends only on which ranges occur, not on their order or
      on how often each occurs (given at least two). */
  lemma CommonRangeSameElements(rs: seq<MinuteRange>, qs: seq<MinuteRange>)
    requires |rs| >= 2 && |qs| >= 2
    requires forall x :: x in rs <==> x in qs
    ensures CommonRange(rs) == CommonRange(qs)
  {
    MaxStartSameElements(rs, qs);
    MinEndSameElements(rs, qs);
  }

  /** In particular, reordering the ranges does not change the result. */
  lemma CommonRangeOrderIndependent(rs: seq<MinuteRange>, qs: seq<MinuteRange>)
    requires multiset(rs) == multiset(qs)
    ensures CommonRange(rs) == CommonRange(qs)
  {
    assert |rs| == |multiset(rs)| == |multiset(qs)| == |qs|;
    if |rs| >= 2 {
      forall x ensures x in rs <==> x in qs {
        assert x in rs <==> x in multiset(rs);
        assert x in qs <==> x in multiset(qs);
      }
      CommonRangeSameElements(rs, qs);
    }
  }

  // ---------------------------------------------------------------------
  // findOverlappingSlots

  /** What `findOverlappingSlots` returns for a list of slots. */
  function OverlapOf(timeSlots: seq<TimeSlot>): Option<TimeSlot>
    requires AllWellFormed(timeSlots)
  {
    match CommonRange(ToMinuteRanges(timeSlots))
    case None => None
    case Some(r) => Some(ToTimeSlot(r))
  }

  /** For clock-time slots, a reported slot is a pair of clock times that
      reads back as a non-empty range inside every input slot. */
  lemma OverlapOfWithinEverySlot(timeSlots: seq<TimeSlot>)
    requires AllWellFormed(timeSlots)
    requires forall k | 0 <= k < |timeSlots| :: IsClockSlot(timeSlots[k])
    ensures OverlapOf(timeSlots).Some? ==>
      var s := OverlapOf(timeSlots).value;
      IsClockSlot(s) &&
      TimeToMinutes(s.start) < TimeToMinutes(s.end) &&
      forall k | 0 <= k < |timeSlots| ::
        TimeToMinutes(timeSlots[k].start) <= TimeToMinutes(s.start) &&
        TimeToMinutes(s.end) <= TimeToMinutes(timeSlots[k].end)
  {
    var rs := ToMinuteRanges(timeSlots);
    if CommonRange(rs).Some? {
      var r := CommonRange(rs).value;
      CommonRangeWithinEvery(rs);
      CommonRangeBelowOneDay(timeSlots);
      MinutesRoundTrip(r.start);
      MinutesRoundTrip(r.end);
      var s := ToTimeSlot(r);
      assert OverlapOf(timeSlots) == Some(s);
      assert TimeToMinutes(s.start) == r.start && TimeToMinutes(s.end) == r.end;
      forall k | 0 <= k < |timeSlots|
        ensures TimeToMinutes(timeSlots[k].start) <= r.start && r.end <= TimeToMinutes(timeSlots[k].end)
      {
        assert rs[k] == ToMinuteRange(timeSlots[k]);
        assert Within(r, rs[k]);
      }
    }
  }

  /** The ends of a common range of clock-time slots are within one day. */
  lemma CommonRangeBelowOneDay(timeSlots: seq<TimeSlot>)
    requires AllWellFormed(timeSlots)
    requires forall k | 0 <= k < |timeSlots| :: IsClockSlot(timeSlots[k])
    ensures var c := CommonRange(ToMinuteRanges(timeSlots));
      c.Some? ==> c.value.start < 24 * 60 && c.value.end < 24 * 60
  {
    var rs := ToMinuteRanges(timeSlots);
    if |rs| >= 2 {
      MaxStartIsLargest(rs);
      MinEndIsSmallest(rs);
      var i :| 0 <= i < |rs| && rs[i].start == MaxStart(rs);
      var j :| 0 <= j < |rs| && rs[j].end == MinEnd(rs);
      assert rs[i] == ToMinuteRange(timeSlots[i]) && rs[j] == ToMinuteRange(timeSlots[j]);
      assert IsClockSlot(timeSlots[i]) && IsClockSlot(timeSlots[j]);
    }
  }

  /** Reordering the input slots does not change the reported slot. */
  lemma OverlapOfOrderIndependent(a: seq<TimeSlot>, b: seq<TimeSlot>)
    requires AllWellFormed(a) && AllWellFormed(b)
    requires multiset(a) == multiset(b)
    ensures OverlapOf(a) == OverlapOf(b)
  {
    assert |a| == |multiset(a)| == |multiset(b)| == |b|;
    var ra, rb := ToMinuteRanges(a), ToMinuteRanges(b);
    if |a| >= 2 {
      forall x ensures x in ra ==> x in rb {
        if x in ra {
          var k :| 0 <= k < |a| && ra[k] == x;
          assert a[k] in multiset(b);
          var l :| 0 <= l < |b| && b[l] == a[k];
          assert rb[l] == x;
        }
      }
      forall x ensures x in rb ==> x in ra {
        if x in rb {
          var k :| 0 <= k < |b| && rb[k] == x;
          assert b[k] in multiset(a);
          var l :| 0 <= l < |a| && a[l] == b[k];
          assert ra[l] == x;
        }
      }
      CommonRangeSameElements(ra, rb);
    }
  }

  /** The key `findOverlappingSlots` groups by. A TimeSlot carries no
      `userId`, so reading it always yields `undefined`. */
  datatype UserId = Undefined

  function UserIdOf(slot: TimeSlot): UserId { Undefined }

  /** The "find common time ranges" loop: intersect the running list of
      candidates, seeded with the first range, with each later range in
      turn, stopping once it is empty. */
  method CommonRanges(slotsInMinutes: seq<MinuteRange>) returns (commonRanges: seq<MinuteRange>)
    requires |slotsInMinutes| >= 2
    ensures commonRanges == Candidates(CommonRange(slotsInMinutes))
  {
    ghost var goal := Sweep([slotsInMinutes[0]], slotsInMinutes[1..]);
    commonRanges := [slotsInMinutes[0]];
    for i := 1 to |slotsInMinutes|
      invariant |commonRanges| <= 1
      invariant Sweep(commonRanges, slotsInMinutes[i..]) == goal
    {
      var currentSlot := slotsInMinutes[i];
      var newRanges: seq<MinuteRange> := [];
      for j := 0 to |commonRanges|
        invariant newRanges == Step(commonRanges[..j], currentSlot)
      {
        var range := commonRanges[j];
        var overlapStart := Max(range.start, currentSlot.start);
        var overlapEnd := Min(range.end, currentSlot.end);
        if overlapStart < overlapEnd {
          newRanges := newRanges + [MinuteRange(overlapStart, overlapEnd)];
        }
        assert commonRanges[..j + 1][..j] == commonRanges[..j];
      }
      assert commonRanges[..|commonRanges|] == commonRanges;
      assert slotsInMinutes[i..][1..] == slotsInMinutes[i + 1..];
      commonRanges := newRanges;
      if |commonRanges| == 0 {
        SweepOfNothing(slotsInMinutes[i + 1..]);
        break;
      }
    }
    SweepIsCommonRange(slotsInMinutes);
  }

  /** `findOverlappingSlots`: group by user id, convert to minutes, intersect
      the running list of common ranges with each slot in turn (stopping once
      it is empty), and report the first surviving range. */
  method FindOverlappingSlots(timeSlots: seq<TimeSlot>) returns (result: Option<TimeSlot>)
    requires AllWellFormed(timeSlots)
    ensures |timeSlots| < 2 ==> result == None
    ensures result == OverlapOf(timeSlots)
  {
    if |timeSlots| < 2 {
      return None;
    }

    // Group the slots by user id; `keys` is the Map's insertion order.
    var userSlots: map<UserId, seq<TimeSlot>> := map[];
    var keys: seq<UserId> := [];
    for i := 0 to |timeSlots|
      invariant i == 0 ==> userSlots == map[] && keys == []
      invariant i > 0 ==> userSlots == map[Undefined := timeSlots[..i]] && keys == [Undefined]
    {
      var slot := timeSlots[i];
      var userId := UserIdOf(slot);
      if userId !in userSlots {
        userSlots := userSlots[userId := []];
        keys := keys + [userId];
      }
      userSlots := userSlots[userId := userSlots[userId] + [slot]];
      assert timeSlots[..i + 1] == timeSlots[..i] + [slot];
    }
    assert timeSlots[..|timeSlots|] == timeSlots;

    // Convert every slot to minutes, group by group.
    var slotsInMinutes: seq<MinuteRange> := [];
    for g := 0 to |keys|
      invariant slotsInMinutes == if g == 0 then [] else ToMinuteRanges(timeSlots)
    {
      var slots := userSlots[keys[g]];
      for j := 0 to |slots|
        invariant slotsInMinutes == ToMinuteRanges(slots[..j])
      {
        slotsInMinutes := slotsInMinutes + [ToMinuteRange(slots[j])];
        assert ToMinuteRanges(slots[..j + 1]) == ToMinuteRanges(slots[..j]) + [ToMinuteRange(slots[j])];
      }
      assert slots[..|slots|] == slots;
    }

    var commonRanges := CommonRanges(slotsInMinutes);

    if |commonRanges| > 0 {
      result := Some(TimeSlot(MinutesToTime(commonRanges[0].start), MinutesToTime(commonRanges[0].end)));
    } else {
      result := None;
    }
  }
}
