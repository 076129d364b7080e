/** The availability store of src/App.tsx: the list of users and the current
    name, the add and delete handlers, the overlap test they use, and the
    suggestion computed from the list. Notifications, timers and rendering
    are not modelled. */
module App {
  import opened Types
  import opened TimeCodec
  import opened TimeUtils
  import opened TimeInput

  // ---------------------------------------------------------------------
  // `String.prototype.trim`

  /** The characters `trim` removes: white space and line terminators. */
  predicate IsJsWhitespace(c: char)
  {
    c == '\t' || c == '\n' || c == '\U{000B}' || c == '\U{000C}' || c == '\r' || c == ' ' ||
    c == '\U{00A0}' || c == '\U{1680}' || ('\U{2000}' <= c <= '\U{200A}') ||
    c == '\U{2028}' || c == '\U{2029}' || c == '\U{202F}' || c == '\U{205F}' ||
    c == '\U{3000}' || c == '\U{FEFF}'
  }

  predicate IsBlank(s: string) { forall i | 0 <= i < |s| :: IsJsWhitespace(s[i]) }

  function TrimStart(s: string): string
  {
    if s != [] && IsJsWhitespace(s[0]) then TrimStart(s[1..]) else s
  }

  function TrimEnd(s: string): string
  {
    if s != [] && IsJsWhitespace(s[|s| - 1]) then TrimEnd(s[..|s| - 1]) else s
  }

  function Trim(s: string): string { TrimEnd(TrimStart(s)) }

  lemma {:induction false} TrimStartBlank(s: string)
    ensures IsBlank(TrimStart(s)) <==> IsBlank(s)
  {
    if s != [] && IsJsWhitespace(s[0]) {
      TrimStartBlank(s[1..]);
      assert IsBlank(s) <==> IsBlank(s[1..]) by {
        assert forall i | 1 <= i < |s| :: s[i] == s[1..][i - 1];
      }
    }
  }

  lemma {:induction false} TrimEndEmpty(s: string)
    ensures TrimEnd(s) == [] <==> IsBlank(s)
  {
    if s != [] && IsJsWhitespace(s[|s| - 1]) {
      TrimEndEmpty(s[..|s| - 1]);
      assert IsBlank(s) <==> IsBlank(s[..|s| - 1]) by {
        assert forall i | 0 <= i < |s| - 1 :: s[i] == s[..|s| - 1][i];
      }
    }
  }

  /** `!name.trim()` holds exactly for names made only of white space. */
  lemma TrimEmptyIffBlank(s: string)
    ensures Trim(s) == [] <==> IsBlank(s)
  {
    TrimStartBlank(s);
    TrimEndEmpty(TrimStart(s));
  }

  // ---------------------------------------------------------------------
  // `timeSlotOverlaps`

  predicate ClockSlots(slots: seq<TimeSlot>)
  {
    forall k | 0 <= k < |slots| :: IsClockSlot(slots[k])
  }

  /** `timeSlotOverlaps`: the strict test, on `Date` values. */
  function TimeSlotOverlaps(slot1: TimeSlot, slot2: TimeSlot): bool
    requires IsClockSlot(slot1) && IsClockSlot(slot2)
  {
    var start1 := DateMillis(slot1.start);
    var end1 := DateMillis(slot1.end);
    var start2 := DateMillis(slot2.start);
    var end2 := DateMillis(slot2.end);
    start1 < end2 && start2 < end1
  }

  /** It decides the same as `doSlotsOverlap` on minute counts, so it is
      symmetric and slots that only touch do not overlap. */
  lemma TimeSlotOverlapsAgrees(slot1: TimeSlot, slot2: TimeSlot)
    requires IsClockSlot(slot1) && IsClockSlot(slot2)
    ensures TimeSlotOverlaps(slot1, slot2) == DoSlotsOverlap(slot1, slot2)
    ensures TimeSlotOverlaps(slot1, slot2) == TimeSlotOverlaps(slot2, slot1)
  {
    DateOrder(slot1.start, slot2.end);
    DateOrder(slot2.start, slot1.end);
  }

  /** `array.some(existing => timeSlotOverlaps(existing, timeSlot))`. */
  function HasOverlap(timeSlots: seq<TimeSlot>, timeSlot: TimeSlot): (b: bool)
    requires ClockSlots(timeSlots) && IsClockSlot(timeSlot)
    ensures b <==> exists k | 0 <= k < |timeSlots| :: TimeSlotOverlaps(timeSlots[k], timeSlot)
  {
    if timeSlots == [] then false
    else
      var b := TimeSlotOverlaps(timeSlots[0], timeSlot) || HasOverlap(timeSlots[1..], timeSlot);
      assert forall k | 1 <= k < |timeSlots| :: timeSlots[k] == timeSlots[1..][k - 1];
      b
  }

  // ---------------------------------------------------------------------
  // The store and its invariants

  /** Every slot of every user holds two clock times. */
  predicate AllClock(users: seq<User>)
  {
    forall i | 0 <= i < |users| :: ClockSlots(users[i].timeSlots)
  }

  /** No two slots of one list overlap. */
  predicate Disjoint(slots: seq<TimeSlot>)
    requires ClockSlots(slots)
  {
    forall k, l | 0 <= k < l < |slots| :: !TimeSlotOverlaps(slots[k], slots[l])
  }

  /** A user the handlers can produce: a non-blank name and at least one
      slot, no two of them overlapping. */
  predicate ValidUser(u: User)
  {
    Trim(u.name) != "" && |u.timeSlots| > 0 && ClockSlots(u.timeSlots) && Disjoint(u.timeSlots)
  }

  predicate UniqueNames(users: seq<User>)
  {
    forall i, j | 0 <= i < j < |users| :: users[i].name != users[j].name
  }

  predicate StoreInvariant(users: seq<User>)
  {
    AllClock(users) && UniqueNames(users) && forall i | 0 <= i < |users| :: ValidUser(users[i])
  }

  /** Every stored slot starts strictly before it ends. The store does not
      check this itself: it holds because the time form only submits such
      slots. */
  predicate OrderedSlots(users: seq<User>)
  {
    forall i, k | 0 <= i < |users| && 0 <= k < |users[i].timeSlots| ::
      IsHHMM(users[i].timeSlots[k].start) && IsHHMM(users[i].timeSlots[k].end) &&
      TimeToMinutes(users[i].timeSlots[k].start) < TimeToMinutes(users[i].timeSlots[k].end)
  }

  // ---------------------------------------------------------------------
  // handleAddTimeSlot

  /** `users.findIndex(u => u.name === name)`: the first user with exactly
      that name, or -1. */
  function FindIndex(users: seq<User>, name: string): (i: int)
    ensures -1 <= i < |users|
    ensures 0 <= i ==> users[i].name == name && forall j | 0 <= j < i :: users[j].name != name
    ensures i == -1 <==> forall j | 0 <= j < |users| :: users[j].name != name
    decreases |users|
  {
    if users == [] then -1
    else if users[0].name == name then 0
    else
      var k := FindIndex(users[1..], name);
      assert forall j | 1 <= j < |users| :: users[j] == users[1..][j - 1];
      if k == -1 then -1 else k + 1
  }

  datatype AddOutcome =
    | Added             // "Time slot added successfully!"
    | NameRequired      // "Please enter your name"
    | OverlapsExisting  // "Time slot overlaps with your existing slots"

  datatype AddResult = AddResult(users: seq<User>, outcome: AddOutcome)

  /** The new user list and the notification of `handleAddTimeSlot`. */
  function AddTimeSlot(users: seq<User>, currentUser: string, timeSlot: TimeSlot): (r: AddResult)
    requires AllClock(users) && IsClockSlot(timeSlot)
    // a refused slot leaves the list as it was
    ensures r.outcome != Added ==> r.users == users
    // a blank name is refused
    ensures r.outcome == NameRequired <==> Trim(currentUser) == ""
    // for a known name, the slot is refused exactly when it overlaps one of that user's slots
    ensures var i := FindIndex(users, currentUser);
      Trim(currentUser) != "" && 0 <= i ==>
        (r.outcome == OverlapsExisting <==>
          exists k | 0 <= k < |users[i].timeSlots| :: TimeSlotOverlaps(users[i].timeSlots[k], timeSlot))
    // an accepted slot goes at the end of that user's list; nobody else changes
    ensures var i := FindIndex(users, currentUser);
      r.outcome == Added && 0 <= i ==>
        |r.users| == |users| &&
        r.users[i] == User(currentUser, users[i].timeSlots + [timeSlot]) &&
        forall j | 0 <= j < |users| && j != i :: r.users[j] == users[j]
    // an unknown name becomes a new last user with just this slot
    ensures Trim(currentUser) != "" && (forall j | 0 <= j < |users| :: users[j].name != currentUser) ==>
      r == AddResult(users + [User(currentUser, [timeSlot])], Added)
  {
    if Trim(currentUser) == "" then AddResult(users, NameRequired)
    else
      var existingUserIndex := FindIndex(users, currentUser);
      if existingUserIndex >= 0 then
        var existing := users[existingUserIndex];
        if HasOverlap(existing.timeSlots, timeSlot) then AddResult(users, OverlapsExisting)
        else
          var updated := existing.(timeSlots := existing.timeSlots + [timeSlot]);
          AddResult(users[existingUserIndex := updated], Added)
      else AddResult(users + [User(currentUser, [timeSlot])], Added)
  }

  /** A slot that only touches an existing slot of the user is accepted. */
  lemma AdjacentSlotAccepted(users: seq<User>, currentUser: string, timeSlot: TimeSlot)
    requires AllClock(users) && IsClockSlot(timeSlot)
    requires Trim(currentUser) != ""
    requires forall i, k | 0 <= i < |users| && 0 <= k < |users[i].timeSlots| && users[i].name == currentUser ::
      TimeToMinutes(users[i].timeSlots[k].end) <= TimeToMinutes(timeSlot.start) ||
      TimeToMinutes(timeSlot.end) <= TimeToMinutes(users[i].timeSlots[k].start)
    ensures AddTimeSlot(users, currentUser, timeSlot).outcome == Added
  {
    var i := FindIndex(users, currentUser);
    if 0 <= i {
      forall k | 0 <= k < |users[i].timeSlots|
        ensures !TimeSlotOverlaps(users[i].timeSlots[k], timeSlot)
      {
        TimeSlotOverlapsAgrees(users[i].timeSlots[k], timeSlot);
      }
    }
  }

  /** Adding keeps names unique, keeps every user non-empty and named, and
      keeps each user's slots pairwise non-overlapping. */
  lemma AddPreservesInvariant(users: seq<User>, currentUser: string, timeSlot: TimeSlot)
    requires StoreInvariant(users) && IsClockSlot(timeSlot)
    ensures StoreInvariant(AddTimeSlot(users, currentUser, timeSlot).users)
  {
    var r := AddTimeSlot(users, currentUser, timeSlot);
    var i := FindIndex(users, currentUser);
    if r.outcome == Added {
      if 0 <= i {
        var slots := users[i].timeSlots + [timeSlot];
        assert r.users[i].timeSlots == slots;
        assert ClockSlots(slots);
        forall k, l | 0 <= k < l < |slots|
          ensures !TimeSlotOverlaps(slots[k], slots[l])
        {
          if l < |slots| - 1 {
            assert slots[k] == users[i].timeSlots[k] && slots[l] == users[i].timeSlots[l];
            assert ValidUser(users[i]);
          } else {
            assert !HasOverlap(users[i].timeSlots, timeSlot);
          }
        }
        assert ValidUser(r.users[i]);
        assert forall j | 0 <= j < |users| :: r.users[j].name == users[j].name;
      } else {
        assert r.users == users + [User(currentUser, [timeSlot])];
        assert ValidUser(r.users[|users|]);
      }
    }
  }

  /** Adding a slot that starts before it ends keeps every stored slot so. */
  lemma AddPreservesOrderedSlots(users: seq<User>, currentUser: string, timeSlot: TimeSlot)
    requires AllClock(users) && IsClockSlot(timeSlot) && OrderedSlots(users)
    requires TimeToMinutes(timeSlot.start) < TimeToMinutes(timeSlot.end)
    ensures OrderedSlots(AddTimeSlot(users, currentUser, timeSlot).users)
  {
    var r := AddTimeSlot(users, currentUser, timeSlot);
    var i := FindIndex(users, currentUser);
    if r.outcome == Added && 0 <= i {
      forall j, k | 0 <= j < |r.users| && 0 <= k < |r.users[j].timeSlots|
        ensures IsHHMM(r.users[j].timeSlots[k].start) && IsHHMM(r.users[j].timeSlots[k].end)
        ensures TimeToMinutes(r.users[j].timeSlots[k].start) < TimeToMinutes(r.users[j].timeSlots[k].end)
      {
        if j == i && k == |users[i].timeSlots| {
          assert r.users[j].timeSlots[k] == timeSlot;
        } else {
          assert r.users[j].timeSlots[k] == users[j].timeSlots[k];
        }
      }
    }
  }

  /** The time form is the only source of slots (`onSubmit` is
      `handleAddTimeSlot`): whatever it submits, adding it under any name
      keeps the store invariant and keeps every stored slot non-empty. */
  lemma SubmittedSlotKeepsStore(users: seq<User>, currentUser: string, startTime: string, endTime: string)
    requires StoreInvariant(users) && OrderedSlots(users)
    requires IsFieldValue(startTime) && IsFieldValue(endTime)
    requires CheckSubmission(startTime, endTime).Submitted?
    ensures var r := AddTimeSlot(users, currentUser, CheckSubmission(startTime, endTime).slot);
      StoreInvariant(r.users) && OrderedSlots(r.users)
  {
    var slot := CheckSubmission(startTime, endTime).slot;
    AddPreservesInvariant(users, currentUser, slot);
    AddPreservesOrderedSlots(users, currentUser, slot);
  }

  // ---------------------------------------------------------------------
  // handleDeleteTimeSlot

  /** `timeSlots.filter((_, index) => index !== slotIndex)`: drops the slot
      at `slotIndex` when there is one, and changes nothing otherwise. */
  function RemoveIndex(timeSlots: seq<TimeSlot>, slotIndex: int): (r: seq<TimeSlot>)
    ensures 0 <= slotIndex < |timeSlots| ==> r == timeSlots[..slotIndex] + timeSlots[slotIndex + 1..]
    ensures !(0 <= slotIndex < |timeSlots|) ==> r == timeSlots
  {
    if timeSlots == [] then []
    else
      var last := |timeSlots| - 1;
      var front := timeSlots[..last];
      var r := RemoveIndex(front, slotIndex) + (if last == slotIndex then [] else [timeSlots[last]]);
      assert timeSlots == front + [timeSlots[last]];
      if 0 <= slotIndex < last then
        assert front[..slotIndex] == timeSlots[..slotIndex];
        assert front[slotIndex + 1..] + [timeSlots[last]] == timeSlots[slotIndex + 1..];
        r
      else r
  }

  /** The `users.map(...)` step: the named user loses the slot at `slotIndex`. */
  function RemoveUserSlot(users: seq<User>, userName: string, slotIndex: int): seq<User>
  {
    seq(|users|, i requires 0 <= i < |users| =>
      if users[i].name == userName
      then users[i].(timeSlots := RemoveIndex(users[i].timeSlots, slotIndex))
      else users[i])
  }

  /** The `.filter(user => user.timeSlots.length > 0)` step. */
  function NonEmptyUsers(users: seq<User>): seq<User>
  {
    if users == [] then []
    else (if |users[0].timeSlots| > 0 then [users[0]] else []) + NonEmptyUsers(users[1..])
  }

  /** Every user left by the filter has at least one slot. */
  lemma {:induction false} NonEmptyUsersHaveSlots(users: seq<User>)
    ensures forall i | 0 <= i < |NonEmptyUsers(users)| :: |NonEmptyUsers(users)[i].timeSlots| > 0
  {
    if users != [] {
      NonEmptyUsersHaveSlots(users[1..]);
    }
  }

  lemma {:induction false} NonEmptyUsersKeepsAll(a: seq<User>)
    requires forall i | 0 <= i < |a| :: |a[i].timeSlots| > 0
    ensures NonEmptyUsers(a) == a
  {
    if a != [] {
      NonEmptyUsersKeepsAll(a[1..]);
    }
  }

  /** The new user list of `handleDeleteTimeSlot`. Nobody in it is left
      without slots. */
  function DeleteTimeSlot(users: seq<User>, userName: string, slotIndex: int): (r: seq<User>)
    ensures forall i | 0 <= i < |r| :: |r[i].timeSlots| > 0
  {
    NonEmptyUsersHaveSlots(RemoveUserSlot(users, userName, slotIndex));
    NonEmptyUsers(RemoveUserSlot(users, userName, slotIndex))
  }

  /** Deleting an existing slot removes exactly that slot, keeping the order
      of the rest; a user whose last slot it was disappears; nobody else
      changes. */
  lemma DeleteRemovesSlot(users: seq<User>, i: nat, slotIndex: nat)
    requires UniqueNames(users) && forall j | 0 <= j < |users| :: |users[j].timeSlots| > 0
    requires i < |users| && slotIndex < |users[i].timeSlots|
    ensures var slots := users[i].timeSlots;
      DeleteTimeSlot(users, users[i].name, slotIndex) ==
        if |slots| == 1 then users[..i] + users[i + 1..]
        else users[i := users[i].(timeSlots := slots[..slotIndex] + slots[slotIndex + 1..])]
  {
    var slots := users[i].timeSlots;
    var u' := users[i].(timeSlots := RemoveIndex(slots, slotIndex));
    RemoveUserSlotOfOne(users, i, slotIndex);
    if |slots| == 1 {
      NonEmptyUsersDropsEmptied(users, i, u');
    } else {
      NonEmptyUsersKeepsAll(users[i := u']);
    }
  }

  /** Among users who all have slots, a user replaced by one with no slots
      is the only one the filter drops. */
  lemma {:induction false} NonEmptyUsersDropsEmptied(users: seq<User>, i: nat, u: User)
    requires i < |users| && forall j | 0 <= j < |users| :: |users[j].timeSlots| > 0
    requires |u.timeSlots| == 0
    ensures NonEmptyUsers(users[i := u]) == users[..i] + users[i + 1..]
  {
    var rest := users[1..];
    var updated := users[i := u];
    if i == 0 {
      assert updated[1..] == rest;
      NonEmptyUsersKeepsAll(rest);
    } else {
      assert updated[1..] == rest[i - 1 := u];
      NonEmptyUsersDropsEmptied(rest, i - 1, u);
      assert users[..i] + users[i + 1..] == [users[0]] + (rest[..i - 1] + rest[i..]);
    }
  }

  /** With unique names, the `map` step touches only the user at `i`. */
  lemma RemoveUserSlotOfOne(users: seq<User>, i: nat, slotIndex: int)
    requires UniqueNames(users) && i < |users|
    ensures RemoveUserSlot(users, users[i].name, slotIndex) ==
      users[i := users[i].(timeSlots := RemoveIndex(users[i].timeSlots, slotIndex))]
  {
    assert forall j | 0 <= j < |users| && j != i :: users[j].name != users[i].name;
  }

  /** Deleting with an unknown name or an index outside the user's list
      changes nothing (in a list where nobody is empty). */
  lemma DeleteMissingIsNoOp(users: seq<User>, userName: string, slotIndex: int)
    requires forall i | 0 <= i < |users| :: |users[i].timeSlots| > 0
    requires forall i | 0 <= i < |users| && users[i].name == userName ::
      !(0 <= slotIndex < |users[i].timeSlots|)
    ensures DeleteTimeSlot(users, userName, slotIndex) == users
  {
    assert RemoveUserSlot(users, userName, slotIndex) == users;
    NonEmptyUsersKeepsAll(users);
  }

  /** Removing one user keeps the store invariant. */
  lemma DropUserPreservesInvariant(users: seq<User>, i: nat)
    requires StoreInvariant(users) && i < |users|
    ensures StoreInvariant(users[..i] + users[i + 1..])
  {
    var r := users[..i] + users[i + 1..];
    assert forall p | 0 <= p < |r| :: r[p] == users[if p < i then p else p + 1];
  }

  /** Removing one slot from a valid user with two or more slots keeps it valid. */
  lemma RemoveSlotKeepsUserValid(u: User, k: nat)
    requires ValidUser(u) && k < |u.timeSlots| && |u.timeSlots| > 1
    ensures ValidUser(u.(timeSlots := u.timeSlots[..k] + u.timeSlots[k + 1..]))
  {
    var s := u.timeSlots;
    var t := s[..k] + s[k + 1..];
    assert forall p | 0 <= p < |t| :: t[p] == s[if p < k then p else p + 1];
  }

  /** Deleting keeps the store invariant, whatever the arguments. */
  lemma DeletePreservesInvariant(users: seq<User>, userName: string, slotIndex: int)
    requires StoreInvariant(users)
    ensures StoreInvariant(DeleteTimeSlot(users, userName, slotIndex))
  {
    assert forall j | 0 <= j < |users| :: ValidUser(users[j]);
    if i :| 0 <= i < |users| && users[i].name == userName && 0 <= slotIndex < |users[i].timeSlots| {
      DeleteRemovesSlot(users, i, slotIndex);
      var slots := users[i].timeSlots;
      if |slots| == 1 {
        DropUserPreservesInvariant(users, i);
      } else {
        RemoveSlotKeepsUserValid(users[i], slotIndex);
      }
    } else {
      DeleteMissingIsNoOp(users, userName, slotIndex);
    }
  }

  // ---------------------------------------------------------------------
  // calculateSuggestedTime

  /** `users.flatMap(user => user.timeSlots)`. */
  function Flatten(users: seq<User>): seq<TimeSlot>
  {
    if users == [] then [] else users[0].timeSlots + Flatten(users[1..])
  }

  /** Every slot of every user occurs in the flattened list, and every
      element of that list is some user's slot. */
  lemma {:induction false} FlattenMembers(users: seq<User>)
    ensures forall i, k | 0 <= i < |users| && 0 <= k < |users[i].timeSlots| ::
      users[i].timeSlots[k] in Flatten(users)
    ensures forall x | x in Flatten(users) ::
      exists i | 0 <= i < |users| :: x in users[i].timeSlots
  {
    if users != [] {
      FlattenMembers(users[1..]);
      assert forall i | 1 <= i < |users| :: users[i] == users[1..][i - 1];
      forall x | x in Flatten(users)
        ensures exists i | 0 <= i < |users| :: x in users[i].timeSlots
      {
        if x !in users[0].timeSlots {
          assert Flatten(users) == users[0].timeSlots + Flatten(users[1..]);
          assert x in Flatten(users[1..]);
          var i :| 0 <= i < |users[1..]| && x in users[1..][i].timeSlots;
          assert x in users[i + 1].timeSlots;
        }
      }
    }
  }

  /** The flattened list of a store of clock-time slots holds clock times. */
  lemma FlattenClock(users: seq<User>)
    requires AllClock(users)
    ensures forall k | 0 <= k < |Flatten(users)| :: IsClockSlot(Flatten(users)[k])
    ensures AllWellFormed(Flatten(users))
  {
    FlattenMembers(users);
    forall k | 0 <= k < |Flatten(users)|
      ensures IsClockSlot(Flatten(users)[k])
    {
      var x := Flatten(users)[k];
      assert x in Flatten(users);
      var i :| 0 <= i < |users| && x in users[i].timeSlots;
      var l :| 0 <= l < |users[i].timeSlots| && users[i].timeSlots[l] == x;
    }
  }

  /** What `calculateSuggestedTime` stores: nothing for fewer than two users,
      else the search over every slot of every user, in user order. */
  function SuggestedTime(users: seq<User>): Option<TimeSlot>
    requires AllClock(users)
  {
    FlattenClock(users);
    if |users| < 2 then None else OverlapOf(Flatten(users))
  }

  method CalculateSuggestedTime(users: seq<User>) returns (suggestion: Option<TimeSlot>)
    requires AllClock(users)
    ensures |users| < 2 ==> suggestion == None
    ensures suggestion == SuggestedTime(users)
  {
    if |users| < 2 {
      return None;
    }
    var allTimeSlots := Flatten(users);
    FlattenClock(users);
    suggestion := FindOverlappingSlots(allTimeSlots);
  }

  /** A suggestion is a pair of clock times, non-empty, and inside every
      slot of every user (not just inside one slot per user). */
  lemma SuggestionInsideEverySlot(users: seq<User>)
    requires AllClock(users)
    ensures SuggestedTime(users).Some? ==>
      var s := SuggestedTime(users).value;
      IsClockSlot(s) && TimeToMinutes(s.start) < TimeToMinutes(s.end) &&
      forall i, k | 0 <= i < |users| && 0 <= k < |users[i].timeSlots| ::
        TimeToMinutes(users[i].timeSlots[k].start) <= TimeToMinutes(s.start) &&
        TimeToMinutes(s.end) <= TimeToMinutes(users[i].timeSlots[k].end)
  {
    FlattenClock(users);
    FlattenMembers(users);
    var all := Flatten(users);
    if SuggestedTime(users).Some? {
      OverlapOfWithinEverySlot(all);
      var s := SuggestedTime(users).value;
      forall i, k | 0 <= i < |users| && 0 <= k < |users[i].timeSlots|
        ensures TimeToMinutes(users[i].timeSlots[k].start) <= TimeToMinutes(s.start)
        ensures TimeToMinutes(s.end) <= TimeToMinutes(users[i].timeSlots[k].end)
      {
        var p :| 0 <= p < |all| && all[p] == users[i].timeSlots[k];
      }
    }
  }

  // ---------------------------------------------------------------------
  // Worked examples

  /** How a literal "HH:MM" reads, digit by digit. */
  lemma ReadLiteral(s: string)
    requires IsHHMM(s)
    ensures TimeToMinutes(s) ==
      (DigitValue(s[0]) * 10 + DigitValue(s[1])) * 60 + DigitValue(s[3]) * 10 + DigitValue(s[4])
  {
    TwoDigitValue(s[..2]);
    TwoDigitValue(s[3..]);
  }

  lemma FlattenTwo(u: User, v: User)
    ensures Flatten([u, v]) == u.timeSlots + v.timeSlots
  {
    assert [u, v][1..] == [v] && [v][1..] == [];
    assert Flatten([v]) == v.timeSlots + Flatten([]);
  }

  /** With two users the search runs over the first user's slots followed
      by the second's. */
  lemma SuggestedTimeOfTwo(u: User, v: User)
    requires AllClock([u, v])
    ensures AllWellFormed(u.timeSlots + v.timeSlots)
    ensures SuggestedTime([u, v]) == OverlapOf(u.timeSlots + v.timeSlots)
  {
    FlattenTwo(u, v);
    FlattenClock([u, v]);
  }

  /** The clock times the examples below use, read as minutes. */
  lemma MorningTimes()
    ensures IsClockTime("09:00") && TimeToMinutes("09:00") == 540
    ensures IsClockTime("10:00") && TimeToMinutes("10:00") == 600
    ensures IsClockTime("11:00") && TimeToMinutes("11:00") == 660
    ensures IsClockTime("12:00") && TimeToMinutes("12:00") == 720
  {
    ReadLiteral("09:00");
    ReadLiteral("10:00");
    ReadLiteral("11:00");
    ReadLiteral("12:00");
  }

  lemma AfternoonTimes()
    ensures IsClockTime("14:00") && TimeToMinutes("14:00") == 840
    ensures IsClockTime("15:00") && TimeToMinutes("15:00") == 900
    ensures IsClockTime("16:00") && TimeToMinutes("16:00") == 960
    ensures IsClockTime("17:00") && TimeToMinutes("17:00") == 1020
  {
    ReadLiteral("14:00");
    ReadLiteral("15:00");
    ReadLiteral("16:00");
    ReadLiteral("17:00");
  }

  lemma CommonRangeOfTwo(r0: MinuteRange, r1: MinuteRange)
    ensures var s, e := Max(r0.start, r1.start), Min(r0.end, r1.end);
      CommonRange([r0, r1]) == if s < e then Some(MinuteRange(s, e)) else None
  {
    assert [r0, r1][1..] == [r1];
    assert MaxStart([r0, r1]) == Max(r0.start, r1.start);
    assert MinEnd([r0, r1]) == Min(r0.end, r1.end);
  }

  lemma CommonRangeOfThree(r0: MinuteRange, r1: MinuteRange, r2: MinuteRange)
    ensures var s, e := Max(r0.start, Max(r1.start, r2.start)), Min(r0.end, Min(r1.end, r2.end));
      CommonRange([r0, r1, r2]) == if s < e then Some(MinuteRange(s, e)) else None
  {
    assert [r0, r1, r2][1..] == [r1, r2];
    assert [r1, r2][1..] == [r2];
    assert MaxStart([r1, r2]) == Max(r1.start, r2.start);
    assert MinEnd([r1, r2]) == Min(r1.end, r2.end);
    assert MaxStart([r0, r1, r2]) == Max(r0.start, Max(r1.start, r2.start));
    assert MinEnd([r0, r1, r2]) == Min(r0.end, Min(r1.end, r2.end));
  }

  /** The search over two slots: latest start to earliest end, if non-empty. */
  lemma OverlapOfTwo(a: TimeSlot, b: TimeSlot)
    requires WellFormedSlot(a) && WellFormedSlot(b)
    ensures AllWellFormed([a, b])
    ensures var s := Max(TimeToMinutes(a.start), TimeToMinutes(b.start));
      var e := Min(TimeToMinutes(a.end), TimeToMinutes(b.end));
      OverlapOf([a, b]) == if s < e then Some(ToTimeSlot(MinuteRange(s, e))) else None
  {
    assert ToMinuteRanges([a, b]) == [ToMinuteRange(a), ToMinuteRange(b)];
    CommonRangeOfTwo(ToMinuteRange(a), ToMinuteRange(b));
  }

  /** The search over three slots. */
  lemma OverlapOfThree(a: TimeSlot, b: TimeSlot, c: TimeSlot)
    requires WellFormedSlot(a) && WellFormedSlot(b) && WellFormedSlot(c)
    ensures AllWellFormed([a, b, c])
    ensures var s := Max(TimeToMinutes(a.start), Max(TimeToMinutes(b.start), TimeToMinutes(c.start)));
      var e := Min(TimeToMinutes(a.end), Min(TimeToMinutes(b.end), TimeToMinutes(c.end)));
      OverlapOf([a, b, c]) == if s < e then Some(ToTimeSlot(MinuteRange(s, e))) else None
  {
    assert ToMinuteRanges([a, b, c]) == [ToMinuteRange(a), ToMinuteRange(b), ToMinuteRange(c)];
    CommonRangeOfThree(ToMinuteRange(a), ToMinuteRange(b), ToMinuteRange(c));
  }

  /** The search intersects every slot of every user, not one slot per user:
      Ann is free 09:00-10:00 and 14:00-15:00, Bob 09:00-10:00, and although
      both are free 09:00-10:00 nothing is suggested, because Ann's two
      slots do not meet each other. */
  lemma OneSlotPerUserIsNotEnough()
    ensures var nine, two := TimeSlot("09:00", "10:00"), TimeSlot("14:00", "15:00");
      var users := [User("Ann", [nine, two]), User("Bob", [nine])];
      AllClock(users) && SuggestedTime(users) == None
  {
    MorningTimes();
    AfternoonTimes();
    var nine, two := TimeSlot("09:00", "10:00"), TimeSlot("14:00", "15:00");
    var users := [User("Ann", [nine, two]), User("Bob", [nine])];
    assert AllClock(users);
    SuggestedTimeOfTwo(users[0], users[1]);
    assert [nine, two] + [nine] == [nine, two, nine];
    OverlapOfThree(nine, two, nine);
  }

  /** Ann 09:00-11:00 and Bob 10:00-12:00 meet at 10:00-11:00. */
  lemma TwoUsersMeet()
    ensures var users := [User("Ann", [TimeSlot("09:00", "11:00")]), User("Bob", [TimeSlot("10:00", "12:00")])];
      AllClock(users) && SuggestedTime(users) == Some(TimeSlot("10:00", "11:00"))
  {
    MorningTimes();
    TimeRoundTrip("10:00");
    TimeRoundTrip("11:00");
    var a, b := TimeSlot("09:00", "11:00"), TimeSlot("10:00", "12:00");
    var users := [User("Ann", [a]), User("Bob", [b])];
    assert AllClock(users);
    SuggestedTimeOfTwo(users[0], users[1]);
    assert [a] + [b] == [a, b];
    OverlapOfTwo(a, b);
  }

  /** Ann 09:00-17:00, Bob 10:00-15:00 and Cara 14:00-16:00 narrow down to
      14:00-15:00. */
  lemma ThreeUsersNarrow()
    ensures var users := [User("Ann", [TimeSlot("09:00", "17:00")]), User("Bob", [TimeSlot("10:00", "15:00")]),
                          User("Cara", [TimeSlot("14:00", "16:00")])];
      AllClock(users) && SuggestedTime(users) == Some(TimeSlot("14:00", "15:00"))
  {
    MorningTimes();
    AfternoonTimes();
    TimeRoundTrip("14:00");
    TimeRoundTrip("15:00");
    var a, b, c := TimeSlot("09:00", "17:00"), TimeSlot("10:00", "15:00"), TimeSlot("14:00", "16:00");
    var users := [User("Ann", [a]), User("Bob", [b]), User("Cara", [c])];
    assert AllClock(users);
    assert users[1..] == [users[1], users[2]];
    FlattenTwo(users[1], users[2]);
    assert Flatten(users) == [a, b, c];
    FlattenClock(users);
    OverlapOfThree(a, b, c);
  }

  /** Slots that only touch give no suggestion. */
  lemma TouchingUsersDoNotMeet()
    ensures var users := [User("Ann", [TimeSlot("09:00", "10:00")]), User("Bob", [TimeSlot("10:00", "11:00")])];
      AllClock(users) && SuggestedTime(users) == None
  {
    MorningTimes();
    var a, b := TimeSlot("09:00", "10:00"), TimeSlot("10:00", "11:00");
    var users := [User("Ann", [a]), User("Bob", [b])];
    assert AllClock(users);
    SuggestedTimeOfTwo(users[0], users[1]);
    assert [a] + [b] == [a, b];
    OverlapOfTwo(a, b);
  }

  /** Deleting Ann's only slot removes Ann from the list. */
  lemma DeletingLastSlotRemovesUser()
    ensures var ann, bob := User("Ann", [TimeSlot("09:00", "10:00")]), User("Bob", [TimeSlot("10:00", "11:00")]);
      DeleteTimeSlot([ann, bob], "Ann", 0) == [bob]
  {
    var ann, bob := User("Ann", [TimeSlot("09:00", "10:00")]), User("Bob", [TimeSlot("10:00", "11:00")]);
    var m := RemoveUserSlot([ann, bob], "Ann", 0);
    assert m == [ann.(timeSlots := []), bob];
    assert m[1..] == [bob] && [bob][1..] == [];
    assert NonEmptyUsers([bob]) == [bob];
  }

  // ---------------------------------------------------------------------
  // The component's state

  /** The state of the App component that the handlers change. */
  class Scheduler {
    var users: seq<User>
    var currentUser: string

    ghost predicate Valid()
      reads this
    {
      StoreInvariant(users)
    }

    constructor ()
      ensures Valid() && users == [] && currentUser == ""
    {
      users := [];
      currentUser := "";
    }

    /** The name field's `onChange`. */
    method SetCurrentUser(name: string)
      modifies this
      ensures currentUser == name && users == old(users)
    {
      currentUser := name;
    }

    /** `handleAddTimeSlot`: copy the list, then either refuse, push the
        slot onto the existing user's list, or append a new user. */
    method HandleAddTimeSlot(timeSlot: TimeSlot) returns (outcome: AddOutcome)
      requires Valid() && IsClockSlot(timeSlot)
      modifies this
      ensures Valid()
      ensures AddResult(users, outcome) == AddTimeSlot(old(users), old(currentUser), timeSlot)
      ensures currentUser == old(currentUser)
    {
      AddPreservesInvariant(users, currentUser, timeSlot);
      if Trim(currentUser) == "" {
        return NameRequired;
      }
      var existingUserIndex := FindIndex(users, currentUser);
      if existingUserIndex >= 0 {
        var updatedUsers := users;
        var hasOverlap := HasOverlap(updatedUsers[existingUserIndex].timeSlots, timeSlot);
        if hasOverlap {
          return OverlapsExisting;
        }
        var existing := updatedUsers[existingUserIndex];
        updatedUsers := updatedUsers[existingUserIndex := existing.(timeSlots := existing.timeSlots + [timeSlot])];
        users := updatedUsers;
      } else {
        users := users + [User(currentUser, [timeSlot])];
      }
      outcome := Added;
    }

    /** `handleDeleteTimeSlot`. */
    method HandleDeleteTimeSlot(userName: string, slotIndex: int)
      requires Valid()
      modifies this
      ensures Valid()
      ensures users == DeleteTimeSlot(old(users), userName, slotIndex)
      ensures currentUser == old(currentUser)
    {
      DeletePreservesInvariant(users, userName, slotIndex);
      users := DeleteTimeSlot(users, userName, slotIndex);
    }
  }
}
