# Meeting scheduler: slot intersection and availability store

A Dafny model of the core of a small meeting scheduler. Each participant enters a
name and one or more free time slots ("HH:MM" to "HH:MM"). The application keeps
a list of users and suggests a meeting slot.

The model has five modules:

- `Types` (types.dfy): the `TimeSlot` and `User` records, plus an `Option`.
- `TimeCodec` (time_codec.dfy): `timeToMinutes` and `minutesToTime`.
  - It includes the decimal printing and two-digit padding that `minutesToTime` relies on.
  - It includes the `Date` values that the overlap test and the form compare.
- `TimeUtils` (time_utils.dfy): `findOverlappingSlots` and `doSlotsOverlap`.
  - `FindOverlappingSlots` is a method with the source's grouping and conversion loops.
  - Its "find common time ranges" loop is the method `CommonRanges`.
  - The method is proved equal to `OverlapOf`, a closed-form specification: latest start, earliest end.
  - `Step` and `Sweep` restate the loop as functions, linking the two.
- `App` (app.dfy): the handlers of the App component, on an explicit list of users.
  - `AddTimeSlot`, `DeleteTimeSlot` and `SuggestedTime` are the pure specifications.
  - Lemmas state the store invariant these operations keep:
    - names are unique;
    - every user has a non-blank name and at least one slot;
    - no two slots of one user overlap.
  - The `Scheduler` class holds `users` and `currentUser` and implements the handlers against those specifications.
- `TimeInput` (time_input.dfy): the validation in the time form's submit handler.
  - The `TimeInputForm` class holds the two fields and clears them after a successful submit.

Notes on what the code does (the model follows the code):

- **The intersection runs over all slots, not one slot per user.**
  - The comment at src/utils/timeUtils.ts:6 says the slots are grouped by `userId` "for distinct user overlaps".
  - But a `TimeSlot` has no `userId` field, so every slot falls into one `undefined` group.
  - The search therefore intersects every slot of every user, not one chosen slot per user.
  - `App.OneSlotPerUserIsNotEnough` shows the difference:
    - Ann is free 09:00–10:00 and 14:00–15:00, and Bob is free 09:00–10:00.
    - Nothing is suggested.
- **"The first" surviving range is the only one.** The running list of candidates never holds more than one range (`TimeUtils.SweepAtMostOne`), so which range comes first does not matter.
- **The store does not check slots.**
  - It does not reject a slot whose end is not after its start. The time form does (`TimeInput.CheckSubmission`).
  - `App.SubmittedSlotKeepsStore` shows that slots coming through the form keep every stored slot non-empty.
- **Deleting never reports an error.** A delete with an unknown name or an out-of-range index leaves the list as it was (`App.DeleteMissingIsNoOp`).
- **Times are never rejected as unparsable.** Strings reach the store only from time inputs, and the model takes them as "HH:MM" clock times.

## Model

| member | source | states |
|---|---|---|
| TimeCodec.NatToString | src/utils/timeUtils.ts:65 | `toString` of a non-negative number: a non-empty digit string that reads back as the number, with no leading zero unless the number is 0; it is one digit exactly when the number is below 10, and at most two below 100 |
| TimeCodec.PadStart | src/utils/timeUtils.ts:65 | the definition of `padStart`; `TimeCodec.PaddedTwoDigits` states what it gives on the printed hours and minutes |
| TimeCodec.MinutesToTime | src/utils/timeUtils.ts:62-66 | the definition of `minutesToTime`; `TimeCodec.MinutesToTimeDigits` states its five characters and `TimeCodec.MinutesRoundTrip` / `TimeCodec.TimeRoundTrip` state that it inverts `TimeCodec.TimeToMinutes` |
| TimeCodec.TimeToMinutes | src/utils/timeUtils.ts:57-60 | for "HH:MM" with a minute field below 60, the result divided by 60 is the hour field and its remainder is the minute field; a clock time gives less than 24*60 |
| TimeCodec.PaddedTwoDigits | src/utils/timeUtils.ts:65 | a number below 100, printed and padded to width 2 with '0', is exactly its tens digit followed by its units digit |
| TimeCodec.MinutesToTimeDigits | src/utils/timeUtils.ts:62-66 | `minutesToTime(m)` for m below 100 hours is the two digits of `floor(m/60)`, a colon, and the two digits of `m % 60` |
| TimeCodec.MinutesRoundTrip | src/utils/timeUtils.ts:57-66 | for m below 100 hours, `minutesToTime(m)` has the "HH:MM" shape and `timeToMinutes` reads it back as m; below 24*60 it is a clock time |
| TimeCodec.TimeRoundTrip | src/utils/timeUtils.ts:57-66 | a "HH:MM" string with a minute field below 60 is printed back unchanged by `minutesToTime(timeToMinutes(s))` |
| TimeCodec.DateMillis | src/App.tsx:72-75 | the `Date` of a clock time on 1970-01-01 is a whole number of minutes within one day |
| TimeCodec.DateOrder | src/components/TimeInput.tsx:18-21 | comparing two such `Date` values with `<` or `<=` compares the minute counts the same way |
| TimeUtils.DoSlotsOverlap | src/utils/timeUtils.ts:68-75 | the definition of `doSlotsOverlap`; `TimeUtils.DoSlotsOverlapSymmetric`, `TimeUtils.TouchingSlotsDoNotOverlap` and `TimeUtils.OverlapIffSharedMinute` state its properties |
| TimeUtils.DoSlotsOverlapSymmetric | src/utils/timeUtils.ts:68-75 | `doSlotsOverlap` gives the same answer with its arguments swapped |
| TimeUtils.TouchingSlotsDoNotOverlap | src/utils/timeUtils.ts:68-75 | slots where one ends at the minute the other starts do not overlap, in either order |
| TimeUtils.OverlapIffSharedMinute | src/utils/timeUtils.ts:68-75 | for slots that start before they end, overlapping is equivalent to sharing a minute of both half-open ranges |
| TimeUtils.ToMinuteRanges | src/utils/timeUtils.ts:17-25 | the definition of the conversion of every slot to minutes; `TimeUtils.FindOverlappingSlots` proves its conversion loops compute it |
| TimeUtils.Clip | src/utils/timeUtils.ts:34-39 | the definition of the inner loop's body for one candidate; `TimeUtils.Step` states what the loop keeps |
| TimeUtils.Step | src/utils/timeUtils.ts:31-40 | one pass of the inner loop keeps no more ranges than it had, and every kept range is non-empty and inside the current slot |
| TimeUtils.Sweep | src/utils/timeUtils.ts:28-44 | the definition of the outer loop run to the end; `TimeUtils.SweepOfNothing`, `TimeUtils.SweepAtMostOne`, `TimeUtils.SweepKeepsNonEmpty` and `TimeUtils.SweepIsCommonRange` state its properties, and `TimeUtils.CommonRanges` is proved against it |
| TimeUtils.SweepOfNothing | src/utils/timeUtils.ts:42-43 | once the candidate list is empty, later passes leave it empty, so the early `break` does not change the result |
| TimeUtils.SweepAtMostOne | src/utils/timeUtils.ts:28-44 | started with at most one range, the candidate list never holds more than one |
| TimeUtils.SweepKeepsNonEmpty | src/utils/timeUtils.ts:34-39 | after at least one later slot, every surviving candidate starts before it ends (touching intersections are dropped) |
| TimeUtils.MaxStartIsLargest | src/utils/timeUtils.ts:34 | the latest start is at least every range's start and is the start of one of them |
| TimeUtils.MinEndIsSmallest | src/utils/timeUtils.ts:35 | the earliest end is at most every range's end and is the end of one of them |
| TimeUtils.CommonRange | src/utils/timeUtils.ts:28-54 | the closed-form definition of the search on minute ranges: `[latest start, earliest end)` when non-empty; `TimeUtils.CommonRangeWithinEvery`, `TimeUtils.CommonRangeIsIntersection` and `TimeUtils.CommonRangeNoneIff` state what it means |
| TimeUtils.CommonRangeWithinEvery | src/utils/timeUtils.ts:28-44 | a found common range is non-empty and lies inside every input range |
| TimeUtils.SweepFromSeed | src/utils/timeUtils.ts:28-44 | seeded with one range and run over the later ones, the loop ends holding exactly the common range of all of them, or nothing when there is none |
| TimeUtils.SweepIsCommonRange | src/utils/timeUtils.ts:28-44 | over a list of two or more ranges the loop computes `[latest start, earliest end)` when that is non-empty, and nothing otherwise |
| TimeUtils.CommonRangeIsIntersection | src/utils/timeUtils.ts:28-54 | for two or more ranges, a minute lies in every input range if and only if a common range is found and the minute lies in it |
| TimeUtils.CommonRangeNoneIff | src/utils/timeUtils.ts:28-54 | for two or more ranges, no common range is found if and only if no minute lies in every input range |
| TimeUtils.CommonRangeSameElements | src/utils/timeUtils.ts:7-25 | for two lists of two or more ranges each, the result depends only on which ranges occur, not on their order or repetition |
| TimeUtils.CommonRangeOrderIndependent | src/utils/timeUtils.ts:7-25 | any permutation of the ranges gives the same result |
| TimeUtils.OverlapOf | src/utils/timeUtils.ts:46-54 | the definition of the reported slot: the common range printed back as "HH:MM"; `TimeUtils.FindOverlappingSlots` is proved equal to it, and `TimeUtils.OverlapOfWithinEverySlot` / `TimeUtils.OverlapOfOrderIndependent` state its properties |
| TimeUtils.OverlapOfWithinEverySlot | src/utils/timeUtils.ts:46-54 | for clock-time slots, a reported slot is two clock times that read back as a non-empty range inside every input slot |
| TimeUtils.CommonRangeBelowOneDay | src/utils/timeUtils.ts:46-51 | the ends of a common range of clock-time slots are within one day, so they print as clock times |
| TimeUtils.OverlapOfOrderIndependent | src/utils/timeUtils.ts:7-25 | reordering the input slots does not change the reported slot |
| TimeUtils.UserIdOf | src/utils/timeUtils.ts:9 | the definition of the grouping key: a slot's `userId`, which is always `undefined`; `TimeUtils.FindOverlappingSlots` uses it, and its grouping loop keeps every slot in one group |
| TimeUtils.CommonRanges | src/utils/timeUtils.ts:27-44 | the loop over two or more ranges, with its early exit, ends holding exactly the common range `[latest start, earliest end)` when that is non-empty, and nothing otherwise |
| TimeUtils.FindOverlappingSlots | src/utils/timeUtils.ts:3-55 | fewer than two slots give null; otherwise the result of the grouping, conversion and intersection loops equals the closed-form `OverlapOf` of the slots |
| App.Trim | src/App.tsx:16 | the definition of `trim()`; `App.TrimEmptyIffBlank` states when it is empty |
| App.TrimEmptyIffBlank | src/App.tsx:16 | `trim()` yields the empty string exactly when every character is JavaScript white space |
| App.TimeSlotOverlaps | src/App.tsx:71-78 | the definition of `timeSlotOverlaps` on `Date` values; `App.TimeSlotOverlapsAgrees` states that it agrees with `TimeUtils.DoSlotsOverlap` and is symmetric |
| App.TimeSlotOverlapsAgrees | src/App.tsx:71-78 | the `Date` overlap test decides the same as `doSlotsOverlap` on minute counts, and is symmetric |
| App.HasOverlap | src/App.tsx:25-27 | `some(...)` is true exactly when some slot in the list overlaps the given slot |
| App.FindIndex | src/App.tsx:21 | `findIndex` returns the first index whose name is exactly the given string, or -1 exactly when there is none |
| App.AddTimeSlot | src/App.tsx:15-42 | the list changes only on success; a blank trimmed name is refused; an overlap with the named user's own slot is refused; success appends the slot to that user and leaves every other user and the order alone; an unknown name becomes a new last user holding the one slot |
| App.AdjacentSlotAccepted | src/App.tsx:21-32 | for a non-blank name, a slot that overlaps none of that user's slots (adjacent ones included) is accepted |
| App.AddPreservesInvariant | src/App.tsx:21-37 | adding keeps names unique, every user named and non-empty, and every user's slots pairwise non-overlapping |
| App.AddPreservesOrderedSlots | src/App.tsx:34-37 | adding a slot that starts before it ends keeps every stored slot starting before it ends |
| App.SubmittedSlotKeepsStore | src/App.tsx:113 | a slot the time form submits, added under any name, keeps the store invariant and keeps every stored slot non-empty |
| App.RemoveIndex | src/App.tsx:49 | filtering by index drops exactly the slot at that index and keeps the rest in order; an index outside the list changes nothing |
| App.RemoveUserSlot | src/App.tsx:45-52 | the definition of the `map` step of delete; `App.RemoveUserSlotOfOne` states that with unique names it changes only the named user |
| App.NonEmptyUsers | src/App.tsx:53 | the definition of the `filter` step of delete; `App.NonEmptyUsersHaveSlots`, `App.NonEmptyUsersKeepsAll` and `App.NonEmptyUsersDropsEmptied` state its properties |
| App.NonEmptyUsersHaveSlots | src/App.tsx:53 | every user left by the filter has at least one slot |
| App.NonEmptyUsersKeepsAll | src/App.tsx:53 | a list whose users all have slots passes the filter unchanged |
| App.NonEmptyUsersDropsEmptied | src/App.tsx:53 | in a list whose users all have slots, a user replaced by one without slots is the only user the filter drops, and the rest keep their order |
| App.RemoveUserSlotOfOne | src/App.tsx:45-52 | with unique names, the `map` step changes only the named user, whose list loses the slot at the index |
| App.DeleteTimeSlot | src/App.tsx:44-58 | after a delete every remaining user has at least one slot |
| App.DeleteRemovesSlot | src/App.tsx:45-53 | in a store with unique names whose users all have slots, deleting an existing slot removes exactly that slot from the named user; other users and the order are unchanged; a user whose last slot it was disappears |
| App.DeleteMissingIsNoOp | src/App.tsx:45-53 | in a store whose users all have slots, an unknown name or an index outside the named user's list leaves the list unchanged |
| App.DropUserPreservesInvariant | src/App.tsx:53 | removing one user keeps the store invariant |
| App.RemoveSlotKeepsUserValid | src/App.tsx:49 | removing one slot from a user with two or more keeps that user valid |
| App.DeletePreservesInvariant | src/App.tsx:44-58 | deleting keeps the store invariant, whatever the name and index |
| App.Flatten | src/App.tsx:66 | the definition of `flatMap(user => user.timeSlots)`; `App.FlattenMembers` and `App.FlattenClock` state its properties |
| App.FlattenMembers | src/App.tsx:66 | `flatMap` holds every slot of every user, and nothing else |
| App.FlattenClock | src/App.tsx:66 | the flattened slots of a store of clock-time slots are clock-time slots |
| App.SuggestedTime | src/App.tsx:60-69 | the definition of the suggestion: nothing below two users, else `TimeUtils.OverlapOf` of the flattened slots; `App.CalculateSuggestedTime` is proved equal to it and `App.SuggestionInsideEverySlot` states what it means |
| App.CalculateSuggestedTime | src/App.tsx:60-69 | fewer than two users give no suggestion; otherwise the suggestion is the search over all users' slots, flattened in user order |
| App.SuggestionInsideEverySlot | src/App.tsx:60-69 | a suggestion is two clock times, starts before it ends, and lies inside every slot of every user |
| App.OverlapOfTwo | src/utils/timeUtils.ts:28-54 | the search over two slots reports the latest start to the earliest end when that range is non-empty, and nothing otherwise |
| App.OverlapOfThree | src/utils/timeUtils.ts:28-54 | the same for three slots |
| App.OneSlotPerUserIsNotEnough | src/App.tsx:66-67 | Ann free 09:00-10:00 and 14:00-15:00 with Bob free 09:00-10:00 gives no suggestion, because all slots are intersected |
| App.TwoUsersMeet | src/App.tsx:60-69 | Ann 09:00-11:00 and Bob 10:00-12:00 give 10:00-11:00 |
| App.ThreeUsersNarrow | src/App.tsx:60-69 | Ann 09:00-17:00, Bob 10:00-15:00 and Cara 14:00-16:00 give 14:00-15:00 |
| App.TouchingUsersDoNotMeet | src/App.tsx:60-69 | Ann 09:00-10:00 and Bob 10:00-11:00 give no suggestion |
| App.DeletingLastSlotRemovesUser | src/App.tsx:44-58 | deleting Ann's only slot removes Ann from the list |
| App.Scheduler.constructor | src/App.tsx:10-11 | the store starts with no users and an empty name, and satisfies the invariant |
| App.Scheduler.SetCurrentUser | src/App.tsx:107 | the name field sets the current name and leaves the users alone |
| App.Scheduler.HandleAddTimeSlot | src/App.tsx:15-42 | the new list and the outcome are those of `AddTimeSlot` on the old list and name; the invariant is kept; the name is unchanged |
| App.Scheduler.HandleDeleteTimeSlot | src/App.tsx:44-58 | the new list is `DeleteTimeSlot` of the old one; the invariant is kept; the name is unchanged |
| TimeInput.CheckSubmission | src/components/TimeInput.tsx:16-26 | an empty field is refused; otherwise an end at or before the start is refused (equal times included); a submitted slot is exactly the two fields, holds clock times, and starts before it ends |
| TimeInput.TimeInputForm.constructor | src/components/TimeInput.tsx:10-11 | both fields start empty |
| TimeInput.TimeInputForm.SetStartTime | src/components/TimeInput.tsx:38 | the start field takes the new value; the end field is unchanged |
| TimeInput.TimeInputForm.SetEndTime | src/components/TimeInput.tsx:49 | the end field takes the new value; the start field is unchanged |
| TimeInput.TimeInputForm.HandleSubmit | src/components/TimeInput.tsx:13-29 | the outcome is `CheckSubmission` of the fields; after a submit both fields are empty; after a refusal both keep their values |

## Left out

- Rendering: the JSX, styling and icons of App.tsx, and the TimeSlotList and SuggestedTime components. They only display state.
- Notifications: the notification banner and its three-second `setTimeout`, and the `alert` in the time form. These are timers and UI side effects. The outcome datatypes `AddOutcome` and `SubmitOutcome` name which message would be shown.
- React state timing:
  - `calculateSuggestedTime` runs right after `setUsers` and reads the list of the previous render.
  - The model computes the suggestion from an explicit list instead (`App.CalculateSuggestedTime`).
  - The stored `suggestedSlot` state is not modelled.
- App.Scheduler.HandleAddTimeSlot: value semantics instead of the in-place `push`.
  - The source pushes the slot in place into the user's `timeSlots` array, which the previous list shares.
  - The model builds a new user record instead, so it does not capture that aliasing.
- TimeCodec.TimeToMinutes and TimeUtils.FindOverlappingSlots require the "HH:MM" shape.
  - The source reads any string. A malformed field would yield `NaN`.
  - Strings reach these functions only from time inputs, so that path is not modelled.
- TimeCodec.DateMillis: the local time zone offset of `new Date('1970-01-01T…')` is not modelled.
  - The offset is the same for every time compared, so it does not change any comparison.
  - It is stated for clock times only.
- App.Scheduler.HandleAddTimeSlot requires a clock-time slot and a store that satisfies the invariant. Both hold for every slot the time form submits (`App.SubmittedSlotKeepsStore`).
- The order of iteration of a JavaScript `Map` is modelled as insertion order, kept in a separate key list. With a single key it has no effect.
