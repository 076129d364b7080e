/** The time form of src/components/TimeInput.tsx: two time fields and the
    submit handler that validates them before handing the slot on. */
module TimeInput {
  import opened Types
  import opened TimeCodec
  import opened TimeUtils

  /** What an <input type="time"> holds: nothing yet, or a clock time. */
  predicate IsFieldValue(t: string) { t == "" || IsClockTime(t) }

  datatype SubmitOutcome =
    | Submitted(slot: TimeSlot)  // passed to `onSubmit`
    | MissingField               // returned early, nothing shown
    | EndNotAfterStart           // "End time must be after start time"

  /** The decision `handleSubmit` takes on the two fields. */
  function CheckSubmission(startTime: string, endTime: string): (r: SubmitOutcome)
    requires IsFieldValue(startTime) && IsFieldValue(endTime)
    ensures r == MissingField <==> startTime == "" || endTime == ""
    // equal times are refused too
    ensures r == EndNotAfterStart <==>
      startTime != "" && endTime != "" && TimeToMinutes(endTime) <= TimeToMinutes(startTime)
    // the slot handed on is exactly the two fields, and starts before it ends
    ensures r.Submitted? ==>
      r.slot == TimeSlot(startTime, endTime) && IsClockSlot(r.slot) &&
      TimeToMinutes(r.slot.start) < TimeToMinutes(r.slot.end)
  {
    if startTime == "" || endTime == "" then MissingField
    else
      var start := DateMillis(startTime);
      var end := DateMillis(endTime);
      DateOrder(endTime, startTime);
      if end <= start then EndNotAfterStart
      else Submitted(TimeSlot(startTime, endTime))
  }

  /** The form's state. */
  class TimeInputForm {
    var startTime: string
    var endTime: string

    ghost predicate Valid()
      reads this
    {
      IsFieldValue(startTime) && IsFieldValue(endTime)
    }

    constructor ()
      ensures Valid() && startTime == "" && endTime == ""
    {
      startTime := "";
      endTime := "";
    }

    method SetStartTime(t: string)
      requires Valid() && IsFieldValue(t)
      modifies this
      ensures Valid() && startTime == t && endTime == old(endTime)
    {
      startTime := t;
    }

    method SetEndTime(t: string)
      requires Valid() && IsFieldValue(t)
      modifies this
      ensures Valid() && endTime == t && startTime == old(startTime)
    {
      endTime := t;
    }

    /** `handleSubmit`: on success the slot is handed on and both fields are
        cleared; on refusal both fields keep their values. */
    method HandleSubmit() returns (outcome: SubmitOutcome)
      requires Valid()
      modifies this
      ensures Valid()
      ensures outcome == CheckSubmission(old(startTime), old(endTime))
      ensures outcome.Submitted? ==> startTime == "" && endTime == ""
      ensures !outcome.Submitted? ==> startTime == old(startTime) && endTime == old(endTime)
    {
      if startTime == "" || endTime == "" {
        return MissingField;
      }
      var start := DateMillis(startTime);
      var end := DateMillis(endTime);
      if end <= start {
        return EndNotAfterStart;
      }
      outcome := Submitted(TimeSlot(startTime, endTime));
      startTime := "";
      endTime := "";
    }
  }
}
