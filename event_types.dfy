/**
 * The entities shared by the events service: instants, booked intervals,
 * conflict kinds and the constant tables of
 * calendar-backend/events/constants/errorResponse.ts.
 */
module EventTypes {

  /** An instant, as `Date.getTime()` gives it: milliseconds since the epoch. */
  type Instant = int

  const MsPerMinute: int := 60 * 1000
  const MsPerHour: int := 60 * MsPerMinute

  /** The largest meeting length, in minutes, the booking schema admits. */
  const MaxDurationMinutes: int := 480

  /**
   * `addMinutes`: the instant `minutes` minutes after `t`. The source adds
   * local minutes to a fresh `Date`; daylight-saving jumps are not modelled.
   */
  function AddMinutes(t: Instant, minutes: int): (r: Instant)
    ensures (r - t) % MsPerMinute == 0 && (r - t) / MsPerMinute == minutes
    ensures minutes > 0 ==> t < r
  {
    t + minutes * MsPerMinute
  }

  /**
   * One stored booking, as `transformSnapshotToBookedSlots` delivers it
   * (the stored fields `startTime`, `duration`, `endTime`).
   */
  datatype BookedSlot = BookedSlot(bookedStartTime: Instant, duration: int, bookedEndTime: Instant)

  /** The four keys of `SlotConflictErrors`. */
  datatype ConflictKind =
    | SlotOutsideWorkingHrs
    | SlotAlreadyBooked
    | SlotOverlapsExistingMeeting
    | SlotOverlapsMeetingStart

  /** The key under which `SlotConflictErrors` holds a conflict kind. */
  function KindName(k: ConflictKind): (r: string)
    ensures |r| > 5 && r[..5] == "SLOT_"
  {
    match k
    case SlotOutsideWorkingHrs => "SLOT_OUTSIDE_WORKING_HRS"
    case SlotAlreadyBooked => "SLOT_ALREADY_BOOKED"
    case SlotOverlapsExistingMeeting => "SLOT_OVERLAPS_EXISTING_MEETING"
    case SlotOverlapsMeetingStart => "SLOT_OVERLAPS_MEETING_START"
  }

  /** The human-readable text `SlotConflictErrors` stores for a kind. */
  function Description(k: ConflictKind): string
  {
    match k
    case SlotOutsideWorkingHrs =>
      "Requested slot not within working hours.Please choose a time within"
    case SlotAlreadyBooked =>
      "The requested time slot is already booked. Please choose a different time."
    case SlotOverlapsExistingMeeting =>
      "The requested time slot conflicts with an existing meeting. Please select a non-overlapping time."
    case SlotOverlapsMeetingStart =>
      "The requested time slot overlaps with the start of a scheduled meeting. Please choose a time that doesn't conflict."
  }

  /** Distinct kinds have distinct keys, so a key names its kind. */
  lemma KindNameInjective(k1: ConflictKind, k2: ConflictKind)
    ensures KindName(k1) == KindName(k2) ==> k1 == k2
  {
  }

  /** A stored booking whose end lies after its start. */
  predicate WellFormed(b: BookedSlot)
  {
    b.bookedStartTime < b.bookedEndTime
  }

  /** A stored booking whose end is at most the longest admitted meeting after its start. */
  predicate Bounded(b: BookedSlot)
  {
    WellFormed(b) && b.bookedEndTime - b.bookedStartTime <= MaxDurationMinutes * MsPerMinute
  }

  /** The half-open intervals `[s1, e1)` and `[s2, e2)` share an instant. */
  predicate Overlaps(s1: Instant, e1: Instant, s2: Instant, e2: Instant)
  {
    s1 < e2 && s2 < e1
  }
}
