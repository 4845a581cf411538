/**
 * `bookEventSlot` and `getBookedEvents` of
 * calendar-backend/events/services/EventsService.ts.
 *
 * The working-hours window for the request (what `getSlotAvailableHours`
 * computes for the request's UTC date in the configured timezone) is given
 * as two instants, the parsed `slotTime` as an optional instant (`None` for
 * a string `new Date` cannot read), and what the transaction reads as a
 * snapshot of the store or a store failure. The source's `t.set` is
 * commented out, so a booking writes nothing: the store is an input here and
 * never an output.
 */
module Booking {
  import opened Wrappers
  import opened EventTypes
  import opened EventRepository
  import opened SlotConflicts

  /** What the transaction's read gives. */
  datatype StoreRead = Snapshot(docs: seq<BookedSlot>) | StoreFailure(message: string)

  /** What the body of `bookEventSlot` throws, and its catch block receives. */
  datatype BookingError =
    | ConflictError(kind: ConflictKind)
    | InvalidTime          // `toISOString` on an invalid Date throws a RangeError
    | StoreError(message: string)

  datatype Decision = Accepted | Rejected(error: BookingError)

  /** The record `bookEventSlot` returns. */
  datatype BookingResponse = BookingResponse(isBookingSuccess: bool, errorCode: string, message: string)

  const SuccessMessage: string := "Slot Booked Successfully"
  const UnknownErrorCode: string := "UNKNOWN_ERROR"
  const InvalidTimeMessage: string := "Invalid time value"

  /** The candidates read inside the transaction: the query over start -/+ one hour. */
  function Candidates(docs: seq<BookedSlot>, start: Instant): (r: seq<BookedSlot>)
    ensures SortedByStart(r)
    ensures forall b :: b in r <==>
      b in docs && start - MsPerHour <= b.bookedStartTime && b.bookedEndTime < start + MsPerHour
  {
    SlotsInInterval(docs, start - MsPerHour, start + MsPerHour)
  }

  lemma CandidatesAreTheQuery(docs: seq<BookedSlot>, start: Instant, lo: Instant, hi: Instant)
    requires lo == start - MsPerHour && hi == start + MsPerHour
    ensures SlotsInInterval(docs, lo, hi) == Candidates(docs, start)
  {
  }

  /**
   * The decision `bookEventSlot` takes. An unreadable time fails first; the
   * working-hours rule is decided before the store is read, and its
   * rejection is exactly the case `start < windowStart || start >= windowEnd`;
   * only then does the conflict scan of `checkSlotAvailablity` run on the
   * candidates, with `end = start + duration` minutes.
   */
  function Decide(slotTime: Option<Instant>, duration: int, windowStart: Instant, windowEnd: Instant, read: StoreRead): (d: Decision)
    ensures slotTime.None? ==> d == Rejected(InvalidTime)
    ensures slotTime.Some? ==>
      (d == Rejected(ConflictError(SlotOutsideWorkingHrs)) <==>
       slotTime.value < windowStart || slotTime.value >= windowEnd)
    ensures slotTime.Some? && read.StoreFailure? && windowStart <= slotTime.value < windowEnd ==>
      d == Rejected(StoreError(read.message))
  {
    match slotTime
    case None => Rejected(InvalidTime)
    case Some(start) =>
      if start < windowStart || start >= windowEnd then Rejected(ConflictError(SlotOutsideWorkingHrs))
      else
        match read
        case StoreFailure(m) => Rejected(StoreError(m))
        case Snapshot(docs) =>
          match SlotStatusOf(start, AddMinutes(start, duration), Candidates(docs, start))
          case Available => Accepted
          case Conflict(k) => Rejected(ConflictError(k))
  }

  /**
   * The message of the `Error` the catch block receives. A conflict is
   * thrown as `new Error(SlotConflictErrors.X.name)`; the table's values are
   * strings, whose `.name` is undefined, and `new Error(undefined)` has the
   * empty message.
   */
  function ThrownMessage(e: BookingError): (r: string)
    ensures r == "" <==> e.ConflictError? || e == StoreError("")
  {
    match e
    case ConflictError(_) => ""
    case InvalidTime => InvalidTimeMessage
    case StoreError(m) => m
  }

  /**
   * The record returned, as the source writes it. Success carries an empty
   * error code and the success message. The catch block looks the thrown
   * message up in `SlotConflictErrors`; what it finds (if anything) is a
   * string, whose `.name` and `.message` are undefined, so every rejection
   * carries "UNKNOWN_ERROR" and the thrown message itself.
   */
  function Respond(d: Decision): (r: BookingResponse)
    ensures r.isBookingSuccess <==> d == Accepted
    ensures d == Accepted ==> r.errorCode == "" && r.message == SuccessMessage
    ensures d.Rejected? ==> r.errorCode == UnknownErrorCode && r.message == ThrownMessage(d.error)
  {
    match d
    case Accepted => BookingResponse(true, "", SuccessMessage)
    case Rejected(e) => BookingResponse(false, UnknownErrorCode, ThrownMessage(e))
  }

  /**
   * `bookEventSlot`, step by step: parse, compute the end, check working
   * hours, read the candidates inside the transaction, scan them. An
   * available slot is reported booked although nothing is written.
   */
  method BookEventSlot(slotTime: Option<Instant>, duration: int, windowStart: Instant, windowEnd: Instant, read: StoreRead)
    returns (response: BookingResponse)
    ensures response == Respond(Decide(slotTime, duration, windowStart, windowEnd, read))
    ensures response.isBookingSuccess ==> response.errorCode == "" && response.message == SuccessMessage
    ensures !response.isBookingSuccess ==> response.errorCode == UnknownErrorCode
  {
    if slotTime.None? {
      return Respond(Rejected(InvalidTime));
    }
    var requestedStartTime := slotTime.value;
    var requestedEndTime := AddMinutes(requestedStartTime, duration);
    if requestedStartTime < windowStart || requestedStartTime >= windowEnd {
      return Respond(Rejected(ConflictError(SlotOutsideWorkingHrs)));
    }
    var oneHrBeforeSlot := requestedStartTime - MsPerHour;
    var oneHrAfterSlot := requestedStartTime + MsPerHour;
    if read.StoreFailure? {
      return Respond(Rejected(StoreError(read.message)));
    }
    var bookedSlotData := SlotsInInterval(read.docs, oneHrBeforeSlot, oneHrAfterSlot);
    CandidatesAreTheQuery(read.docs, requestedStartTime, oneHrBeforeSlot, oneHrAfterSlot);
    var status := CheckSlotAvailability(requestedStartTime, requestedEndTime, bookedSlotData);
    if status.Conflict? {
      return Respond(Rejected(ConflictError(status.kind)));
    }
    return Respond(Accepted);
  }

  /** Some stored booking inside the query range overlaps `[start, end)`. */
  predicate OverlapsStored(start: Instant, end: Instant, docs: seq<BookedSlot>, lo: Instant, hi: Instant)
  {
    exists b :: b in docs && InInterval(b, lo, hi) && Overlaps(start, end, b.bookedStartTime, b.bookedEndTime)
  }

  /** The query result holds an overlapping booking exactly when the store does, inside the range. */
  lemma QueryKeepsOverlaps(start: Instant, end: Instant, docs: seq<BookedSlot>, lo: Instant, hi: Instant)
    ensures var cands := SlotsInInterval(docs, lo, hi);
      (exists i :: 0 <= i < |cands| && Overlaps(start, end, cands[i].bookedStartTime, cands[i].bookedEndTime))
      <==> OverlapsStored(start, end, docs, lo, hi)
  {
    var cands := SlotsInInterval(docs, lo, hi);
    if OverlapsStored(start, end, docs, lo, hi) {
      var b :| b in docs && InInterval(b, lo, hi) && Overlaps(start, end, b.bookedStartTime, b.bookedEndTime);
      assert b in cands;
      var i :| 0 <= i < |cands| && cands[i] == b;
    }
    if exists i :: 0 <= i < |cands| && Overlaps(start, end, cands[i].bookedStartTime, cands[i].bookedEndTime) {
      var i :| 0 <= i < |cands| && Overlaps(start, end, cands[i].bookedStartTime, cands[i].bookedEndTime);
      assert cands[i] in cands;
    }
  }

  /**
   * When a booking is accepted: the time reads, it lies in working hours,
   * and (for a positive duration and well-formed stored bookings) no stored
   * booking that the one-hour query returns overlaps the requested interval.
   */
  lemma AcceptedIffNoCandidateOverlaps(start: Instant, duration: int, windowStart: Instant, windowEnd: Instant, docs: seq<BookedSlot>)
    requires duration > 0
    requires forall b :: b in docs ==> WellFormed(b)
    ensures Decide(Some(start), duration, windowStart, windowEnd, Snapshot(docs)) == Accepted <==>
      windowStart <= start < windowEnd &&
      !OverlapsStored(start, AddMinutes(start, duration), docs, start - MsPerHour, start + MsPerHour)
  {
    var end := AddMinutes(start, duration);
    var cands := Candidates(docs, start);
    if windowStart <= start < windowEnd {
      IndexedWellFormed(cands);
      ConflictIffOverlap(start, end, cands);
      QueryKeepsOverlaps(start, end, docs, start - MsPerHour, start + MsPerHour);
      DecideInHoursScans(start, duration, windowStart, windowEnd, docs);
    }
  }

  /** Inside working hours, a readable store, the decision is the scan of the candidates. */
  lemma DecideInHoursScans(start: Instant, duration: int, windowStart: Instant, windowEnd: Instant, docs: seq<BookedSlot>)
    requires windowStart <= start < windowEnd
    ensures Decide(Some(start), duration, windowStart, windowEnd, Snapshot(docs)) == Accepted
      <==> SlotStatusOf(start, AddMinutes(start, duration), Candidates(docs, start)) == Available
  {
  }

  /** Well-formed members are well-formed entries. */
  lemma IndexedWellFormed(s: seq<BookedSlot>)
    requires forall b :: b in s ==> WellFormed(b)
    ensures forall i :: 0 <= i < |s| ==> WellFormed(s[i])
  {
    assert forall i :: 0 <= i < |s| ==> s[i] in s;
  }

  /** A booking with the same start as a stored one is refused, and so reported with "UNKNOWN_ERROR". */
  lemma SameStartCandidateRejected(start: Instant, duration: int, windowStart: Instant, windowEnd: Instant, docs: seq<BookedSlot>, b: BookedSlot)
    requires windowStart <= start < windowEnd
    requires b in docs && b.bookedStartTime == start && b.bookedEndTime < start + MsPerHour
    ensures Decide(Some(start), duration, windowStart, windowEnd, Snapshot(docs)).Rejected?
    ensures Respond(Decide(Some(start), duration, windowStart, windowEnd, Snapshot(docs))).errorCode == UnknownErrorCode
  {
    var cands := Candidates(docs, start);
    assert b in cands;
    var i :| 0 <= i < |cands| && cands[i] == b;
    FirstMatchDecides(start, AddMinutes(start, duration), cands, SlotAlreadyBooked);
  }

  /** The response of `getBookedEvents`: `[]`, or the bookings with their count. */
  datatype BookedEventsResponse = NoEvents | Events(result: seq<BookedSlot>, count: int)

  /**
   * `getBookedEvents` over the range whose ends `new Date` gives for
   * `startDate` (set to local midnight) and `endDate`: the store query over
   * that range, `[]` when it is empty, otherwise the bookings in start order
   * with their number.
   */
  function GetBookedEvents(docs: seq<BookedSlot>, startingDate: Instant, endingLastDate: Instant): (r: BookedEventsResponse)
    ensures r.NoEvents? <==> forall b :: b in docs ==> !InInterval(b, startingDate, endingLastDate)
    ensures r.Events? ==> r.count == |r.result| > 0 && SortedByStart(r.result)
    ensures r.Events? ==> forall b ::
      multiset(r.result)[b] == if InInterval(b, startingDate, endingLastDate) then multiset(docs)[b] else 0
  {
    var bookedSlotData := SlotsInInterval(docs, startingDate, endingLastDate);
    if |bookedSlotData| == 0 then NoEvents
    else
      assert bookedSlotData[0] in bookedSlotData;
      Events(bookedSlotData, |bookedSlotData|)
  }

  /**
   * A range that does not go forward holds no well-formed booking: a
   * booking has to start at or after the range's start and end before its
   * end.
   */
  lemma EmptyRangeHasNoEvents(docs: seq<BookedSlot>, startingDate: Instant, endingLastDate: Instant)
    requires forall b :: b in docs ==> WellFormed(b)
    requires endingLastDate <= startingDate
    ensures GetBookedEvents(docs, startingDate, endingLastDate) == NoEvents
  {
  }
}
