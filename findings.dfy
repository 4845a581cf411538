/**
 * Three places where the events service does not do what it evidently
 * means to, each shown on the model of the code as written and paired with
 * a corrected definition whose intended property is proved.
 *
 * 1. The booking conflict query keeps bookings with `startTime >= start - 1h`
 *    and `endTime < start + 1h`, so a booking that ends an hour or more
 *    after the requested start is never scanned: a 60-minute meeting at the
 *    very same start, or a long meeting that began earlier, is missed.
 * 2. The free-slot query keeps bookings with `endTime < windowEnd`, so the
 *    booking of the last cell of the day is never fetched and its start is
 *    offered as free.
 * 3. The catch block cannot find a conflict's name, so every rejection
 *    carries "UNKNOWN_ERROR" and the kinds cannot be told apart.
 */
module Findings {
  import opened Wrappers
  import opened EventTypes
  import opened EventRepository
  import opened SlotConflicts
  import opened FreeSlots
  import opened Booking

  // ------------------------------------------- 1. the conflict query window

  /** A 60-minute meeting at the requested start is not scanned, and the booking is accepted. */
  lemma AsWrittenMissesSameStartMeeting(windowStart: Instant, windowEnd: Instant, start: Instant)
    requires windowStart <= start < windowEnd
    ensures var stored := BookedSlot(start, 60, AddMinutes(start, 60));
      Overlaps(start, AddMinutes(start, 30), stored.bookedStartTime, stored.bookedEndTime) &&
      Decide(Some(start), 30, windowStart, windowEnd, Snapshot([stored])) == Accepted
  {
    var stored := BookedSlot(start, 60, AddMinutes(start, 60));
    var cands := Candidates([stored], start);
    assert !InInterval(stored, start - MsPerHour, start + MsPerHour);
    assert cands == [];
  }

  /** A six-hour meeting that began three hours earlier is not scanned either. */
  lemma AsWrittenMissesLongMeetingStartedEarlier(windowStart: Instant, windowEnd: Instant, start: Instant)
    requires windowStart <= start < windowEnd
    ensures var stored := BookedSlot(start - 3 * MsPerHour, 360, start + 3 * MsPerHour);
      Overlaps(start, AddMinutes(start, 30), stored.bookedStartTime, stored.bookedEndTime) &&
      Decide(Some(start), 30, windowStart, windowEnd, Snapshot([stored])) == Accepted
  {
    var stored := BookedSlot(start - 3 * MsPerHour, 360, start + 3 * MsPerHour);
    var cands := Candidates([stored], start);
    assert !InInterval(stored, start - MsPerHour, start + MsPerHour);
    assert cands == [];
  }

  /** A booking that starts in `[lo, hi)`, whatever its end. */
  predicate StartsIn(b: BookedSlot, lo: Instant, hi: Instant)
  {
    lo <= b.bookedStartTime < hi
  }

  /** The store query filtered on `startTime` alone, ordered by start. */
  function SlotsStartingIn(docs: seq<BookedSlot>, lo: Instant, hi: Instant): (r: seq<BookedSlot>)
    ensures SortedByStart(r)
    ensures forall b :: b in r <==> b in docs && StartsIn(b, lo, hi)
  {
    var r := SortByStart(Select(docs, b => StartsIn(b, lo, hi)));
    assert forall b :: b in r <==> multiset(r)[b] > 0;
    r
  }

  /** The corrected candidates: every booking starting within the longest meeting of the request. */
  function CorrectedCandidates(docs: seq<BookedSlot>, start: Instant): seq<BookedSlot>
  {
    SlotsStartingIn(docs, start - MaxDurationMinutes * MsPerMinute, start + MaxDurationMinutes * MsPerMinute)
  }

  /** The booking decision with the corrected candidates; every other step is as written. */
  function DecideCorrected(slotTime: Option<Instant>, duration: int, windowStart: Instant, windowEnd: Instant, read: StoreRead): (d: Decision)
    ensures d == Accepted ==> slotTime.Some? && read.Snapshot?
    ensures slotTime.Some? ==>
      (d == Rejected(ConflictError(SlotOutsideWorkingHrs)) <==>
       slotTime.value < windowStart || slotTime.value >= windowEnd)
  {
    match slotTime
    case None => Rejected(InvalidTime)
    case Some(start) =>
      if start < windowStart || start >= windowEnd then Rejected(ConflictError(SlotOutsideWorkingHrs))
      else
        match read
        case StoreFailure(m) => Rejected(StoreError(m))
        case Snapshot(docs) =>
          match SlotStatusOf(start, AddMinutes(start, duration), CorrectedCandidates(docs, start))
          case Available => Accepted
          case Conflict(k) => Rejected(ConflictError(k))
  }

  /** Some stored booking overlaps `[start, end)`. */
  predicate OverlapsAny(start: Instant, end: Instant, docs: seq<BookedSlot>)
  {
    exists b :: b in docs && Overlaps(start, end, b.bookedStartTime, b.bookedEndTime)
  }

  /** Some stored booking starting in `[lo, hi)` overlaps `[start, end)`. */
  predicate OverlapsStartingIn(start: Instant, end: Instant, docs: seq<BookedSlot>, lo: Instant, hi: Instant)
  {
    exists b :: b in docs && StartsIn(b, lo, hi) && Overlaps(start, end, b.bookedStartTime, b.bookedEndTime)
  }

  /** The corrected query result holds an overlapping booking exactly when the store does, among those starting in the range. */
  lemma CorrectedQueryKeepsOverlaps(start: Instant, end: Instant, docs: seq<BookedSlot>, lo: Instant, hi: Instant)
    ensures var cands := SlotsStartingIn(docs, lo, hi);
      (exists i :: 0 <= i < |cands| && Overlaps(start, end, cands[i].bookedStartTime, cands[i].bookedEndTime))
      <==> OverlapsStartingIn(start, end, docs, lo, hi)
  {
    var cands := SlotsStartingIn(docs, lo, hi);
    if OverlapsStartingIn(start, end, docs, lo, hi) {
      var b :| b in docs && StartsIn(b, lo, hi) && Overlaps(start, end, b.bookedStartTime, b.bookedEndTime);
      assert b in cands;
      var i :| 0 <= i < |cands| && cands[i] == b;
    }
    if exists i :: 0 <= i < |cands| && Overlaps(start, end, cands[i].bookedStartTime, cands[i].bookedEndTime) {
      var i :| 0 <= i < |cands| && Overlaps(start, end, cands[i].bookedStartTime, cands[i].bookedEndTime);
      assert cands[i] in cands;
    }
  }

  /**
   * A stored meeting no longer than the longest admitted one that overlaps a
   * request of admitted length starts within that length of the request.
   */
  lemma WideWindowCatchesEveryOverlap(start: Instant, duration: int, docs: seq<BookedSlot>)
    requires 0 < duration <= MaxDurationMinutes
    requires forall b :: b in docs ==> Bounded(b)
    ensures OverlapsAny(start, AddMinutes(start, duration), docs) <==>
      OverlapsStartingIn(start, AddMinutes(start, duration), docs,
        start - MaxDurationMinutes * MsPerMinute, start + MaxDurationMinutes * MsPerMinute)
  {
    var end := AddMinutes(start, duration);
    if OverlapsAny(start, end, docs) {
      var b :| b in docs && Overlaps(start, end, b.bookedStartTime, b.bookedEndTime);
      assert Bounded(b);
      assert StartsIn(b, start - MaxDurationMinutes * MsPerMinute, start + MaxDurationMinutes * MsPerMinute);
    }
  }

  /**
   * The intended rule: with stored meetings no longer than the longest
   * admitted one, a request of admitted length is accepted exactly when it
   * lies in working hours and overlaps no stored booking at all.
   */
  lemma CorrectedAcceptsIffNoOverlap(start: Instant, duration: int, windowStart: Instant, windowEnd: Instant, docs: seq<BookedSlot>)
    requires 0 < duration <= MaxDurationMinutes
    requires forall b :: b in docs ==> Bounded(b)
    ensures DecideCorrected(Some(start), duration, windowStart, windowEnd, Snapshot(docs)) == Accepted <==>
      windowStart <= start < windowEnd && !OverlapsAny(start, AddMinutes(start, duration), docs)
  {
    var end := AddMinutes(start, duration);
    var lo, hi := start - MaxDurationMinutes * MsPerMinute, start + MaxDurationMinutes * MsPerMinute;
    var cands := CorrectedCandidates(docs, start);
    if windowStart <= start < windowEnd {
      IndexedWellFormed(cands);
      ConflictIffOverlap(start, end, cands);
      CorrectedQueryKeepsOverlaps(start, end, docs, lo, hi);
      WideWindowCatchesEveryOverlap(start, duration, docs);
      assert DecideCorrected(Some(start), duration, windowStart, windowEnd, Snapshot(docs)) == Accepted
         <==> SlotStatusOf(start, end, cands) == Available;
    }
  }

  /** No two stored bookings overlap. */
  predicate Disjoint(docs: seq<BookedSlot>)
  {
    forall i, j :: 0 <= i < j < |docs| ==>
      !Overlaps(docs[i].bookedStartTime, docs[i].bookedEndTime, docs[j].bookedStartTime, docs[j].bookedEndTime)
  }

  /**
   * The booking transaction as intended: the corrected read, the insert the
   * source has commented out, and the response naming the conflict. The
   * store never holds two overlapping bookings.
   */
  class EventStore {
    var docs: seq<BookedSlot>

    ghost predicate Valid()
      reads this
    {
      (forall b :: b in docs ==> Bounded(b)) && Disjoint(docs)
    }

    constructor ()
      ensures Valid() && docs == []
    {
      docs := [];
    }

    method BookEventSlot(slotTime: Option<Instant>, duration: int, windowStart: Instant, windowEnd: Instant)
      returns (response: BookingResponse)
      requires Valid()
      requires 0 < duration <= MaxDurationMinutes
      modifies this
      ensures Valid()
      ensures response == RespondCorrected(DecideCorrected(slotTime, duration, windowStart, windowEnd, Snapshot(old(docs))))
      ensures docs == if response.isBookingSuccess
                      then old(docs) + [BookedSlot(slotTime.value, duration, AddMinutes(slotTime.value, duration))]
                      else old(docs)
    {
      var d := DecideCorrected(slotTime, duration, windowStart, windowEnd, Snapshot(docs));
      response := RespondCorrected(d);
      if d == Accepted {
        var start := slotTime.value;
        var booked := BookedSlot(start, duration, AddMinutes(start, duration));
        AcceptedOverlapsNothing(docs, start, duration, windowStart, windowEnd);
        AdmittedMeetingIsBounded(start, duration);
        InsertKeepsBoundedDisjoint(docs, booked);
        docs := docs + [booked];
      } else {
        assert !response.isBookingSuccess;
      }
    }
  }

  /** An accepted booking overlaps no stored one. */
  lemma AcceptedOverlapsNothing(docs: seq<BookedSlot>, start: Instant, duration: int, windowStart: Instant, windowEnd: Instant)
    requires forall b :: b in docs ==> Bounded(b)
    requires 0 < duration <= MaxDurationMinutes
    requires DecideCorrected(Some(start), duration, windowStart, windowEnd, Snapshot(docs)) == Accepted
    ensures !OverlapsAny(start, AddMinutes(start, duration), docs)
  {
    CorrectedAcceptsIffNoOverlap(start, duration, windowStart, windowEnd, docs);
  }

  /** A meeting of admitted length, stored with `end = start + duration`, is bounded. */
  lemma AdmittedMeetingIsBounded(start: Instant, duration: int)
    requires 0 < duration <= MaxDurationMinutes
    ensures Bounded(BookedSlot(start, duration, AddMinutes(start, duration)))
  {
    MulMonotoneStep(duration, MaxDurationMinutes);
  }

  /** Minutes to milliseconds preserves order. */
  lemma MulMonotoneStep(a: int, b: int)
    requires 0 < a <= b
    ensures 0 < a * MsPerMinute <= b * MsPerMinute
  {
  }

  /** Adding a bounded booking that overlaps no stored one keeps the store bounded and disjoint. */
  lemma InsertKeepsBoundedDisjoint(docs: seq<BookedSlot>, b: BookedSlot)
    requires (forall x :: x in docs ==> Bounded(x)) && Disjoint(docs)
    requires Bounded(b) && !OverlapsAny(b.bookedStartTime, b.bookedEndTime, docs)
    ensures (forall x :: x in docs + [b] ==> Bounded(x)) && Disjoint(docs + [b])
  {
    InsertKeepsDisjoint(docs, b);
    assert forall x :: x in docs + [b] ==> x in docs || x == b;
  }

  /** Adding a booking that overlaps none of a disjoint store keeps it disjoint. */
  lemma InsertKeepsDisjoint(docs: seq<BookedSlot>, b: BookedSlot)
    requires Disjoint(docs)
    requires !OverlapsAny(b.bookedStartTime, b.bookedEndTime, docs)
    ensures Disjoint(docs + [b])
  {
    var s := docs + [b];
    forall i, j | 0 <= i < j < |s|
      ensures !Overlaps(s[i].bookedStartTime, s[i].bookedEndTime, s[j].bookedStartTime, s[j].bookedEndTime)
    {
      if j == |docs| {
        assert s[i] in docs;
      }
    }
  }

  // ----------------------------------------------- 2. the free-slot query

  /**
   * With working hours of eight hours at 30 minutes, a booking of the last
   * cell ends exactly at the window's end, is not fetched, and its start is
   * offered as free.
   */
  lemma AsWrittenLastCellShownFree(windowStart: Instant)
    ensures var windowEnd := windowStart + 8 * MsPerHour;
      var stored := BookedSlot(windowEnd - 30 * MsPerMinute, 30, windowEnd);
      stored.bookedStartTime in Walk(windowStart, windowEnd, 30 * MsPerMinute, SlotsInInterval([stored], windowStart, windowEnd), 0)
  {
    var windowEnd := windowStart + 8 * MsPerHour;
    var stored := BookedSlot(windowEnd - 30 * MsPerMinute, 30, windowEnd);
    var fetched := SlotsInInterval([stored], windowStart, windowEnd);
    assert fetched == [];
    EightHourDayHasSixteenHalfHours(windowStart);
    var slots := Walk(windowStart, windowEnd, 30 * MsPerMinute, [], 0);
    assert slots[15] == stored.bookedStartTime;
  }

  /**
   * `getFreeSlots` with the query filtered on `startTime` in the window: no
   * free slot is the start of any stored booking that starts in the window.
   */
  method GetFreeSlotsCorrected(windowStart: Instant, windowEnd: Instant, duration: int, docs: seq<BookedSlot>)
    returns (freeSlots: seq<Instant>)
    requires duration > 0
    ensures forall b :: b in docs && StartsIn(b, windowStart, windowEnd) ==> b.bookedStartTime !in freeSlots
    ensures forall x :: x in freeSlots ==> x in Grid(windowStart, windowEnd, duration * MsPerMinute)
  {
    var bookedSlotData := SlotsStartingIn(docs, windowStart, windowEnd);
    freeSlots := WalkSlots(windowStart, windowEnd, duration, bookedSlotData);
    NeverEmitsBookedStart(windowStart, windowEnd, duration * MsPerMinute, bookedSlotData, 0);
    WalkOnGrid(windowStart, windowEnd, duration * MsPerMinute, bookedSlotData, 0);
  }

  /**
   * Round trip with the corrected query: once a booking starting in the
   * window is stored, its start is not offered again.
   */
  lemma BookedStartNotOffered(windowStart: Instant, windowEnd: Instant, step: int, docs: seq<BookedSlot>, b: BookedSlot)
    requires step > 0
    requires windowStart <= b.bookedStartTime < windowEnd
    ensures b.bookedStartTime !in Walk(windowStart, windowEnd, step, SlotsStartingIn(docs + [b], windowStart, windowEnd), 0)
  {
    var fetched := SlotsStartingIn(docs + [b], windowStart, windowEnd);
    assert b in fetched;
    var j :| 0 <= j < |fetched| && fetched[j] == b;
    NeverEmitsBookedStart(windowStart, windowEnd, step, fetched, 0);
  }

  // ------------------------------------------------- 3. the error lookup

  /** As written, every conflict kind produces one and the same response. */
  lemma AsWrittenConflictsIndistinguishable(k1: ConflictKind, k2: ConflictKind)
    ensures Respond(Rejected(ConflictError(k1))) == Respond(Rejected(ConflictError(k2)))
    ensures Respond(Rejected(ConflictError(k1))) == BookingResponse(false, UnknownErrorCode, "")
  {
  }

  /**
   * The response as intended: a conflict carries its key from
   * `SlotConflictErrors` as the error code and its text as the message;
   * other failures keep the fallback.
   */
  function RespondCorrected(d: Decision): (r: BookingResponse)
    ensures r.isBookingSuccess <==> d == Accepted
    ensures d == Accepted ==> r.errorCode == "" && r.message == SuccessMessage
    ensures d.Rejected? && d.error.ConflictError? ==>
      r.errorCode == KindName(d.error.kind) && r.message == Description(d.error.kind)
    ensures d.Rejected? && !d.error.ConflictError? ==> r == Respond(d)
  {
    match d
    case Rejected(ConflictError(k)) => BookingResponse(false, KindName(k), Description(k))
    case _ => Respond(d)
  }

  /** With the corrected response, the error code tells the conflict kind. */
  lemma CorrectedCodeIdentifiesKind(k1: ConflictKind, k2: ConflictKind)
    ensures (RespondCorrected(Rejected(ConflictError(k1))).errorCode ==
             RespondCorrected(Rejected(ConflictError(k2))).errorCode) ==> k1 == k2
  {
    KindNameInjective(k1, k2);
  }
}
