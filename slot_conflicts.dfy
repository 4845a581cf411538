/**
 * `checkSlotAvailablity` of calendar-backend/events/services/EventsService.ts:
 * the requested interval `[reqStart, reqEnd)` is scanned against the booked
 * slots in list order, and the first slot that meets one of three rules
 * decides the conflict kind. The source throws an `Error`; here the outcome
 * is a value.
 */
module SlotConflicts {
  import opened Wrappers
  import opened EventTypes
  import opened EventRepository

  datatype SlotStatus = Available | Conflict(kind: ConflictKind)

  /**
   * The kind a matching booked slot reports: it is fixed by where the slot
   * starts relative to the requested start.
   */
  function KindAt(reqStart: Instant, bookedStart: Instant): ConflictKind
  {
    if bookedStart == reqStart then SlotAlreadyBooked
    else if bookedStart < reqStart then SlotOverlapsExistingMeeting
    else SlotOverlapsMeetingStart
  }

  /**
   * Checks 2.1, 2.2 and 2.3 for one booked slot, in that order. At most one
   * of them can hold, so their order within a slot never matters; for a
   * positive request and a well-formed slot they hold exactly when the two
   * half-open intervals overlap, so intervals that only touch never conflict.
   */
  function SlotRule(reqStart: Instant, reqEnd: Instant, b: BookedSlot): (r: Option<ConflictKind>)
    ensures r.Some? ==> r.value == KindAt(reqStart, b.bookedStartTime)
    ensures reqStart < reqEnd && WellFormed(b) ==>
      (r.Some? <==> Overlaps(reqStart, reqEnd, b.bookedStartTime, b.bookedEndTime))
  {
    if reqStart == b.bookedStartTime then Some(SlotAlreadyBooked)
    else if reqStart > b.bookedStartTime && reqStart < b.bookedEndTime then Some(SlotOverlapsExistingMeeting)
    else if b.bookedStartTime > reqStart && b.bookedStartTime < reqEnd then Some(SlotOverlapsMeetingStart)
    else None
  }

  /**
   * The outcome of the scan: the rule of the first booked slot that meets
   * one decides; with no such slot, and in particular with no booked slots
   * at all, the request is available. The scan never reports a
   * working-hours conflict.
   */
  function SlotStatusOf(reqStart: Instant, reqEnd: Instant, booked: seq<BookedSlot>): (r: SlotStatus)
    ensures r != Conflict(SlotOutsideWorkingHrs)
    ensures |booked| == 0 ==> r == Available
  {
    if |booked| == 0 then Available
    else
      match SlotRule(reqStart, reqEnd, booked[0])
      case Some(k) => Conflict(k)
      case None => SlotStatusOf(reqStart, reqEnd, booked[1..])
  }

  /** The scan itself: a loop over the booked slots that leaves at the first conflict. */
  method CheckSlotAvailability(reqStart: Instant, reqEnd: Instant, bookedSlots: seq<BookedSlot>)
    returns (r: SlotStatus)
    ensures r == SlotStatusOf(reqStart, reqEnd, bookedSlots)
  {
    if |bookedSlots| == 0 {
      return Available;
    }
    for n := 0 to |bookedSlots|
      invariant SlotStatusOf(reqStart, reqEnd, bookedSlots) == SlotStatusOf(reqStart, reqEnd, bookedSlots[n..])
    {
      var slot := bookedSlots[n];
      if reqStart == slot.bookedStartTime {
        return Conflict(SlotAlreadyBooked);
      }
      if reqStart > slot.bookedStartTime && reqStart < slot.bookedEndTime {
        return Conflict(SlotOverlapsExistingMeeting);
      }
      if slot.bookedStartTime > reqStart && slot.bookedStartTime < reqEnd {
        return Conflict(SlotOverlapsMeetingStart);
      }
    }
    return Available;
  }

  /** No booked slot before index `i` meets any rule. */
  predicate NoMatchBefore(reqStart: Instant, reqEnd: Instant, booked: seq<BookedSlot>, i: int)
    requires i <= |booked|
  {
    forall j :: 0 <= j < i ==> SlotRule(reqStart, reqEnd, booked[j]).None?
  }

  /**
   * Precedence across the list: the scan reports kind `k` exactly when some
   * slot yields `k` and no earlier slot meets any rule, and it reports
   * available exactly when no slot meets any rule.
   */
  lemma {:induction false} FirstMatchDecides(reqStart: Instant, reqEnd: Instant, booked: seq<BookedSlot>, k: ConflictKind)
    ensures SlotStatusOf(reqStart, reqEnd, booked) == Conflict(k) <==>
      exists i :: 0 <= i < |booked| && SlotRule(reqStart, reqEnd, booked[i]) == Some(k)
                  && NoMatchBefore(reqStart, reqEnd, booked, i)
    ensures SlotStatusOf(reqStart, reqEnd, booked) == Available <==> NoMatchBefore(reqStart, reqEnd, booked, |booked|)
  {
    if |booked| > 0 {
      var tail := booked[1..];
      FirstMatchDecides(reqStart, reqEnd, tail, k);
      if SlotRule(reqStart, reqEnd, booked[0]).None? {
        if SlotStatusOf(reqStart, reqEnd, booked) == Conflict(k) {
          var i :| 0 <= i < |tail| && SlotRule(reqStart, reqEnd, tail[i]) == Some(k)
                   && NoMatchBefore(reqStart, reqEnd, tail, i);
          assert SlotRule(reqStart, reqEnd, booked[i + 1]) == Some(k);
          assert NoMatchBefore(reqStart, reqEnd, booked, i + 1);
        }
        if exists i :: 0 <= i < |booked| && SlotRule(reqStart, reqEnd, booked[i]) == Some(k)
                       && NoMatchBefore(reqStart, reqEnd, booked, i) {
          var i :| 0 <= i < |booked| && SlotRule(reqStart, reqEnd, booked[i]) == Some(k)
                   && NoMatchBefore(reqStart, reqEnd, booked, i);
          assert i > 0;
          assert SlotRule(reqStart, reqEnd, tail[i - 1]) == Some(k);
          assert NoMatchBefore(reqStart, reqEnd, tail, i - 1);
        }
        if NoMatchBefore(reqStart, reqEnd, tail, |tail|) {
          assert NoMatchBefore(reqStart, reqEnd, booked, |booked|);
        }
      } else {
        assert NoMatchBefore(reqStart, reqEnd, booked, 0);
      }
    }
  }

  /**
   * The central property: for a request of positive length and booked
   * slots that each end after they start, a conflict is reported exactly
   * when some booked half-open interval overlaps the requested one.
   */
  lemma {:induction false} ConflictIffOverlap(reqStart: Instant, reqEnd: Instant, booked: seq<BookedSlot>)
    requires reqStart < reqEnd
    requires forall i :: 0 <= i < |booked| ==> WellFormed(booked[i])
    ensures SlotStatusOf(reqStart, reqEnd, booked).Conflict? <==>
      exists i :: 0 <= i < |booked| && Overlaps(reqStart, reqEnd, booked[i].bookedStartTime, booked[i].bookedEndTime)
  {
    if |booked| > 0 {
      ConflictIffOverlap(reqStart, reqEnd, booked[1..]);
      var tail := booked[1..];
      if exists i :: 0 <= i < |tail| && Overlaps(reqStart, reqEnd, tail[i].bookedStartTime, tail[i].bookedEndTime) {
        var i :| 0 <= i < |tail| && Overlaps(reqStart, reqEnd, tail[i].bookedStartTime, tail[i].bookedEndTime);
        assert booked[i + 1] == tail[i];
      }
      if exists i :: 0 <= i < |booked| && Overlaps(reqStart, reqEnd, booked[i].bookedStartTime, booked[i].bookedEndTime) {
        var i :| 0 <= i < |booked| && Overlaps(reqStart, reqEnd, booked[i].bookedStartTime, booked[i].bookedEndTime);
        if i > 0 {
          assert tail[i - 1] == booked[i];
        }
      }
    }
  }

  /** Some booked slot, wherever it stands in the list, yields kind `k`. */
  predicate HasMatch(reqStart: Instant, reqEnd: Instant, booked: seq<BookedSlot>, k: ConflictKind)
  {
    exists b :: b in booked && SlotRule(reqStart, reqEnd, b) == Some(k)
  }

  /**
   * The outcome on a list ordered by start time, stated without reference to
   * the order: a slot containing the requested start wins over one with the
   * same start, which wins over one starting inside the request.
   */
  function Classify(reqStart: Instant, reqEnd: Instant, booked: seq<BookedSlot>): SlotStatus
  {
    if HasMatch(reqStart, reqEnd, booked, SlotOverlapsExistingMeeting) then Conflict(SlotOverlapsExistingMeeting)
    else if HasMatch(reqStart, reqEnd, booked, SlotAlreadyBooked) then Conflict(SlotAlreadyBooked)
    else if HasMatch(reqStart, reqEnd, booked, SlotOverlapsMeetingStart) then Conflict(SlotOverlapsMeetingStart)
    else Available
  }

  /**
   * On a list sorted by start time, as the store query returns it, the scan
   * computes `Classify`; so its outcome depends only on which slots are in
   * the list, not on how the store orders slots that start together.
   */
  lemma {:induction false} SortedScanClassifies(reqStart: Instant, reqEnd: Instant, booked: seq<BookedSlot>)
    requires SortedByStart(booked)
    ensures SlotStatusOf(reqStart, reqEnd, booked) == Classify(reqStart, reqEnd, booked)
  {
    if |booked| > 0 {
      var head, tail := booked[0], booked[1..];
      assert booked == [head] + tail;
      assert forall b :: b in booked <==> b == head || b in tail;
      match SlotRule(reqStart, reqEnd, head)
      case Some(k) =>
        assert HasMatch(reqStart, reqEnd, booked, k);
        if k != SlotOverlapsExistingMeeting {
          // every other slot starts no earlier than the head, hence not before the request
          forall b | b in booked
            ensures SlotRule(reqStart, reqEnd, b) != Some(SlotOverlapsExistingMeeting)
          {
            var j :| 0 <= j < |booked| && booked[j] == b;
            assert head.bookedStartTime <= b.bookedStartTime;
          }
          if k == SlotOverlapsMeetingStart {
            forall b | b in booked
              ensures SlotRule(reqStart, reqEnd, b) != Some(SlotAlreadyBooked)
            {
              var j :| 0 <= j < |booked| && booked[j] == b;
              assert head.bookedStartTime <= b.bookedStartTime;
            }
          }
        }
      case None =>
        SortedScanClassifies(reqStart, reqEnd, tail);
        forall k: ConflictKind
          ensures HasMatch(reqStart, reqEnd, booked, k) == HasMatch(reqStart, reqEnd, tail, k)
        {
          if HasMatch(reqStart, reqEnd, booked, k) {
            var b :| b in booked && SlotRule(reqStart, reqEnd, b) == Some(k);
            assert b in tail;
          }
        }
    }
  }

  /**
   * Two sorted lists holding the same booked slots give the same outcome,
   * whatever order the store puts slots with equal start times in.
   */
  lemma SortedScanIgnoresTieOrder(reqStart: Instant, reqEnd: Instant, a: seq<BookedSlot>, b: seq<BookedSlot>)
    requires SortedByStart(a) && SortedByStart(b)
    requires multiset(a) == multiset(b)
    ensures SlotStatusOf(reqStart, reqEnd, a) == SlotStatusOf(reqStart, reqEnd, b)
  {
    SortedScanClassifies(reqStart, reqEnd, a);
    SortedScanClassifies(reqStart, reqEnd, b);
    assert forall x :: x in a <==> x in b by {
      forall x ensures x in a <==> x in b {
        assert x in a <==> x in multiset(a);
        assert x in b <==> x in multiset(b);
      }
    }
    assert forall k: ConflictKind :: HasMatch(reqStart, reqEnd, a, k) == HasMatch(reqStart, reqEnd, b, k);
  }
}
