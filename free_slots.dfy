/**
 * The free-slot walk of `getFreeSlots` in
 * calendar-backend/events/services/EventsService.ts: a cursor steps from the
 * start of the working-hours window to its end, `duration` minutes at a
 * time, while a pointer moves through the booked slots the store returned
 * in start order. A cursor that is before the pointed-to booking is emitted
 * as free; one that hits its start exactly advances the pointer and is not
 * emitted; one that has passed it without a hit emits nothing and leaves the
 * pointer where it is, so from then on nothing is emitted.
 */
module FreeSlots {
  import opened EventTypes
  import opened EventRepository

  /** Every cursor position of the walk: `t`, `t + step`, ... while before `e`. */
  function Grid(t: Instant, e: Instant, step: int): seq<Instant>
    requires step > 0
    decreases e - t
  {
    if t >= e then [] else [t] + Grid(t + step, e, step)
  }

  /**
   * The grid's cells are `t + k * step`, each inside `[t, e)`, and there
   * are exactly as many as fit: one more step would reach `e`.
   */
  lemma {:induction false} GridShape(t: Instant, e: Instant, step: int)
    requires step > 0
    ensures var g := Grid(t, e, step);
      (forall k :: 0 <= k < |g| ==> g[k] == t + k * step && t <= g[k] < e) &&
      e <= t + |g| * step &&
      (|g| == 0 || t + (|g| - 1) * step < e)
    decreases e - t
  {
    if t < e {
      GridShape(t + step, e, step);
      var rest := Grid(t + step, e, step);
      forall k | 0 <= k <= |rest| {
        StepShift(t, step, k);
      }
    }
  }

  /** One step, then k more, is k + 1 steps. */
  lemma StepShift(t: Instant, step: int, k: int)
    ensures (t + step) + k * step == t + (k + 1) * step
  {
  }

  /** Strictly ascending instants. */
  predicate Ascending(s: seq<Instant>)
  {
    forall j, k :: 0 <= j < k < |s| ==> s[j] < s[k]
  }

  /** `freeSlots.push(t)` in front of what the rest of the walk emits. */
  function Emit(t: Instant, rest: seq<Instant>): (r: seq<Instant>)
    requires forall x :: x in rest ==> t < x
    requires Ascending(rest)
    ensures Ascending(r)
    ensures r == [t] + rest
  {
    assert forall k :: 0 <= k < |rest| ==> rest[k] in rest;
    [t] + rest
  }

  /**
   * The loop from cursor `t` with pointer `i`: what it still appends to
   * `freeSlots`. Every emitted instant lies in `[t, e)`, and they come out
   * strictly ascending; `WalkOnGrid` shows each is a grid cell.
   */
  function Walk(t: Instant, e: Instant, step: int, booked: seq<BookedSlot>, i: nat): (r: seq<Instant>)
    requires step > 0
    requires i <= |booked|
    ensures forall x :: x in r ==> t <= x < e
    ensures Ascending(r)
    decreases e - t
  {
    if t >= e then []
    else
      if i < |booked| then
        if t < booked[i].bookedStartTime then Emit(t, Walk(t + step, e, step, booked, i))
        else if t == booked[i].bookedStartTime then Walk(t + step, e, step, booked, i + 1)
        else Walk(t + step, e, step, booked, i)
      else Emit(t, Walk(t + step, e, step, booked, i))
  }

  /** Every instant the walk emits is a cursor position of the grid. */
  lemma {:induction false} WalkOnGrid(t: Instant, e: Instant, step: int, booked: seq<BookedSlot>, i: nat)
    requires step > 0 && i <= |booked|
    ensures forall x :: x in Walk(t, e, step, booked, i) ==> x in Grid(t, e, step)
    decreases e - t
  {
    if t < e {
      assert Grid(t, e, step) == [t] + Grid(t + step, e, step);
      if i < |booked| && t == booked[i].bookedStartTime {
        WalkOnGrid(t + step, e, step, booked, i + 1);
      } else {
        WalkOnGrid(t + step, e, step, booked, i);
      }
    }
  }

  /**
   * The `while` loop of `getFreeSlots` over the booked slots the store
   * returned. The pointer stays within the list throughout; the result is
   * what `Walk` describes, so it is strictly ascending and every entry is a
   * grid cell of the window.
   */
  method WalkSlots(windowStart: Instant, windowEnd: Instant, duration: int, bookedSlotData: seq<BookedSlot>)
    returns (freeSlots: seq<Instant>)
    requires duration > 0
    ensures freeSlots == Walk(windowStart, windowEnd, duration * MsPerMinute, bookedSlotData, 0)
    ensures Ascending(freeSlots)
  {
    ghost var step := duration * MsPerMinute;
    var startingHourTime := windowStart;
    freeSlots := [];
    var i := 0;
    while startingHourTime < windowEnd
      invariant 0 <= i <= |bookedSlotData|
      invariant freeSlots + Walk(startingHourTime, windowEnd, step, bookedSlotData, i)
             == Walk(windowStart, windowEnd, step, bookedSlotData, 0)
      decreases windowEnd - startingHourTime
    {
      if i < |bookedSlotData| {
        var slot := bookedSlotData[i];
        if startingHourTime < slot.bookedStartTime {
          WalkEmits(freeSlots, startingHourTime, windowEnd, step, bookedSlotData, i);
          freeSlots := freeSlots + [startingHourTime];
        } else if startingHourTime == slot.bookedStartTime {
          WalkSkips(startingHourTime, windowEnd, step, bookedSlotData, i);
          i := i + 1;
        } else {
          WalkStalls(startingHourTime, windowEnd, step, bookedSlotData, i);
        }
      } else {
        WalkEmits(freeSlots, startingHourTime, windowEnd, step, bookedSlotData, i);
        freeSlots := freeSlots + [startingHourTime];
      }
      assert AddMinutes(startingHourTime, duration) == startingHourTime + step;
      startingHourTime := AddMinutes(startingHourTime, duration);
    }
  }

  /** One emitting step of the loop: push the cursor, and the rest of the walk follows. */
  lemma WalkEmits(emitted: seq<Instant>, t: Instant, e: Instant, step: int, booked: seq<BookedSlot>, i: nat)
    requires step > 0 && i <= |booked| && t < e
    requires i == |booked| || t < booked[i].bookedStartTime
    ensures emitted + Walk(t, e, step, booked, i) == (emitted + [t]) + Walk(t + step, e, step, booked, i)
  {
    var rest := Walk(t + step, e, step, booked, i);
    assert Walk(t, e, step, booked, i) == [t] + rest;
  }

  /** One step on an exact hit: nothing is pushed, and the pointer moves on. */
  lemma WalkSkips(t: Instant, e: Instant, step: int, booked: seq<BookedSlot>, i: nat)
    requires step > 0 && i < |booked| && t < e
    requires booked[i].bookedStartTime == t
    ensures Walk(t, e, step, booked, i) == Walk(t + step, e, step, booked, i + 1)
  {
  }

  /** One stalled step: the cursor is past the pointed-to start, which stays pointed to. */
  lemma WalkStalls(t: Instant, e: Instant, step: int, booked: seq<BookedSlot>, i: nat)
    requires step > 0 && i < |booked| && t < e
    requires booked[i].bookedStartTime < t
    ensures Walk(t, e, step, booked, i) == Walk(t + step, e, step, booked, i)
  {
  }

  /**
   * `getFreeSlots` for a window given by its two instants (the timezone
   * arithmetic that computes them is not modelled): fetch the bookings of
   * the window from the store `docs`, then walk. No free slot is the start
   * of a booking the query returned.
   */
  method GetFreeSlots(windowStart: Instant, windowEnd: Instant, duration: int, docs: seq<BookedSlot>)
    returns (freeSlots: seq<Instant>)
    requires duration > 0
    ensures freeSlots == Walk(windowStart, windowEnd, duration * MsPerMinute,
                              SlotsInInterval(docs, windowStart, windowEnd), 0)
    ensures forall b :: b in docs && InInterval(b, windowStart, windowEnd) ==> b.bookedStartTime !in freeSlots
  {
    var bookedSlotData := SlotsInInterval(docs, windowStart, windowEnd);
    freeSlots := WalkSlots(windowStart, windowEnd, duration, bookedSlotData);
    NeverEmitsBookedStart(windowStart, windowEnd, duration * MsPerMinute, bookedSlotData, 0);
  }

  /**
   * On a list sorted by start, no emitted slot is the start of any booked
   * slot: those behind the pointer started before the cursor, those from
   * the pointer on start no earlier than the pointed-to one.
   */
  lemma {:induction false} NeverEmitsBookedStart(t: Instant, e: Instant, step: int, booked: seq<BookedSlot>, i: nat)
    requires step > 0 && i <= |booked|
    requires SortedByStart(booked)
    requires forall j :: 0 <= j < i ==> booked[j].bookedStartTime < t
    ensures forall j :: 0 <= j < |booked| ==> booked[j].bookedStartTime !in Walk(t, e, step, booked, i)
    decreases e - t
  {
    forall j | 0 <= j < |booked|
      ensures booked[j].bookedStartTime !in Walk(t, e, step, booked, i)
    {
      StartNotEmitted(t, e, step, booked, i, j);
    }
  }

  /**
   * The one-booking form: booking j is behind the cursor when it is behind
   * the pointer, and starts no earlier than the pointed-to one otherwise.
   */
  lemma {:induction false} StartNotEmitted(t: Instant, e: Instant, step: int, booked: seq<BookedSlot>, i: nat, j: nat)
    requires step > 0 && i <= |booked| && j < |booked|
    requires SortedByStart(booked)
    requires j < i ==> booked[j].bookedStartTime < t
    ensures booked[j].bookedStartTime !in Walk(t, e, step, booked, i)
    decreases e - t
  {
    if t < e {
      if j >= i {
        assert booked[i].bookedStartTime <= booked[j].bookedStartTime;
      }
      if i < |booked| && t == booked[i].bookedStartTime {
        StartNotEmitted(t + step, e, step, booked, i + 1, j);
      } else {
        StartNotEmitted(t + step, e, step, booked, i, j);
      }
    }
  }

  /**
   * The stall: once the cursor has passed the pointed-to booking without
   * hitting its start, the walk emits nothing more.
   */
  lemma {:induction false} PassedBookingStalls(t: Instant, e: Instant, step: int, booked: seq<BookedSlot>, i: nat)
    requires step > 0 && i < |booked|
    requires booked[i].bookedStartTime < t
    ensures Walk(t, e, step, booked, i) == []
    decreases e - t
  {
    if t < e {
      PassedBookingStalls(t + step, e, step, booked, i);
    }
  }

  /** With the pointer past the last booking, every remaining cell is emitted. */
  lemma {:induction false} ExhaustedWalkIsGrid(t: Instant, e: Instant, step: int, booked: seq<BookedSlot>)
    requires step > 0
    ensures Walk(t, e, step, booked, |booked|) == Grid(t, e, step)
    decreases e - t
  {
    if t < e {
      ExhaustedWalkIsGrid(t + step, e, step, booked);
    }
  }

  /** With no bookings, `getFreeSlots` returns every cell of the window. */
  lemma NoBookingsGivesGrid(t: Instant, e: Instant, step: int)
    requires step > 0
    ensures Walk(t, e, step, [], 0) == Grid(t, e, step)
  {
    ExhaustedWalkIsGrid(t, e, step, []);
  }

  /**
   * Working hours 09:00 to 17:00 at 30-minute slots and no bookings give 16
   * slots, at 09:00, 09:30, ..., 16:30.
   */
  lemma EightHourDayHasSixteenHalfHours(windowStart: Instant)
    ensures var slots := Walk(windowStart, windowStart + 8 * MsPerHour, 30 * MsPerMinute, [], 0);
      |slots| == 16 && forall k :: 0 <= k < 16 ==> slots[k] == windowStart + k * 30 * MsPerMinute
  {
    var step := 30 * MsPerMinute;
    assert 8 * MsPerHour == 16 * step;
    NoBookingsGivesGrid(windowStart, windowStart + 16 * step, step);
    GridCount(windowStart, step, 16);
    GridShape(windowStart, windowStart + 16 * step, step);
    assert forall k :: 0 <= k < 16 ==> windowStart + k * step == windowStart + k * 30 * MsPerMinute;
  }

  /** The grid over `n` whole steps has `n` cells. */
  lemma {:induction false} GridCount(t: Instant, step: int, n: nat)
    requires step > 0
    ensures |Grid(t, t + n * step, step)| == n
    decreases n
  {
    if n > 0 {
      StepShift(t, step, n - 1);
      GridCount(t + step, step, n - 1);
    }
  }

  /**
   * A booking whose start is the `m`-th cell suppresses that cell and no
   * other, however long it lasts: the cells it covers after its start are
   * still emitted as free.
   */
  lemma {:induction false} AlignedBookingSuppressesOneCell(t: Instant, e: Instant, step: int, b: BookedSlot, m: nat)
    requires step > 0
    requires m < |Grid(t, e, step)| && b.bookedStartTime == Grid(t, e, step)[m]
    ensures var g := Grid(t, e, step);
      Walk(t, e, step, [b], 0) == g[..m] + g[m + 1..]
    decreases m
  {
    var g := Grid(t, e, step);
    var g' := Grid(t + step, e, step);
    assert g == [t] + g';
    if m == 0 {
      AlignedAtFirstCell(t, e, step, b);
    } else {
      GridWithin(t + step, e, step);
      assert g'[m - 1] == b.bookedStartTime;
      assert Walk(t, e, step, [b], 0) == [t] + Walk(t + step, e, step, [b], 0);
      AlignedBookingSuppressesOneCell(t + step, e, step, b, m - 1);
      ConsSlices(t, g', m);
    }
  }

  /** A booking at the first cell suppresses it, and the rest of the grid follows. */
  lemma AlignedAtFirstCell(t: Instant, e: Instant, step: int, b: BookedSlot)
    requires step > 0 && t < e && b.bookedStartTime == t
    ensures Walk(t, e, step, [b], 0) == Grid(t + step, e, step)
  {
    assert Walk(t, e, step, [b], 0) == Walk(t + step, e, step, [b], 1);
    ExhaustedWalkIsGrid(t + step, e, step, [b]);
  }

  lemma ConsSlices(x: Instant, s: seq<Instant>, m: nat)
    requires 0 < m <= |s|
    ensures ([x] + s)[..m] == [x] + s[..m - 1]
    ensures ([x] + s)[m + 1..] == s[m..]
  {
  }

  /**
   * A booking that starts strictly between cell `m` and the next step lets
   * the first `m + 1` cells through and then stalls the walk: no later cell
   * is emitted, whatever else is booked after it.
   */
  lemma {:induction false} MisalignedBookingStalls(t: Instant, e: Instant, step: int, b: BookedSlot, rest: seq<BookedSlot>, m: nat)
    requires step > 0
    requires m < |Grid(t, e, step)|
    requires Grid(t, e, step)[m] < b.bookedStartTime < Grid(t, e, step)[m] + step
    ensures Walk(t, e, step, [b] + rest, 0) == Grid(t, e, step)[..m + 1]
    decreases m
  {
    var g := Grid(t, e, step);
    var g' := Grid(t + step, e, step);
    assert g == [t] + g';
    if m == 0 {
      PassedBookingStalls(t + step, e, step, [b] + rest, 0);
      assert Walk(t, e, step, [b] + rest, 0) == [t] + Walk(t + step, e, step, [b] + rest, 0);
    } else {
      GridWithin(t + step, e, step);
      assert g'[m - 1] == g[m];
      assert Walk(t, e, step, [b] + rest, 0) == [t] + Walk(t + step, e, step, [b] + rest, 0);
      MisalignedBookingStalls(t + step, e, step, b, rest, m - 1);
      assert g[..m + 1] == [t] + g'[..m];
    }
  }

  /** Every cell of the grid lies in `[t, e)`. */
  lemma {:induction false} GridWithin(t: Instant, e: Instant, step: int)
    requires step > 0
    ensures forall k :: 0 <= k < |Grid(t, e, step)| ==> t <= Grid(t, e, step)[k] < e
    decreases e - t
  {
    if t < e {
      GridWithin(t + step, e, step);
      assert Grid(t, e, step) == [t] + Grid(t + step, e, step);
    }
  }
}
