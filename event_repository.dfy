/**
 * The store query of calendar-backend/events/repository/EventRepository.ts:
 * `buildSlotsInIntervalQuery` keeps the documents with `startTime >= lo`
 * and `endTime < hi` and orders them by `startTime`. The store is a
 * sequence of documents in no particular order.
 */
module EventRepository {
  import opened EventTypes

  /** The two `where` clauses of `buildSlotsInIntervalQuery`. */
  predicate InInterval(b: BookedSlot, lo: Instant, hi: Instant)
  {
    lo <= b.bookedStartTime && b.bookedEndTime < hi
  }

  /** Ascending by start time, as `orderBy("startTime", "asc")` delivers. */
  predicate SortedByStart(s: seq<BookedSlot>)
  {
    forall i, j :: 0 <= i < j < |s| ==> s[i].bookedStartTime <= s[j].bookedStartTime
  }

  /** The documents `keep` accepts, each as often as it is stored. */
  function Select(docs: seq<BookedSlot>, keep: BookedSlot -> bool): (r: seq<BookedSlot>)
    ensures forall b :: multiset(r)[b] == if keep(b) then multiset(docs)[b] else 0
    ensures forall b :: b in r ==> keep(b)
  {
    if docs == [] then []
    else
      assert docs == [docs[0]] + docs[1..];
      if keep(docs[0]) then [docs[0]] + Select(docs[1..], keep)
      else Select(docs[1..], keep)
  }

  /** `s` with `b` put in front of the first entry that starts later. */
  function Insert(b: BookedSlot, s: seq<BookedSlot>): (r: seq<BookedSlot>)
    requires SortedByStart(s)
    ensures SortedByStart(r)
    ensures |r| == |s| + 1 && (r[0] == b || (s != [] && r[0] == s[0]))
  {
    if s == [] then [b]
    else if b.bookedStartTime < s[0].bookedStartTime then [b] + s
    else
      assert s == [s[0]] + s[1..];
      var rest := Insert(b, s[1..]);
      assert s[0].bookedStartTime <= rest[0].bookedStartTime;
      ConsSorted(s[0], rest);
      [s[0]] + rest
  }

  /** A booking starting no later than the head of a start-ordered list can lead it. */
  lemma ConsSorted(x: BookedSlot, rest: seq<BookedSlot>)
    requires SortedByStart(rest)
    requires rest != [] ==> x.bookedStartTime <= rest[0].bookedStartTime
    ensures SortedByStart([x] + rest)
  {
    var r := [x] + rest;
    forall j, k | 0 <= j < k < |r|
      ensures r[j].bookedStartTime <= r[k].bookedStartTime
    {
      if j == 0 && k > 1 {
        assert rest[0].bookedStartTime <= rest[k - 1].bookedStartTime;
      }
    }
  }

  /** Inserting adds exactly the one booking. */
  lemma {:induction false} InsertAddsOne(b: BookedSlot, s: seq<BookedSlot>)
    requires SortedByStart(s)
    ensures multiset(Insert(b, s)) == multiset(s) + multiset{b}
  {
    if s != [] && b.bookedStartTime >= s[0].bookedStartTime {
      assert s == [s[0]] + s[1..];
      InsertAddsOne(b, s[1..]);
    }
  }

  /** Insertion sort by start time. */
  function SortByStart(s: seq<BookedSlot>): (r: seq<BookedSlot>)
    ensures SortedByStart(r)
    ensures multiset(r) == multiset(s)
  {
    if s == [] then []
    else
      assert s == [s[0]] + s[1..];
      InsertAddsOne(s[0], SortByStart(s[1..]));
      Insert(s[0], SortByStart(s[1..]))
  }

  /**
   * `buildSlotsInIntervalQuery(lo, hi)` run against the store `docs`:
   * exactly the documents inside the filter, each as often as stored,
   * in ascending start order.
   */
  function SlotsInInterval(docs: seq<BookedSlot>, lo: Instant, hi: Instant): (r: seq<BookedSlot>)
    ensures SortedByStart(r)
    ensures forall b :: multiset(r)[b] == if InInterval(b, lo, hi) then multiset(docs)[b] else 0
    ensures forall b :: b in r <==> b in docs && InInterval(b, lo, hi)
  {
    var r := SortByStart(Select(docs, b => InInterval(b, lo, hi)));
    assert forall b :: b in r <==> multiset(r)[b] > 0;
    r
  }
}
