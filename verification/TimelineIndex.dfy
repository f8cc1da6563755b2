/** The binary searches of utils/grid.py over the ranges and the events of a timeline, proved
    against linear scans. */
module TimelineIndex {

  datatype DataRange = DataRange(start: int, end: int)

  // ---------- Ranges ----------

  /** In order, one behind the other; neighbours may touch. */
  ghost predicate Sorted(ranges: seq<DataRange>) {
    (forall r | r in ranges :: r.start <= r.end)
    && forall i, j | 0 <= i < j < |ranges| :: ranges[i].end <= ranges[j].start
  }

  predicate Contains(r: DataRange, key: int) { r.start <= key <= r.end }

  /** The range has a point in common with the interval. */
  predicate Meets(r: DataRange, start: int, end: int) { r.start <= end && start <= r.end }

  /** A half-open slice of indices selects exactly the elements that are wanted. */
  ghost predicate Exactly<T(!new)>(xs: seq<T>, lo: int, hi: int, wanted: T -> bool) {
    forall i | 0 <= i < |xs| :: lo <= i < hi <==> wanted(xs[i])
  }

  ghost predicate Covers<T(!new)>(xs: seq<T>, lo: int, hi: int, wanted: T -> bool) {
    forall i | 0 <= i < |xs| && wanted(xs[i]) :: lo <= i < hi
  }

  function MeetsInterval(start: int, end: int): DataRange -> bool { (r: DataRange) => Meets(r, start, end) }

  /** The range that the search from l to u finds, or -1: where ranges touch, it need not be the
      first nor the last that contains the key. */
  function Found(ranges: seq<DataRange>, key: int, l: int, u: int): int
    requires 0 <= l <= u + 1 <= |ranges|
    decreases u - l
  {
    if l > u then -1
    else
      var i := (l + u) / 2;
      if Contains(ranges[i], key) then i
      else if key < ranges[i].start then Found(ranges, key, l, i - 1)
      else Found(ranges, key, i + 1, u)
  }

  /** The search is right about the ranges from l to u. */
  lemma {:induction false} FoundIsRight(ranges: seq<DataRange>, key: int, l: int, u: int)
    requires Sorted(ranges) && 0 <= l <= u + 1 <= |ranges|
    requires forall k | 0 <= k < l || u < k < |ranges| :: !Contains(ranges[k], key)
    ensures var i := Found(ranges, key, l, u);
      if i == -1 then !InRange(ranges, key)
      else 0 <= i < |ranges| && Contains(ranges[i], key) && InRange(ranges, key)
    decreases u - l
  {
    if l <= u {
      var i := (l + u) / 2;
      Here(ranges, i);
      if key < ranges[i].start {
        FoundIsRight(ranges, key, l, i - 1);
      } else if ranges[i].end < key {
        FoundIsRight(ranges, key, i + 1, u);
      }
    }
  }

  function Position(ranges: seq<DataRange>, key: int): int { Found(ranges, key, 0, |ranges| - 1) }

  class TimelineDataRange {
    var ranges: seq<DataRange>

    method Search(key: int) returns (i: int)
      requires Sorted(ranges)
      ensures i == Position(ranges, key) && -1 <= i < |ranges|
      ensures if i >= 0 then Contains(ranges[i], key) && InRange(ranges, key) else !InRange(ranges, key)
    {
      FoundIsRight(ranges, key, 0, |ranges| - 1);
      var l, u := 0, |ranges| - 1;
      while l <= u
        invariant 0 <= l <= u + 1 <= |ranges| && Found(ranges, key, l, u) == Position(ranges, key)
        decreases u - l
      {
        i := (l + u) / 2;
        if Contains(ranges[i], key) {
          return;
        } else if key < ranges[i].start {
          u := i - 1;
        } else {
          l := i + 1;
        }
      }
      i := -1;
    }

    /** For an interval the slice covers the ranges that meet it, and is exactly those, in the
        cases listed. */
    method GetRangesBounds(start: int, end: int) returns (lo: int, hi: int)
      requires Sorted(ranges)
      ensures 0 <= lo <= |ranges| && 0 <= hi <= |ranges|
      ensures lo == (if InRange(ranges, start) then Position(ranges, start) else 0)
      ensures hi == if InRange(ranges, end) then Position(ranges, end) + 1
                    else if InRange(ranges, start) then |ranges| else 0
      ensures start <= end ==>
        (Covers(ranges, lo, hi, MeetsInterval(start, end))
         <==> EndsAreOutermost(ranges, start, end, Position(ranges, start), Position(ranges, end)))
      ensures start <= end ==>
        (Exactly(ranges, lo, hi, MeetsInterval(start, end))
         <==> EndsAreUsable(ranges, start, end, Position(ranges, start), Position(ranges, end)))
      ensures start > end && InRange(ranges, start) && InRange(ranges, end) ==>
        forall k | lo <= k < hi :: Contains(ranges[k], start) && Contains(ranges[k], end)
    {
      var s := Search(start);
      var e := Search(end);
      if s == -1 && e == -1 {
        lo, hi := 0, 0;
      } else if s == -1 {
        lo, hi := 0, e + 1;
      } else if e == -1 {
        lo, hi := s, |ranges|;
      } else {
        lo, hi := s, e + 1;
      }
      if start <= end {
        SliceOf(ranges, start, end, s, e, lo, hi);
      } else if s >= 0 && e >= 0 {
        IndexOf(ranges, s, start);
      }
    }
  }

  lemma SliceOf(ranges: seq<DataRange>, start: int, end: int, s: int, e: int, lo: int, hi: int)
    requires Sorted(ranges) && start <= end && -1 <= s < |ranges| && -1 <= e < |ranges|
    requires if s >= 0 then Contains(ranges[s], start) else !InRange(ranges, start)
    requires if e >= 0 then Contains(ranges[e], end) else !InRange(ranges, end)
    requires start == end ==> s == e
    requires lo == (if s >= 0 then s else 0) && hi == if e >= 0 then e + 1 else if s >= 0 then |ranges| else 0
    ensures Covers(ranges, lo, hi, MeetsInterval(start, end)) <==> EndsAreOutermost(ranges, start, end, s, e)
    ensures Exactly(ranges, lo, hi, MeetsInterval(start, end)) <==> EndsAreUsable(ranges, start, end, s, e)
  {
    if s == -1 && e == -1 {
      BothInGaps(ranges, start, end);
    } else if s == -1 {
      StartInGap(ranges, start, end, e);
    } else if e == -1 {
      EndInGap(ranges, start, end, s);
    } else {
      BothInRanges(ranges, start, end, s, e);
    }
  }

  ghost predicate InRange(ranges: seq<DataRange>, key: int) {
    exists r :: r in ranges && Contains(r, key)
  }

  lemma Here(ranges: seq<DataRange>, i: nat)
    requires i < |ranges|
    ensures ranges[i] in ranges
  {
  }

  /** No range lies entirely before the key. */
  ghost predicate NothingBefore(ranges: seq<DataRange>, key: int) {
    forall r | r in ranges :: key <= r.end
  }

  ghost predicate NothingBehind(ranges: seq<DataRange>, key: int) {
    forall r | r in ranges :: r.start <= key
  }

  /** No range meets the interval. */
  ghost predicate NothingBetween(ranges: seq<DataRange>, start: int, end: int) {
    forall r | r in ranges :: r.end < start || end < r.start
  }

  /** No range before this one contains the key. */
  ghost predicate FirstWith(ranges: seq<DataRange>, i: int, key: int) {
    forall k | 0 <= k < i && k < |ranges| :: ranges[k].end < key
  }

  ghost predicate LastWith(ranges: seq<DataRange>, i: int, key: int) {
    forall k | 0 <= k < |ranges| && i < k :: key < ranges[k].start
  }

  /** When the slice for the interval covers all that meet it, by what the search finds for its
      ends: where an end is in a range, that must be the outermost one. */
  ghost predicate EndsAreOutermost(ranges: seq<DataRange>, start: int, end: int, s: int, e: int) {
    && (s >= 0 ==> FirstWith(ranges, s, start)) && (e >= 0 ==> LastWith(ranges, e, end))
    && (s == e == -1 ==> NothingBetween(ranges, start, end))
  }

  /** When the slice for the interval is exact: an end in a gap must, besides, be outside all
      ranges on its side. */
  ghost predicate EndsAreUsable(ranges: seq<DataRange>, start: int, end: int, s: int, e: int) {
    && EndsAreOutermost(ranges, start, end, s, e)
    && (s == -1 && e >= 0 ==> NothingBefore(ranges, start))
    && (e == -1 && s >= 0 ==> NothingBehind(ranges, end))
  }

  lemma IndexOf(ranges: seq<DataRange>, i: nat, key: int)
    requires Sorted(ranges) && i < |ranges| && Contains(ranges[i], key)
    ensures InRange(ranges, key)
    ensures forall k | 0 <= k < i :: ranges[k].start <= ranges[k].end <= key
    ensures forall k | i < k < |ranges| :: key <= ranges[k].start <= ranges[k].end
  {
    assert forall k | 0 <= k < |ranges| :: ranges[k] in ranges;
  }

  /** Which ranges meet the interval, seen from a range that contains its start ... */
  lemma MeetsFromStart(ranges: seq<DataRange>, start: int, end: int, s: nat)
    requires Sorted(ranges) && start <= end && s < |ranges| && Contains(ranges[s], start)
    ensures forall k | 0 <= k < |ranges| ::
      MeetsInterval(start, end)(ranges[k]) <==> if k < s then start <= ranges[k].end else ranges[k].start <= end
  {
    IndexOf(ranges, s, start);
  }

  /** ... and from one that contains its end. */
  lemma MeetsFromEnd(ranges: seq<DataRange>, start: int, end: int, e: nat)
    requires Sorted(ranges) && start <= end && e < |ranges| && Contains(ranges[e], end)
    ensures forall k | 0 <= k < |ranges| ::
      MeetsInterval(start, end)(ranges[k]) <==> if k <= e then start <= ranges[k].end else ranges[k].start <= end
  {
    IndexOf(ranges, e, end);
  }

  /** Both ends in ranges: all that is in the slice meets the interval. */
  lemma BothInRanges(ranges: seq<DataRange>, start: int, end: int, s: nat, e: nat)
    requires Sorted(ranges) && start <= end && s < |ranges| && e < |ranges|
    requires Contains(ranges[s], start) && Contains(ranges[e], end) && (start == end ==> s == e)
    ensures InRange(ranges, start) && InRange(ranges, end)
    ensures var outermost := FirstWith(ranges, s, start) && LastWith(ranges, e, end);
      (Covers(ranges, s, e + 1, MeetsInterval(start, end)) <==> outermost)
      && (Exactly(ranges, s, e + 1, MeetsInterval(start, end)) <==> outermost)
  {
    IndexOf(ranges, s, start);
    IndexOf(ranges, e, end);
    MeetsFromStart(ranges, start, end, s);
    MeetsFromEnd(ranges, start, end, e);
    assert s <= e;
    if Covers(ranges, s, e + 1, MeetsInterval(start, end)) {
      assert forall k | 0 <= k < s :: !MeetsInterval(start, end)(ranges[k]);
      assert forall k | e < k < |ranges| :: !MeetsInterval(start, end)(ranges[k]);
    }
  }

  lemma StartInGap(ranges: seq<DataRange>, start: int, end: int, e: nat)
    requires Sorted(ranges) && start <= end && e < |ranges| && Contains(ranges[e], end) && !InRange(ranges, start)
    ensures InRange(ranges, end)
    ensures Covers(ranges, 0, e + 1, MeetsInterval(start, end)) <==> LastWith(ranges, e, end)
    ensures Exactly(ranges, 0, e + 1, MeetsInterval(start, end))
       <==> LastWith(ranges, e, end) && NothingBefore(ranges, start)
  {
    IndexOf(ranges, e, end);
    MeetsFromEnd(ranges, start, end, e);
    assert forall k | 0 <= k < |ranges| :: ranges[k] in ranges;
    if Covers(ranges, 0, e + 1, MeetsInterval(start, end)) {
      assert forall k | e < k < |ranges| :: !MeetsInterval(start, end)(ranges[k]);
    }
    if Exactly(ranges, 0, e + 1, MeetsInterval(start, end)) {
      forall r | r in ranges ensures start <= r.end {
        var k :| 0 <= k < |ranges| && ranges[k] == r;
        assert k <= e ==> MeetsInterval(start, end)(ranges[k]);
      }
    }
  }

  lemma EndInGap(ranges: seq<DataRange>, start: int, end: int, s: nat)
    requires Sorted(ranges) && start <= end && s < |ranges| && Contains(ranges[s], start) && !InRange(ranges, end)
    ensures InRange(ranges, start)
    ensures Covers(ranges, s, |ranges|, MeetsInterval(start, end)) <==> FirstWith(ranges, s, start)
    ensures Exactly(ranges, s, |ranges|, MeetsInterval(start, end))
       <==> FirstWith(ranges, s, start) && NothingBehind(ranges, end)
  {
    IndexOf(ranges, s, start);
    MeetsFromStart(ranges, start, end, s);
    assert forall k | 0 <= k < |ranges| :: ranges[k] in ranges;
    if Covers(ranges, s, |ranges|, MeetsInterval(start, end)) {
      assert forall k | 0 <= k < s :: !MeetsInterval(start, end)(ranges[k]);
    }
    if Exactly(ranges, s, |ranges|, MeetsInterval(start, end)) {
      forall r | r in ranges ensures r.start <= end {
        var k :| 0 <= k < |ranges| && ranges[k] == r;
        assert k >= s ==> MeetsInterval(start, end)(ranges[k]);
      }
    }
  }

  lemma BothInGaps(ranges: seq<DataRange>, start: int, end: int)
    ensures Covers(ranges, 0, 0, MeetsInterval(start, end)) <==> NothingBetween(ranges, start, end)
    ensures Exactly(ranges, 0, 0, MeetsInterval(start, end)) <==> NothingBetween(ranges, start, end)
  {
    assert forall k | 0 <= k < |ranges| :: ranges[k] in ranges;
    if Covers(ranges, 0, 0, MeetsInterval(start, end)) {
      forall r | r in ranges ensures r.end < start || end < r.start {
        var k :| 0 <= k < |ranges| && ranges[k] == r;
        assert !MeetsInterval(start, end)(ranges[k]);
      }
    }
  }

  /** Where no two ranges touch, the search always finds the outermost one. */
  lemma DisjointRangesAreOutermost(ranges: seq<DataRange>, i: nat, key: int)
    requires Sorted(ranges) && i < |ranges| && Contains(ranges[i], key)
    requires forall k | 0 < k < |ranges| :: ranges[k - 1].end < ranges[k].start
    ensures FirstWith(ranges, i, key) && LastWith(ranges, i, key)
  {
    IndexOf(ranges, i, key);
    if i > 0 {
      assert ranges[i - 1].end < ranges[i].start;
      assert forall k | 0 <= k < i :: ranges[k].end <= ranges[i - 1].end;
    }
    if i + 1 < |ranges| {
      assert ranges[i + 1 - 1].end < ranges[i + 1].start;
      assert forall k | i < k < |ranges| :: ranges[i + 1].start <= ranges[k].start;
    }
  }

  const TOUCHING := [DataRange(0, 5), DataRange(5, 9), DataRange(9, 12)]
  const APART := [DataRange(0, 1), DataRange(3, 4)]

  lemma PositionsInTouching()
    ensures Position(TOUCHING, 5) == 1 && Position(TOUCHING, 7) == 1
  {
    assert Contains(TOUCHING[1], 5) && Contains(TOUCHING[1], 7);
  }

  /** Of the ranges that touch, the search finds the middle one for 5. */
  method TouchingRangeIsMissed(timeline: TimelineDataRange) returns (lo: int, hi: int)
    requires timeline.ranges == TOUCHING
    ensures lo == 1 && hi == 2 && Meets(TOUCHING[0], 5, 7)
  {
    PositionsInTouching();
    lo, hi := timeline.GetRangesBounds(5, 7);
  }

  /** A range between two gaps is not found at all. */
  method RangeBetweenGapsIsMissed(timeline: TimelineDataRange) returns (lo: int, hi: int)
    requires timeline.ranges == APART
    ensures lo == 0 && hi == 0 && Meets(APART[1], 2, 6)
  {
    lo, hi := timeline.GetRangesBounds(2, 6);
  }

  // ---------- Events ----------

  ghost predicate StrictlyIncreasing(events: seq<int>) {
    forall i, j | 0 <= i < j < |events| :: events[i] < events[j]
  }

  function Within(start: int, end: int): int -> bool { (at: int) => start <= at <= end }

  class TimelineEvent {
    /** The times of the events. */
    var events: seq<int>

    /** The index of the key, or the index where it would have to be inserted. */
    method Search(key: int) returns (l: nat)
      requires StrictlyIncreasing(events)
      ensures l <= |events|
      ensures forall k | 0 <= k < l :: events[k] < key
      ensures forall k | l <= k < |events| :: key <= events[k]
    {
      l := 0;
      var u := |events| - 1;
      while l <= u
        invariant 0 <= l <= u + 1 <= |events|
        invariant forall k | 0 <= k < l :: events[k] < key
        invariant forall k | u < k < |events| :: key < events[k]
        decreases u - l
      {
        var i := (l + u) / 2;
        if key == events[i] {
          return i;
        } else if key < events[i] {
          u := i - 1;
        } else {
          l := i + 1;
        }
      }
    }

    /** The slice covers every event in the interval and at most one more, the next one behind
        it; it is exact exactly when the interval ends at an event or behind them all. */
    method GetEventsBounds(start: int, end: int) returns (lo: nat, hi: nat)
      requires StrictlyIncreasing(events)
      ensures lo <= |events| && 0 < hi <= |events| + 1 && (start <= end ==> lo < hi)
      ensures Covers(events, lo, hi, Within(start, end))
      ensures forall k | lo <= k < hi && k < |events| :: start <= events[k] && (events[k] <= end || k == hi - 1)
      ensures Exactly(events, lo, hi, Within(start, end))
        <==> end in events || (forall at | at in events :: at <= end) || exists at :: at in events && end < at < start
    {
      var s := Search(start);
      var e := Search(end);
      lo, hi := s, e + 1;
      assert forall k | 0 <= k < |events| :: events[k] in events;
      if e < |events| {
        assert events[e] in events;
        if events[e] != end {
          assert !Within(start, end)(events[e]);
        }
      }
    }
  }
}
