/**
  Free slots of a working day. A slot list is specified by what it must contain, independently of
  how it is computed; the specification has at most one solution, and the sweep over the sorted,
  clipped bookings computes it.
 */
module Sweep {
  import opened Common
  import opened Time

  datatype Interval = Interval(start: Instant, end: Instant)

  predicate Overlaps(a: Interval, b: Interval) {
    a.start < b.end && a.end > b.start
  }

  predicate Inside(w: Interval, s: Interval) {
    s.start <= w.start && w.end <= s.end
  }

  predicate Contains(w: Interval, t: Instant) {
    w.start <= t < w.end
  }

  predicate Long(w: Interval) {
    w.end - w.start >= HOUR
  }

  /** No busy interval overlaps the window. */
  ghost predicate Free(w: Interval, busy: set<Interval>) {
    forall b :: b in busy ==> !Overlaps(b, w)
  }

  // ----- The specification of a slot list -----

  ghost predicate SlotsAreFree(slots: seq<Interval>, hours: Interval, busy: set<Interval>) {
    forall i :: 0 <= i < |slots| ==> Inside(slots[i], hours) && Long(slots[i]) && Free(slots[i], busy)
  }

  ghost predicate Ordered(slots: seq<Interval>) {
    forall i, j :: 0 <= i < j < |slots| ==> slots[i].end <= slots[j].start
  }

  ghost predicate InSomeSlot(w: Interval, slots: seq<Interval>) {
    exists i :: 0 <= i < |slots| && Inside(w, slots[i])
  }

  ghost predicate Complete(slots: seq<Interval>, hours: Interval, busy: set<Interval>) {
    forall w: Interval :: Inside(w, hours) && Long(w) && Free(w, busy) ==> InSomeSlot(w, slots)
  }

  ghost predicate IsSlotList(slots: seq<Interval>, hours: Interval, busy: set<Interval>) {
    SlotsAreFree(slots, hours, busy) && Ordered(slots) && Complete(slots, hours, busy)
  }

  /** A bookable window of the working hours lies in a slot exactly when it is free. */
  lemma SlotListDecidesWindows(slots: seq<Interval>, hours: Interval, busy: set<Interval>, w: Interval)
    requires IsSlotList(slots, hours, busy)
    requires Inside(w, hours) && Long(w)
    ensures InSomeSlot(w, slots) <==> Free(w, busy)
  {
    if InSomeSlot(w, slots) {
      var i :| 0 <= i < |slots| && Inside(w, slots[i]);
      FreeInside(w, slots[i], busy);
    }
  }

  lemma FreeInside(w: Interval, s: Interval, busy: set<Interval>)
    requires Inside(w, s) && Free(s, busy)
    ensures Free(w, busy)
  {
    forall b | b in busy
      ensures !Overlaps(b, w)
    {
      assert !Overlaps(b, s);
    }
  }

  /** A window is in at most one slot. */
  lemma SlotIsUnique(slots: seq<Interval>, w: Interval, i: nat, j: nat)
    requires Ordered(slots) && i < |slots| && j < |slots| && w.start < w.end
    requires Inside(w, slots[i]) && Inside(w, slots[j])
    ensures i == j
  {
  }

  /** Two busy sets leave the same bookable windows of the working hours free. */
  ghost predicate SameFreedom(hours: Interval, busy: set<Interval>, busy': set<Interval>) {
    forall w: Interval :: Inside(w, hours) && Long(w) ==> (Free(w, busy) <==> Free(w, busy'))
  }

  /** Busy sets that leave the same windows free have the same slot list, and only one. */
  lemma SlotListIsUnique(a: seq<Interval>, b: seq<Interval>, hours: Interval, busy: set<Interval>, busy': set<Interval>)
    requires IsSlotList(a, hours, busy) && IsSlotList(b, hours, busy')
    requires SameFreedom(hours, busy, busy')
    ensures a == b
  {
    assert SameFreedom(hours, busy', busy);
    SlotsAreShared(a, b, hours, busy, busy');
    SlotsAreShared(b, a, hours, busy', busy);
    SameElementsSameOrder(a, b);
  }

  lemma SlotFitsInOther(a: seq<Interval>, b: seq<Interval>, hours: Interval, busy: set<Interval>, busy': set<Interval>,
                        i: nat)
    returns (j: nat)
    requires SlotsAreFree(a, hours, busy) && Complete(b, hours, busy')
    requires SameFreedom(hours, busy, busy')
    requires i < |a|
    ensures j < |b| && Inside(a[i], b[j])
  {
    assert Free(a[i], busy');
    assert InSomeSlot(a[i], b);
    j :| 0 <= j < |b| && Inside(a[i], b[j]);
  }

  lemma SlotIsShared(a: seq<Interval>, b: seq<Interval>, hours: Interval, busy: set<Interval>, busy': set<Interval>,
                     i: nat)
    requires IsSlotList(a, hours, busy) && IsSlotList(b, hours, busy')
    requires SameFreedom(hours, busy, busy') && SameFreedom(hours, busy', busy)
    requires i < |a|
    ensures a[i].start < a[i].end && a[i] in b
  {
    hide Complete, SameFreedom, Free;
    var j := SlotFitsInOther(a, b, hours, busy, busy', i);
    var k := SlotFitsInOther(b, a, hours, busy', busy, j);
    SlotIsUnique(a, a[i], i, k);
  }

  lemma SlotsAreShared(a: seq<Interval>, b: seq<Interval>, hours: Interval, busy: set<Interval>, busy': set<Interval>)
    requires IsSlotList(a, hours, busy) && IsSlotList(b, hours, busy')
    requires SameFreedom(hours, busy, busy') && SameFreedom(hours, busy', busy)
    ensures ElementsIn(a, b)
  {
    forall i | 0 <= i < |a|
      ensures a[i].start < a[i].end && a[i] in b
    {
      SlotIsShared(a, b, hours, busy, busy', i);
    }
  }

  ghost predicate ElementsIn(a: seq<Interval>, b: seq<Interval>) {
    forall i :: 0 <= i < |a| ==> a[i].start < a[i].end && a[i] in b
  }

  lemma {:induction false} SameElementsSameOrder(a: seq<Interval>, b: seq<Interval>)
    requires Ordered(a) && Ordered(b)
    requires ElementsIn(a, b) && ElementsIn(b, a)
    ensures a == b
  {
    hide Ordered, ElementsIn;
    if a != [] {
      NotAloneEmpty(a, b);
    }
    if b != [] {
      NotAloneEmpty(b, a);
    }
    if a != [] {
      HeadsAgree(a, b);
      TailElements(a, b);
      TailElements(b, a);
      SameElementsSameOrder(a[1..], b[1..]);
      assert a == [a[0]] + a[1..] && b == [b[0]] + b[1..];
    }
  }

  lemma NotAloneEmpty(a: seq<Interval>, b: seq<Interval>)
    requires ElementsIn(a, b) && a != []
    ensures b != []
  {
    assert a[0] in b;
  }

  lemma HeadsAgree(a: seq<Interval>, b: seq<Interval>)
    requires Ordered(a) && Ordered(b)
    requires ElementsIn(a, b) && ElementsIn(b, a) && a != [] && b != []
    ensures a[0] == b[0]
  {
    var j :| 0 <= j < |b| && b[j] == a[0];
    var i :| 0 <= i < |a| && a[i] == b[0];
  }

  lemma TailElements(a: seq<Interval>, b: seq<Interval>)
    requires Ordered(a) && ElementsIn(a, b) && a != [] && b != [] && a[0] == b[0]
    ensures ElementsIn(a[1..], b[1..]) && Ordered(a[1..])
  {
    forall k | 0 <= k < |a[1..]|
      ensures a[1..][k].start < a[1..][k].end && a[1..][k] in b[1..]
    {
      assert a[1..][k] == a[k + 1] && a[0].end <= a[k + 1].start;
      var m :| 0 <= m < |b| && b[m] == a[k + 1];
      assert m != 0;
      assert b[1..][m - 1] == b[m];
    }
  }

  // ----- What the specification implies: slots are separated and maximal -----

  /** Where a slot begins: at opening or at the end of a booking. */
  ghost predicate BlockedBefore(t: Instant, hours: Interval, busy: set<Interval>) {
    t == hours.start || exists b :: b in busy && b.end == t
  }

  /** Where a slot ends: at closing or at the start of a booking. */
  ghost predicate BlockedAfter(t: Instant, hours: Interval, busy: set<Interval>) {
    t == hours.end || exists b :: b in busy && b.start == t
  }

  /** Consecutive slots do not touch, and no slot can be extended in either direction. */
  lemma SlotsAreMaximal(slots: seq<Interval>, hours: Interval, busy: set<Interval>, i: nat)
    requires IsSlotList(slots, hours, busy) && i < |slots|
    requires forall b :: b in busy ==> b.start < b.end
    ensures BlockedBefore(slots[i].start, hours, busy) && BlockedAfter(slots[i].end, hours, busy)
    ensures i + 1 < |slots| ==> slots[i].end < slots[i + 1].start
  {
    var s := slots[i];
    if s.start > hours.start {
      var b := WiderWindowIsBlocked(slots, hours, busy, i, Interval(s.start - 1, s.end));
      assert b.end == s.start;
    }
    if s.end < hours.end {
      var b := WiderWindowIsBlocked(slots, hours, busy, i, Interval(s.start, s.end + 1));
      assert b.start == s.end;
    }
    if i + 1 < |slots| {
      var b := WiderWindowIsBlocked(slots, hours, busy, i, Interval(s.start, slots[i + 1].end));
      assert !Overlaps(b, slots[i + 1]);
    }
  }

  lemma WiderWindowIsBlocked(slots: seq<Interval>, hours: Interval, busy: set<Interval>, i: nat, w: Interval)
    returns (b: Interval)
    requires IsSlotList(slots, hours, busy) && i < |slots|
    requires Inside(slots[i], w) && slots[i] != w && Inside(w, hours)
    ensures b in busy && Overlaps(b, w) && !Overlaps(b, slots[i])
  {
    WiderWindowIsInNoSlot(slots, i, w);
    assert Long(slots[i]) && Free(slots[i], busy);
    assert !Free(w, busy);
    b :| b in busy && Overlaps(b, w);
  }

  lemma WiderWindowIsInNoSlot(slots: seq<Interval>, i: nat, w: Interval)
    requires Ordered(slots) && i < |slots| && slots[i].start < slots[i].end
    requires Inside(slots[i], w) && slots[i] != w
    ensures !InSomeSlot(w, slots)
  {
    forall k | 0 <= k < |slots|
      ensures !Inside(w, slots[k])
    {
      assert k < i ==> slots[k].end <= slots[i].start;
      assert i < k ==> slots[i].end <= slots[k].start;
    }
  }

  // ----- The gaps that the sweep leaves -----

  ghost predicate SortedByStart(its: seq<Interval>) {
    forall i, j :: 0 <= i < j < |its| ==> its[i].start <= its[j].start
  }

  /** The uncovered stretches from `prev` to `close`, given busy intervals in order of their starts. */
  function Gaps(prev: Instant, its: seq<Interval>, close: Instant): seq<Interval>
    decreases |its|
  {
    if its == [] then
      if prev < close then [Interval(prev, close)] else []
    else
      (if its[0].start > prev then [Interval(prev, its[0].start)] else [])
      + Gaps(if its[0].end > prev then its[0].end else prev, its[1..], close)
  }

  /** The gaps of at least an hour. */
  function LongOnly(gaps: seq<Interval>): seq<Interval> {
    if gaps == [] then []
    else (if Long(gaps[0]) then [gaps[0]] else []) + LongOnly(gaps[1..])
  }

  lemma {:induction false} LongOnlyAppend(gaps: seq<Interval>, g: Interval)
    ensures LongOnly(gaps + [g]) == LongOnly(gaps) + (if Long(g) then [g] else [])
  {
    if gaps == [] {
      assert gaps + [g] == [g];
      assert LongOnly([g]) == (if Long(g) then [g] else []) + LongOnly([]);
    } else {
      LongOnlyAppend(gaps[1..], g);
      assert (gaps + [g])[1..] == gaps[1..] + [g];
    }
  }

  ghost predicate Clipped(its: seq<Interval>, close: Instant) {
    forall i :: 0 <= i < |its| ==> its[i].start <= its[i].end <= close
  }

  ghost predicate Within(gaps: seq<Interval>, start: Instant, end: Instant) {
    forall k :: 0 <= k < |gaps| ==> start <= gaps[k].start < gaps[k].end <= end
  }

  /** Gaps stay in bounds and in order, and are at most one more than the busy intervals. */
  lemma {:induction false} GapsAreOrdered(prev: Instant, its: seq<Interval>, close: Instant)
    requires Clipped(its, close)
    ensures |Gaps(prev, its, close)| <= |its| + 1
    ensures Ordered(Gaps(prev, its, close)) && Within(Gaps(prev, its, close), prev, close)
    decreases |its|
  {
    if its != [] {
      GapsAreOrdered(if its[0].end > prev then its[0].end else prev, its[1..], close);
    }
  }

  ghost predicate ClearOf(gap: Interval, its: seq<Interval>) {
    forall i :: 0 <= i < |its| ==> !Overlaps(its[i], gap)
  }

  /** Gaps are clear of every busy interval. */
  lemma {:induction false} GapsAreClear(prev: Instant, its: seq<Interval>, close: Instant, k: nat)
    requires SortedByStart(its) && Clipped(its, close)
    requires k < |Gaps(prev, its, close)|
    ensures ClearOf(Gaps(prev, its, close)[k], its)
    decreases |its|
  {
    if its != [] {
      var next := if its[0].end > prev then its[0].end else prev;
      var rest := Gaps(next, its[1..], close);
      var headCount := if its[0].start > prev then 1 else 0;
      if k >= headCount {
        GapsAreClear(next, its[1..], close, k - headCount);
        GapsAreOrdered(next, its[1..], close);
        var gap := rest[k - headCount];
        assert Gaps(prev, its, close)[k] == gap;
        forall i | 0 <= i < |its|
          ensures !Overlaps(its[i], gap)
        {
          assert i > 0 ==> its[i] == its[1..][i - 1];
        }
      }
    }
  }

  /** A window clear of every busy interval lies in a gap. */
  lemma {:induction false} GapsAreComplete(prev: Instant, its: seq<Interval>, close: Instant, w: Interval)
    requires prev <= w.start < w.end <= close
    requires ClearOf(w, its) && forall i :: 0 <= i < |its| ==> its[i].start <= its[i].end
    ensures InSomeSlot(w, Gaps(prev, its, close))
    decreases |its|
  {
    var gaps := Gaps(prev, its, close);
    if its == [] {
      assert Inside(w, gaps[0]);
    } else if its[0].start >= w.end {
      assert Inside(w, gaps[0]);
    } else {
      assert !Overlaps(its[0], w);
      var next := if its[0].end > prev then its[0].end else prev;
      GapsAreComplete(next, its[1..], close, w);
      var rest := Gaps(next, its[1..], close);
      var k :| 0 <= k < |rest| && Inside(w, rest[k]);
      assert gaps[|gaps| - |rest| + k] == rest[k];
    }
  }

  lemma {:induction false} LongOnlyFacts(gaps: seq<Interval>)
    requires Ordered(gaps) && forall k :: 0 <= k < |gaps| ==> gaps[k].start < gaps[k].end
    ensures |LongOnly(gaps)| <= |gaps|
    ensures Ordered(LongOnly(gaps))
    ensures forall g :: g in LongOnly(gaps) <==> g in gaps && Long(g)
  {
    if gaps != [] {
      LongOnlyFacts(gaps[1..]);
      var rest := LongOnly(gaps[1..]);
      assert forall g :: g in gaps <==> g == gaps[0] || g in gaps[1..];
      forall g | g in rest
        ensures gaps[0].end <= g.start
      {
        var k :| 0 <= k < |gaps[1..]| && gaps[1..][k] == g;
        assert g == gaps[k + 1];
      }
    }
  }

  /** The clipped intervals block exactly the windows of the working hours that the busy set blocks. */
  ghost predicate Represents(its: seq<Interval>, hours: Interval, busy: set<Interval>) {
    forall w: Interval :: Inside(w, hours) && w.start < w.end ==> (Free(w, busy) <==> ClearOf(w, its))
  }

  /** The long gaps are the slot list of any busy set that the clipped intervals represent. */
  lemma GapsGiveSlotList(its: seq<Interval>, hours: Interval, busy: set<Interval>)
    requires SortedByStart(its) && Clipped(its, hours.end) && Represents(its, hours, busy)
    ensures IsSlotList(LongOnly(Gaps(hours.start, its, hours.end)), hours, busy)
    ensures |LongOnly(Gaps(hours.start, its, hours.end))| <= |its| + 1
  {
    var gaps := Gaps(hours.start, its, hours.end);
    GapsAreOrdered(hours.start, its, hours.end);
    LongOnlyFacts(gaps);
    var slots := LongOnly(gaps);
    forall i | 0 <= i < |slots|
      ensures Inside(slots[i], hours) && Long(slots[i]) && Free(slots[i], busy)
    {
      assert slots[i] in gaps;
      var k :| 0 <= k < |gaps| && gaps[k] == slots[i];
      GapsAreClear(hours.start, its, hours.end, k);
    }
    forall w: Interval | Inside(w, hours) && Long(w) && Free(w, busy)
      ensures InSomeSlot(w, slots)
    {
      LongGapIsKept(its, hours, w);
    }
  }

  lemma LongGapIsKept(its: seq<Interval>, hours: Interval, w: Interval)
    requires Clipped(its, hours.end) && Inside(w, hours) && Long(w) && ClearOf(w, its)
    ensures InSomeSlot(w, LongOnly(Gaps(hours.start, its, hours.end)))
  {
    var gaps := Gaps(hours.start, its, hours.end);
    GapsAreOrdered(hours.start, its, hours.end);
    GapsAreComplete(hours.start, its, hours.end, w);
    var k :| 0 <= k < |gaps| && Inside(w, gaps[k]);
    LongGapIsListed(gaps, w, k);
  }

  lemma LongGapIsListed(gaps: seq<Interval>, w: Interval, k: nat)
    requires Ordered(gaps) && (forall i :: 0 <= i < |gaps| ==> gaps[i].start < gaps[i].end)
    requires k < |gaps| && Inside(w, gaps[k]) && Long(w)
    ensures InSomeSlot(w, LongOnly(gaps))
  {
    LongOnlyFacts(gaps);
    assert gaps[k] in LongOnly(gaps);
    var j :| 0 <= j < |LongOnly(gaps)| && LongOnly(gaps)[j] == gaps[k];
  }

  /** With no working hours there is nothing to sweep, whatever the bookings are. */
  lemma {:induction false} NoHoursNoGaps(prev: Instant, its: seq<Interval>, close: Instant)
    requires close <= prev
    requires forall i :: 0 <= i < |its| ==> its[i].start <= prev && its[i].end <= close
    ensures Gaps(prev, its, close) == []
    decreases |its|
  {
    if its != [] {
      NoHoursNoGaps(prev, its[1..], close);
    }
  }

  // ----- Conservation of the working day -----

  /** Some interval of the list contains the instant. */
  ghost predicate Covers(its: seq<Interval>, t: Instant) {
    exists i :: 0 <= i < |its| && Contains(its[i], t)
  }

  /** Every instant of the day is either in a gap or in a booked interval, never both. */
  lemma GapsPartitionTheDay(its: seq<Interval>, hours: Interval, t: Instant)
    requires SortedByStart(its) && Clipped(its, hours.end)
    requires hours.start <= t < hours.end
    ensures Covers(Gaps(hours.start, its, hours.end), t) <==> !Covers(its, t)
  {
    var gaps := Gaps(hours.start, its, hours.end);
    if !Covers(its, t) {
      var w := Interval(t, t + 1);
      GapsAreComplete(hours.start, its, hours.end, w);
      var k :| 0 <= k < |gaps| && Inside(w, gaps[k]);
      assert Contains(gaps[k], t);
    }
    if Covers(gaps, t) {
      var k :| 0 <= k < |gaps| && Contains(gaps[k], t);
      GapsAreClear(hours.start, its, hours.end, k);
      forall i | 0 <= i < |its|
        ensures !Contains(its[i], t)
      {
        assert !Overlaps(its[i], gaps[k]);
      }
    }
  }

  function TotalLength(its: seq<Interval>): int {
    if its == [] then 0 else its[0].end - its[0].start + TotalLength(its[1..])
  }

  lemma {:induction false} TotalLengthOfConcat(a: seq<Interval>, b: seq<Interval>)
    ensures TotalLength(a + b) == TotalLength(a) + TotalLength(b)
  {
    if a == [] {
      assert a + b == b;
    } else {
      TotalLengthOfConcat(a[1..], b);
      assert (a + b)[1..] == a[1..] + b;
    }
  }

  /** Neither interval enters the other. */
  predicate Apart(a: Interval, b: Interval) {
    a.end <= b.start || b.end <= a.start
  }

  ghost predicate PairwiseApart(its: seq<Interval>) {
    forall i, j :: 0 <= i < j < |its| ==> Apart(its[i], its[j])
  }

  /** In order of their starts, an interval begins after the earlier ones end, unless it is empty. */
  ghost predicate Stacked(its: seq<Interval>) {
    forall i, j :: 0 <= i < j < |its| ==> its[i].end <= its[j].start || its[j].start == its[j].end
  }

  lemma SortedApartIsStacked(its: seq<Interval>, close: Instant)
    requires SortedByStart(its) && Clipped(its, close) && PairwiseApart(its)
    ensures Stacked(its)
  {
    forall i, j | 0 <= i < j < |its|
      ensures its[i].end <= its[j].start || its[j].start == its[j].end
    {
      assert Apart(its[i], its[j]) && its[i].start <= its[j].start;
    }
  }

  /** Every interval begins at `prev` or later, unless it is empty. */
  ghost predicate StartsFrom(prev: Instant, its: seq<Interval>) {
    forall i :: 0 <= i < |its| ==> prev <= its[i].start || its[i].start == its[i].end
  }

  /** When bookings do not overlap, gap lengths and booked lengths add up to the day. */
  lemma {:induction false} LengthsAddUp(prev: Instant, its: seq<Interval>, close: Instant)
    requires Stacked(its) && Clipped(its, close) && StartsFrom(prev, its) && prev <= close
    ensures TotalLength(Gaps(prev, its, close)) + TotalLength(its) == close - prev
    decreases |its|
  {
    if its == [] {
      assert prev < close ==> Gaps(prev, its, close)[1..] == [];
    } else {
      var next := if its[0].end > prev then its[0].end else prev;
      TailIsStacked(prev, its, close);
      LengthsAddUp(next, its[1..], close);
      var head := if its[0].start > prev then [Interval(prev, its[0].start)] else [];
      TotalLengthOfConcat(head, Gaps(next, its[1..], close));
      assert TotalLength(head) == if its[0].start > prev then its[0].start - prev else 0 by {
        assert its[0].start > prev ==> head[1..] == [];
      }
      assert Gaps(prev, its, close) == head + Gaps(next, its[1..], close);
      assert prev <= its[0].start || its[0].start == its[0].end;
      hide Stacked, Clipped, StartsFrom, Gaps;
    }
  }

  lemma TailIsStacked(prev: Instant, its: seq<Interval>, close: Instant)
    requires Stacked(its) && Clipped(its, close) && StartsFrom(prev, its) && its != []
    ensures Stacked(its[1..]) && Clipped(its[1..], close)
    ensures StartsFrom(if its[0].end > prev then its[0].end else prev, its[1..])
  {
    var rest := its[1..];
    forall i | 0 <= i < |rest|
      ensures rest[i] == its[i + 1]
    {
    }
  }

  // ----- Rearrangements -----

  lemma WithoutOne(a: seq<Interval>, p: nat)
    requires p < |a|
    ensures multiset(Without(a, p)) == multiset(a) - multiset{a[p]}
  {
    assert a == a[..p] + [a[p]] + a[p + 1..];
  }

  lemma TotalLengthWithoutOne(b: seq<Interval>, j: nat)
    requires j < |b|
    ensures TotalLength(b) == b[j].end - b[j].start + TotalLength(Without(b, j))
  {
    assert b == b[..j] + b[j..] && b[j..][1..] == b[j + 1..];
    TotalLengthOfConcat(b[..j], b[j..]);
    TotalLengthOfConcat(b[..j], b[j + 1..]);
  }

  lemma SameAfterRemoval(a: seq<Interval>, b: seq<Interval>) returns (j: nat)
    requires multiset(a) == multiset(b) && a != []
    ensures j < |b| && b[j] == a[0] && multiset(Without(a, 0)) == multiset(Without(b, j))
  {
    assert a[0] in multiset(b);
    j :| 0 <= j < |b| && b[j] == a[0];
    WithoutOne(a, 0);
    WithoutOne(b, j);
  }

  lemma {:induction false} TotalLengthOfPermutation(a: seq<Interval>, b: seq<Interval>)
    requires multiset(a) == multiset(b)
    ensures TotalLength(a) == TotalLength(b)
    decreases |a|
  {
    if a == [] {
      assert |multiset(b)| == 0;
    } else {
      var j := SameAfterRemoval(a, b);
      TotalLengthOfPermutation(Without(a, 0), Without(b, j));
      TotalLengthWithoutOne(a, 0);
      TotalLengthWithoutOne(b, j);
    }
  }

  lemma ApartSurvivesPermutation(a: seq<Interval>, b: seq<Interval>)
    requires multiset(a) == multiset(b) && PairwiseApart(a)
    ensures PairwiseApart(b)
  {
    forall i, j | 0 <= i < j < |b|
      ensures Apart(b[i], b[j])
    {
      var p, q := TwoPositions(a, b, i, j);
    }
  }

  /** Two different positions of a sequence hold the same elements as two positions of its rearrangement. */
  lemma TwoPositions(a: seq<Interval>, b: seq<Interval>, i: nat, j: nat) returns (p: nat, q: nat)
    requires multiset(a) == multiset(b) && i < j < |b|
    ensures p < |a| && q < |a| && p != q && a[p] == b[i] && a[q] == b[j]
  {
    assert b[i] in multiset(b);
    p :| 0 <= p < |a| && a[p] == b[i];
    var a', b' := Without(a, p), Without(b, i);
    WithoutOne(a, p);
    WithoutOne(b, i);
    assert b'[j - 1] == b[j];
    assert b[j] in multiset(a');
    var r :| 0 <= r < |a'| && a'[r] == b[j];
    q := if r < p then r else r + 1;
  }
}
