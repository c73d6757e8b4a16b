/** The agenda's multi-day split (`processOrdersForView`): each scheduled order's
    estimated duration is laid out over consecutive calendar days, at most one segment a
    day, within each day's business hours, for at most seven day-steps. */
module Segmentation {
  import opened Prelude
  import opened Types
  import opened BusinessHours

  /** The safety cap on the loop: seven day-steps, closed days included. */
  const MaxDaySteps: nat := 7

  /** `OrderSegment`: one same-day portion of an order. */
  datatype Segment = Segment(order: WorkOrder, day: int, startMin: int, duration: int, isSpillover: bool)

  function End(s: Segment): int { s.startMin + s.duration }

  /** Two segments share some minute: the half-open intervals `[startMin, End)` meet. */
  predicate Overlap(a: Segment, b: Segment) {
    a.startMin < End(b) && b.startMin < End(a)
  }

  /** The agenda's reading of the table for a calendar day. */
  predicate OpenOn(h: Hours, day: int) {
    OpenForCalendar(h, WeekdayOf(day))
  }

  /** Sum of the segments' durations. */
  function Total(segs: seq<Segment>): int {
    if |segs| == 0 then 0 else segs[0].duration + Total(segs[1..])
  }

  lemma {:induction false} TotalAppend(a: seq<Segment>, b: seq<Segment>)
    ensures Total(a + b) == Total(a) + Total(b)
  {
    if |a| > 0 {
      assert (a + b)[1..] == a[1..] + b;
      TotalAppend(a[1..], b);
    } else {
      assert a + b == b;
    }
  }

  /** A segment lies on an open day, within that day's business hours, and has a positive
      length. */
  predicate FitsItsDay(h: Hours, s: Segment) {
    && OpenOn(h, s.day)
    && s.duration > 0
    && OpeningMinute(h, WeekdayOf(s.day)) <= s.startMin
    && End(s) <= ClosingMinute(h, WeekdayOf(s.day))
  }

  /** A segment of `order` that fits its day, on a day in `[from, until)`. */
  predicate PlacedIn(h: Hours, order: WorkOrder, s: Segment, from: int, until: int) {
    && s.order == order
    && from <= s.day < until
    && FitsItsDay(h, s)
  }

  /** Every segment is placed in `[from, until)`, each on a later day than the one before. */
  predicate WellPlaced(h: Hours, order: WorkOrder, segs: seq<Segment>, from: int, until: int)
    decreases |segs|
  {
    |segs| == 0 ||
    (&& PlacedIn(h, order, segs[0], from, until)
     && WellPlaced(h, order, segs[1..], segs[0].day + 1, until))
  }

  /** What `WellPlaced` says about each segment and each pair of segments. */
  lemma {:induction false} WellPlacedEach(h: Hours, order: WorkOrder, segs: seq<Segment>, from: int, until: int)
    requires WellPlaced(h, order, segs, from, until)
    ensures forall i :: 0 <= i < |segs| ==> PlacedIn(h, order, segs[i], from, until)
    ensures forall i, j :: 0 <= i < j < |segs| ==> segs[i].day < segs[j].day
    decreases |segs|
  {
    if |segs| > 0 {
      var t := segs[1..];
      WellPlacedEach(h, order, t, segs[0].day + 1, until);
      forall i | 0 <= i < |segs| ensures PlacedIn(h, order, segs[i], from, until) {
        if i > 0 { assert segs[i] == t[i - 1]; }
      }
      forall i, j | 0 <= i < j < |segs| ensures segs[i].day < segs[j].day {
        assert segs[j] == t[j - 1];
        if i > 0 { assert segs[i] == t[i - 1]; }
      }
    }
  }

  /** Where the loop's segment on an open day starts: the carried minute, raised to the
      day's opening when earlier. */
  function DayStart(h: Hours, day: int, start: int): (s: int)
    ensures s >= OpeningMinute(h, WeekdayOf(day))
    ensures start >= OpeningMinute(h, WeekdayOf(day)) ==> s == start
  {
    var open := OpeningMinute(h, WeekdayOf(day));
    if start < open then open else start
  }

  /** The minutes between that start and the day's closing, or 0 when none are left. */
  function Capacity(h: Hours, day: int, start: int): (c: nat)
    ensures c > 0 ==> DayStart(h, day, start) + c == ClosingMinute(h, WeekdayOf(day))
    ensures c == 0 ==> DayStart(h, day, start) >= ClosingMinute(h, WeekdayOf(day))
  {
    Max(0, ClosingMinute(h, WeekdayOf(day)) - DayStart(h, day, start))
  }

  /** One pass of the loop body: the segment emitted on `day`, if any. A closed day and an
      open day with no time left after `start` emit nothing. */
  function DaySegment(order: WorkOrder, h: Hours, day: int, start: int, remaining: nat, isFirst: bool): (r: Option<Segment>)
    requires remaining > 0
    ensures r.Some? <==> OpenOn(h, day) && Capacity(h, day, start) > 0
    ensures r.Some? ==> PlacedIn(h, order, r.value, day, day + 1)
    ensures r.Some? ==> r.value.duration == Min(remaining, Capacity(h, day, start))
    ensures r.Some? ==> r.value.startMin == DayStart(h, day, start)
    ensures r.Some? ==> r.value.isSpillover == !isFirst
  {
    if !OpenOn(h, day) || Capacity(h, day, start) == 0 then None
    else Some(Segment(order, day, DayStart(h, day, start), Min(remaining, Capacity(h, day, start)), !isFirst))
  }

  function Segments(o: Option<Segment>): seq<Segment> {
    if o.Some? then [o.value] else []
  }

  function Used(o: Option<Segment>): nat {
    if o.Some? && o.value.duration > 0 then o.value.duration else 0
  }

  /** The loop's variables between two passes: the day being scanned, the carried start
      minute (-1 once reset), the minutes still to place, whether `isFirstSegment` is
      still set, and the day-steps already taken. */
  datatype Loop = Loop(day: int, start: int, remaining: nat, isFirst: bool, steps: nat)

  /** The `while` condition. */
  predicate Running(st: Loop) {
    st.remaining > 0 && st.steps < MaxDaySteps
  }

  /** The segment one pass emits, if any. */
  function Emit(order: WorkOrder, h: Hours, st: Loop): Option<Segment>
    requires st.remaining > 0
  {
    DaySegment(order, h, st.day, st.start, st.remaining, st.isFirst)
  }

  /** The variables after one pass: the next day from its opening, the emitted minutes
      taken off, `isFirstSegment` cleared by an open day, one more day-step. */
  function Next(order: WorkOrder, h: Hours, st: Loop): Loop
    requires st.remaining > 0
  {
    Loop(st.day + 1, -1, st.remaining - Used(Emit(order, h, st)), st.isFirst && !OpenOn(h, st.day), st.steps + 1)
  }

  /** The segments the loop emits from state `st` on. */
  function SplitFrom(order: WorkOrder, h: Hours, st: Loop): (segs: seq<Segment>)
    requires st.steps <= MaxDaySteps
    ensures |segs| <= MaxDaySteps - st.steps
    ensures st.remaining == 0 ==> segs == []
    ensures forall i :: 0 <= i < |segs| ==> segs[i].order == order && segs[i].duration > 0
    decreases MaxDaySteps - st.steps
  {
    if !Running(st) then []
    else Segments(Emit(order, h, st)) + SplitFrom(order, h, Next(order, h, st))
  }

  /** The minutes still unplaced when the loop stops. */
  function Unplaced(order: WorkOrder, h: Hours, st: Loop): (left: nat)
    requires st.steps <= MaxDaySteps
    ensures left <= st.remaining
    decreases MaxDaySteps - st.steps
  {
    if !Running(st) then st.remaining
    else Unplaced(order, h, Next(order, h, st))
  }

  /** Conservation: the minutes the loop emits plus the minutes left when it stops add up
      to the minutes it started with. */
  lemma {:induction false} SplitConserves(order: WorkOrder, h: Hours, st: Loop)
    requires st.steps <= MaxDaySteps
    ensures Total(SplitFrom(order, h, st)) + Unplaced(order, h, st) == st.remaining
    decreases MaxDaySteps - st.steps
  {
    if Running(st) {
      var next := Next(order, h, st);
      SplitConserves(order, h, next);
      TotalAppend(Segments(Emit(order, h, st)), SplitFrom(order, h, next));
    }
  }

  /** Putting the day's segment, if any, in front of segments placed from the next day on. */
  lemma WellPlacedPrepend(h: Hours, order: WorkOrder, o: Option<Segment>, rest: seq<Segment>, all: seq<Segment>, day: int, until: int)
    requires all == Segments(o) + rest
    requires day < until
    requires o.Some? ==> PlacedIn(h, order, o.value, day, day + 1)
    requires WellPlaced(h, order, rest, day + 1, until)
    ensures WellPlaced(h, order, all, day, until)
  {
    if o.Some? {
      assert all[1..] == rest;
    } else {
      assert all == rest;
    }
  }

  /** Every segment the loop emits from state `st` on lies on an open day before `until`,
      inside that day's hours, with the days strictly increasing. */
  lemma {:induction false} SplitPlacement(order: WorkOrder, h: Hours, st: Loop, until: int)
    requires st.steps <= MaxDaySteps
    requires until == st.day + MaxDaySteps - st.steps
    ensures WellPlaced(h, order, SplitFrom(order, h, st), st.day, until)
    decreases MaxDaySteps - st.steps
  {
    if Running(st) {
      var next := Next(order, h, st);
      SplitPlacement(order, h, next, until);
      WellPlacedPrepend(h, order, Emit(order, h, st), SplitFrom(order, h, next), SplitFrom(order, h, st), st.day, until);
    }
  }

  /** Every segment falls on `day` or later. */
  predicate OnOrAfter(segs: seq<Segment>, day: int) {
    forall i :: 0 <= i < |segs| ==> day <= segs[i].day
  }

  /** Everything the loop emits from state `st` on lies on the day it is scanning or later. */
  lemma SplitDaysFrom(order: WorkOrder, h: Hours, st: Loop)
    requires st.steps <= MaxDaySteps
    ensures OnOrAfter(SplitFrom(order, h, st), st.day)
  {
    var segs := SplitFrom(order, h, st);
    SplitPlacement(order, h, st, st.day + MaxDaySteps - st.steps);
    WellPlacedEach(h, order, segs, st.day, st.day + MaxDaySteps - st.steps);
  }

  /** Where the loop starts each segment: on the day it began scanning, at the carried
      minute raised to the opening; on any later day, at that day's opening. */
  predicate StartsAsScheduled(h: Hours, segs: seq<Segment>, day: int, start: int) {
    forall i :: 0 <= i < |segs| ==>
      segs[i].startMin == Max(if segs[i].day == day then start else -1, OpeningMinute(h, WeekdayOf(segs[i].day)))
  }

  lemma StartsPrepend(h: Hours, o: Option<Segment>, rest: seq<Segment>, all: seq<Segment>, day: int, start: int)
    requires all == Segments(o) + rest
    requires o.Some? ==> o.value.day == day && o.value.startMin == DayStart(h, day, start)
    requires OnOrAfter(rest, day + 1)
    requires StartsAsScheduled(h, rest, day + 1, -1)
    ensures StartsAsScheduled(h, all, day, start)
  {
    forall i | 0 <= i < |all|
      ensures all[i].startMin == Max(if all[i].day == day then start else -1, OpeningMinute(h, WeekdayOf(all[i].day)))
    {
      if o.Some? && i == 0 {
      } else {
        var k := if o.Some? then i - 1 else i;
        assert all[i] == rest[k];
      }
    }
  }

  lemma {:induction false} SplitStarts(order: WorkOrder, h: Hours, st: Loop)
    requires st.steps <= MaxDaySteps
    ensures StartsAsScheduled(h, SplitFrom(order, h, st), st.day, st.start)
    decreases MaxDaySteps - st.steps
  {
    if Running(st) {
      var next := Next(order, h, st);
      SplitStarts(order, h, next);
      SplitDaysFrom(order, h, next);
      StartsPrepend(h, Emit(order, h, st), SplitFrom(order, h, next), SplitFrom(order, h, st), st.day, st.start);
    }
  }

  /** How the loop marks spillover: every segment after the first is one, and the first is
      one unless the loop began with `isFirst` set and every day before it was closed. */
  predicate SpilloverMarked(h: Hours, segs: seq<Segment>, day: int, isFirst: bool) {
    && (forall i :: 0 < i < |segs| ==> segs[i].isSpillover)
    && (|segs| > 0 ==> (segs[0].isSpillover <==> !isFirst || SomeDayOpen(h, day, segs[0].day)))
  }

  /** Some day in `[from, until)` is open. */
  predicate SomeDayOpen(h: Hours, from: int, until: int)
    decreases until - from
  {
    from < until && (OpenOn(h, from) || SomeDayOpen(h, from + 1, until))
  }

  lemma SpilloverPrepend(h: Hours, o: Option<Segment>, rest: seq<Segment>, all: seq<Segment>, day: int, isFirst: bool)
    requires all == Segments(o) + rest
    requires o.Some? ==> o.value.day == day && o.value.isSpillover == !isFirst && OpenOn(h, day)
    requires OnOrAfter(rest, day + 1)
    requires SpilloverMarked(h, rest, day + 1, isFirst && !OpenOn(h, day))
    ensures SpilloverMarked(h, all, day, isFirst)
  {
    if o.Some? {
      forall i | 0 < i < |all| ensures all[i].isSpillover {
        assert all[i] == rest[i - 1];
      }
    } else {
      assert all == rest;
      if |rest| > 0 {
        assert day + 1 <= rest[0].day;
        assert SomeDayOpen(h, day, rest[0].day) == (OpenOn(h, day) || SomeDayOpen(h, day + 1, rest[0].day));
      }
    }
  }

  lemma {:induction false} SplitSpillover(order: WorkOrder, h: Hours, st: Loop)
    requires st.steps <= MaxDaySteps
    ensures SpilloverMarked(h, SplitFrom(order, h, st), st.day, st.isFirst)
    decreases MaxDaySteps - st.steps
  {
    if Running(st) {
      var next := Next(order, h, st);
      SplitSpillover(order, h, next);
      SplitDaysFrom(order, h, next);
      SpilloverPrepend(h, Emit(order, h, st), SplitFrom(order, h, next), SplitFrom(order, h, st), st.day, st.isFirst);
    }
  }

  /** Every segment but the last runs to its day's closing. */
  predicate FillsDays(h: Hours, segs: seq<Segment>) {
    forall i :: 0 <= i < |segs| - 1 ==> End(segs[i]) == ClosingMinute(h, WeekdayOf(segs[i].day))
  }

  lemma FillsPrepend(h: Hours, o: Option<Segment>, rest: seq<Segment>, all: seq<Segment>)
    requires all == Segments(o) + rest
    requires o.Some? && |rest| > 0 ==> End(o.value) == ClosingMinute(h, WeekdayOf(o.value.day))
    requires FillsDays(h, rest)
    ensures FillsDays(h, all)
  {
    forall i | 0 <= i < |all| - 1 ensures End(all[i]) == ClosingMinute(h, WeekdayOf(all[i].day)) {
      if o.Some? && i == 0 {
      } else {
        var k := if o.Some? then i - 1 else i;
        assert all[i] == rest[k];
      }
    }
  }

  /** The loop only stops a segment short of the closing when the order's time runs out. */
  lemma {:induction false} SplitFillsDays(order: WorkOrder, h: Hours, st: Loop)
    requires st.steps <= MaxDaySteps
    ensures FillsDays(h, SplitFrom(order, h, st))
    decreases MaxDaySteps - st.steps
  {
    if Running(st) {
      var seg := Emit(order, h, st);
      var next := Next(order, h, st);
      var rest := SplitFrom(order, h, next);
      SplitFillsDays(order, h, next);
      if seg.Some? && |rest| > 0 {
        assert next.remaining > 0;
      }
      FillsPrepend(h, seg, rest, SplitFrom(order, h, st));
    }
  }

  /** The loop's variables before the first pass, for a scheduled order. */
  function Start(order: WorkOrder): Loop
    requires order.scheduledDate.Some?
  {
    Loop(order.scheduledDate.value.day, order.scheduledDate.value.minute, order.estimatedDuration, true, 0)
  }

  /** The segments of one order, from its scheduled day and minute; an order without a
      date or without a duration has none. Each lies within the seven days from the
      scheduled one, and their days strictly increase. */
  function SegmentOrder(order: WorkOrder, h: Hours): (segs: seq<Segment>)
    ensures order.scheduledDate.None? || order.estimatedDuration == 0 ==> segs == []
    ensures order.scheduledDate.Some? ==>
              WellPlaced(h, order, segs, order.scheduledDate.value.day, order.scheduledDate.value.day + MaxDaySteps)
    ensures forall i :: 0 <= i < |segs| ==> segs[i].order == order && FitsItsDay(h, segs[i])
  {
    if order.scheduledDate.None? || order.estimatedDuration == 0 then []
    else
      var when := order.scheduledDate.value;
      var segs := SplitFrom(order, h, Start(order));
      SplitPlacement(order, h, Start(order), when.day + MaxDaySteps);
      WellPlacedEach(h, order, segs, when.day, when.day + MaxDaySteps);
      segs
  }

  /** The minutes of an order the agenda does not show, because the seven day-steps ran
      out first. */
  function UnplacedMinutes(order: WorkOrder, h: Hours): (left: nat)
    ensures Total(SegmentOrder(order, h)) + left == order.estimatedDuration
  {
    if order.scheduledDate.None? then order.estimatedDuration
    else
      var when := order.scheduledDate.value;
      SplitConserves(order, h, Start(order));
      Unplaced(order, h, Start(order))
  }

  /** `processOrdersForView`: the segments of every order, order by order. */
  function ProcessOrders(orders: seq<WorkOrder>, h: Hours): (segs: seq<Segment>)
    ensures forall i :: 0 <= i < |segs| ==> segs[i].order in orders && FitsItsDay(h, segs[i])
    ensures forall k, s :: 0 <= k < |orders| && s in SegmentOrder(orders[k], h) ==> s in segs
  {
    if |orders| == 0 then []
    else
      var first := SegmentOrder(orders[0], h);
      var rest := ProcessOrders(orders[1..], h);
      var segs := first + rest;
      assert forall i :: 0 <= i < |segs| ==> segs[i].order in orders by {
        forall i | 0 <= i < |segs| ensures segs[i].order in orders {
          if i >= |first| {
            assert segs[i] == rest[i - |first|];
            assert rest[i - |first|].order in orders[1..];
          }
        }
      }
      assert forall k, s :: 0 <= k < |orders| && s in SegmentOrder(orders[k], h) ==> s in segs by {
        forall k, s | 0 <= k < |orders| && s in SegmentOrder(orders[k], h) ensures s in segs {
          if k > 0 {
            assert orders[k] == orders[1..][k - 1];
          }
        }
      }
      segs
  }

  /** The view lists the orders' segments order by order: one order gives its own
      segments, and two lists of orders give their segments one after the other. */
  lemma {:induction false} ProcessOrdersInOrder(a: seq<WorkOrder>, b: seq<WorkOrder>, o: WorkOrder, h: Hours)
    ensures ProcessOrders([o], h) == SegmentOrder(o, h)
    ensures ProcessOrders(a + b, h) == ProcessOrders(a, h) + ProcessOrders(b, h)
    decreases |a|
  {
    assert ProcessOrders([o], h) == SegmentOrder(o, h) + ProcessOrders([], h);
    if |a| > 0 {
      calc {
        ProcessOrders(a + b, h);
        { assert (a + b)[0] == a[0] && (a + b)[1..] == a[1..] + b; }
        SegmentOrder(a[0], h) + ProcessOrders(a[1..] + b, h);
        { ProcessOrdersInOrder(a[1..], b, o, h); }
        SegmentOrder(a[0], h) + (ProcessOrders(a[1..], h) + ProcessOrders(b, h));
        { AppendAssoc(SegmentOrder(a[0], h), ProcessOrders(a[1..], h), ProcessOrders(b, h)); }
        ProcessOrders(a, h) + ProcessOrders(b, h);
      }
    } else {
      assert a + b == b;
    }
  }

  // ---------------------------------------------------------------------------
  // Worked examples

  /** An order booked on a Monday (day 1) at 17:00 for 90 minutes, with Tuesday switched
      off: one hour on Monday, then the remaining half hour from Wednesday's opening,
      marked as spillover. */
  lemma MondayEveningOverTuesdayOff(order: WorkOrder)
    requires order.scheduledDate == Some(DateTime(1, 1020)) && order.estimatedDuration == 90
    ensures SegmentOrder(order, map[Terca := DayConfig(false, Blank, Blank)])
            == [Segment(order, 1, 1020, 60, false), Segment(order, 3, 480, 30, true)]
  {
    var h := map[Terca := DayConfig(false, Blank, Blank)];
    assert WeekdayOf(1) == Segunda && WeekdayOf(2) == Terca && WeekdayOf(3) == Quarta;
    var st := Loop(1, 1020, 90, true, 0);
    assert Next(order, h, st) == Loop(2, -1, 30, false, 1);
    assert Next(order, h, Loop(2, -1, 30, false, 1)) == Loop(3, -1, 30, false, 2);
    assert Next(order, h, Loop(3, -1, 30, false, 2)) == Loop(4, -1, 0, false, 3);
  }

  /** The seven-step cap drops work silently: with every day switched off, an order keeps
      all of its minutes unplaced and shows no segment at all. */
  lemma ClosedWeekShowsNothing(order: WorkOrder, h: Hours)
    requires order.scheduledDate.Some? && order.estimatedDuration > 0
    requires forall w: Weekday :: w in h && !h[w].ativo
    ensures SegmentOrder(order, h) == []
    ensures UnplacedMinutes(order, h) == order.estimatedDuration
  {
    var segs := SegmentOrder(order, h);
    if |segs| > 0 {
      assert false;
    }
  }
}
