/** The agenda's week view: one row per active day of the Monday-anchored week, each
    segment clamped to the fixed 08:00–18:00 track, and the row's segments stacked into
    lanes, first fit, so that no two segments of a lane overlap. */
module WeekView {
  import opened Prelude
  import opened Types
  import opened BusinessHours
  import opened Sorting
  import opened Segmentation

  /** `BUSINESS_START_HOUR * 60` and `BUSINESS_DAY_MINUTES`: the track runs from 08:00
      for 600 minutes, whatever the business hours say. */
  const TrackStart: int := 480
  const TrackLength: int := 600

  // ---------------------------------------------------------------------------
  // The days of the week

  /** The Monday of the week holding `day`; a Sunday belongs to the week before. */
  function MondayOf(day: int): (m: int)
    ensures WeekdayOf(m) == Segunda
    ensures m <= day < m + 7
  {
    var w := day % 7;
    var m := day - w + (if w == 0 then -6 else 1);
    assert m % 7 == 1;
    m
  }

  /** The active days among `monday + i`, …, `monday + 6`. */
  function ActiveFrom(h: Hours, monday: int, i: nat): (days: seq<int>)
    requires i <= 7
    ensures forall k :: 0 <= k < |days| ==> monday + i <= days[k] < monday + 7 && OpenOn(h, days[k])
    ensures forall k, l :: 0 <= k < l < |days| ==> days[k] < days[l]
    ensures forall d :: monday + i <= d < monday + 7 && OpenOn(h, d) ==> d in days
    decreases 7 - i, monday
  {
    if i == 7 then []
    else (if OpenOn(h, monday + i) then [monday + i] else []) + ActiveFrom(h, monday, i + 1)
  }

  /** `weekDays`: the days Monday to Sunday of the week holding `current`, in order,
      keeping a day unless its entry is switched off. Without a business-hours table every
      day is kept, which is the reading of the empty table. */
  function WeekDays(current: int, h: Hours): (days: seq<int>)
    ensures forall k :: 0 <= k < |days| ==> MondayOf(current) <= days[k] < MondayOf(current) + 7
    ensures forall k, l :: 0 <= k < l < |days| ==> days[k] < days[l]
    ensures forall d :: MondayOf(current) <= d < MondayOf(current) + 7 ==> (d in days <==> OpenOn(h, d))
  {
    ActiveFrom(h, MondayOf(current), 0)
  }

  // ---------------------------------------------------------------------------
  // Clamping to the track

  /** A row event: the segment with its `safeOffset` and `safeDuration` on the track, from
      which `leftPct` and `widthPct` are the percentages of `TrackLength`. */
  datatype RowEvent = RowEvent(seg: Segment, offset: int, width: int)

  function Clamp(seg: Segment): (e: RowEvent)
    ensures e.seg == seg
    ensures 0 <= e.offset <= TrackLength
    ensures e.offset + e.width <= TrackLength
    ensures e.width <= seg.duration
    ensures TrackStart <= seg.startMin <= TrackStart + TrackLength ==> e.offset == seg.startMin - TrackStart
    ensures seg.startMin < TrackStart ==> e.offset == 0
    ensures TrackStart <= seg.startMin && End(seg) <= TrackStart + TrackLength ==> e.width == seg.duration
  {
    var startOffset := Max(0, seg.startMin - TrackStart);
    var safeOffset := Min(TrackLength, startOffset);
    RowEvent(seg, safeOffset, Min(seg.duration, TrackLength - safeOffset))
  }

  // ---------------------------------------------------------------------------
  // Lanes

  /** `lane.some(placed => ev.startMin < placedEnd && evEnd > placed.startMin)`. */
  predicate Collides(lane: seq<Segment>, ev: Segment) {
    exists i :: 0 <= i < |lane| && Overlap(ev, lane[i])
  }

  /** The first lane with no collision, or a new lane. */
  function LaneFor(lanes: seq<seq<Segment>>, ev: Segment): (k: nat)
    ensures k <= |lanes|
    ensures forall i :: 0 <= i < k ==> Collides(lanes[i], ev)
    ensures k < |lanes| ==> !Collides(lanes[k], ev)
  {
    if |lanes| == 0 || !Collides(lanes[0], ev) then 0
    else
      var k := 1 + LaneFor(lanes[1..], ev);
      assert forall i :: 1 <= i < k ==> lanes[i] == lanes[1..][i - 1];
      k
  }

  function PushLane(lanes: seq<seq<Segment>>, ev: Segment): (r: seq<seq<Segment>>)
    ensures |r| == if LaneFor(lanes, ev) < |lanes| then |lanes| else |lanes| + 1
    ensures r[LaneFor(lanes, ev)] == (if LaneFor(lanes, ev) < |lanes| then lanes[LaneFor(lanes, ev)] else []) + [ev]
    ensures forall i :: 0 <= i < |lanes| && i != LaneFor(lanes, ev) ==> r[i] == lanes[i]
  {
    var k := LaneFor(lanes, ev);
    if k < |lanes| then lanes[k := lanes[k] + [ev]] else lanes + [[ev]]
  }

  /** The lanes after stacking the first `n` events in order. */
  function Lanes(evs: seq<Segment>, n: nat): (lanes: seq<seq<Segment>>)
    requires n <= |evs|
    ensures |lanes| <= n
    ensures n > 0 ==> |lanes| > 0
  {
    if n == 0 then [] else PushLane(Lanes(evs, n - 1), evs[n - 1])
  }

  /** The lane event `j` is pushed on. */
  function LaneIndex(evs: seq<Segment>, j: nat): nat
    requires j < |evs|
  {
    LaneFor(Lanes(evs, j), evs[j])
  }

  /** No two events of one lane overlap. */
  predicate LanesClear(lanes: seq<seq<Segment>>) {
    forall k, i, j :: 0 <= k < |lanes| && 0 <= i < j < |lanes[k]| ==> !Overlap(lanes[k][i], lanes[k][j])
  }

  lemma ClearPush(lanes: seq<seq<Segment>>, ev: Segment)
    requires LanesClear(lanes)
    ensures LanesClear(PushLane(lanes, ev))
  {
    var r := PushLane(lanes, ev);
    var c := LaneFor(lanes, ev);
    forall k, i, j | 0 <= k < |r| && 0 <= i < j < |r[k]| ensures !Overlap(r[k][i], r[k][j]) {
      if k == c && j == |r[k]| - 1 {
        if c < |lanes| {
          assert r[k][i] == lanes[c][i];
          assert !Collides(lanes[c], ev);
        }
      } else if k == c {
        assert r[k][i] == lanes[c][i] && r[k][j] == lanes[c][j];
      }
    }
  }

  /** Stacking keeps every lane free of overlaps. */
  lemma {:induction false} LanesStayClear(evs: seq<Segment>, n: nat)
    requires n <= |evs|
    ensures LanesClear(Lanes(evs, n))
  {
    if n > 0 {
      LanesStayClear(evs, n - 1);
      ClearPush(Lanes(evs, n - 1), evs[n - 1]);
    }
  }

  /** Lanes only grow at their ends. */
  lemma {:induction false} LanesGrow(evs: seq<Segment>, m: nat, n: nat, k: nat)
    requires m <= n <= |evs|
    requires k < |Lanes(evs, m)|
    ensures k < |Lanes(evs, n)|
    ensures Lanes(evs, m)[k] <= Lanes(evs, n)[k]
    decreases n - m
  {
    if m < n {
      LanesGrow(evs, m, n - 1, k);
    }
  }

  /** An event stacked in lane `k` collides with some event that ends up in each lane
      below `k`. */
  lemma LaneIsFirstFree(evs: seq<Segment>, j: nat, k: nat)
    requires j < |evs|
    requires k < LaneIndex(evs, j)
    ensures k < |Lanes(evs, |evs|)|
    ensures Collides(Lanes(evs, |evs|)[k], evs[j])
  {
    var before := Lanes(evs, j)[k];
    LanesGrow(evs, j, |evs|, k);
    var i :| 0 <= i < |before| && Overlap(evs[j], before[i]);
    assert Lanes(evs, |evs|)[k][i] == before[i];
  }

  lemma {:induction false} FlattenPush(lanes: seq<seq<Segment>>, k: nat, ev: Segment)
    requires k < |lanes|
    ensures multiset(Flatten(lanes[k := lanes[k] + [ev]])) == multiset(Flatten(lanes)) + multiset{ev}
  {
    var r := lanes[k := lanes[k] + [ev]];
    if k > 0 {
      FlattenPush(lanes[1..], k - 1, ev);
      assert r[1..] == lanes[1..][k - 1 := lanes[1..][k - 1] + [ev]];
    } else {
      assert r[1..] == lanes[1..];
    }
  }

  lemma {:induction false} FlattenAppend(lanes: seq<seq<Segment>>, lane: seq<Segment>)
    ensures Flatten(lanes + [lane]) == Flatten(lanes) + lane
  {
    if |lanes| == 0 {
      assert Flatten([lane]) == lane + Flatten([]);
    } else {
      FlattenAppend(lanes[1..], lane);
      assert (lanes + [lane])[1..] == lanes[1..] + [lane];
    }
  }

  /** Every event stacked so far is in exactly one lane position. */
  lemma {:induction false} LanesHoldEveryEvent(evs: seq<Segment>, n: nat)
    requires n <= |evs|
    ensures multiset(Flatten(Lanes(evs, n))) == multiset(evs[..n])
  {
    if n == 0 {
      assert Lanes(evs, 0) == [] && evs[..0] == [];
    } else {
      LanesHoldEveryEvent(evs, n - 1);
      LanesStep(evs, n);
    }
  }

  /** Stacking one more event adds exactly that event to the lanes. */
  lemma LanesStep(evs: seq<Segment>, n: nat)
    requires 0 < n <= |evs|
    requires multiset(Flatten(Lanes(evs, n - 1))) == multiset(evs[..n - 1])
    ensures multiset(Flatten(Lanes(evs, n))) == multiset(evs[..n])
  {
    var prev, ev := Lanes(evs, n - 1), evs[n - 1];
    PushLaneHolds(prev, ev);
    PrefixMultiset(evs, n);
  }

  /** Pushing an event adds exactly that event to the lanes. */
  lemma PushLaneHolds(lanes: seq<seq<Segment>>, ev: Segment)
    ensures multiset(Flatten(PushLane(lanes, ev))) == multiset(Flatten(lanes)) + multiset{ev}
  {
    var k := LaneFor(lanes, ev);
    if k < |lanes| {
      FlattenPush(lanes, k, ev);
      assert PushLane(lanes, ev) == lanes[k := lanes[k] + [ev]];
    } else {
      FlattenAppend(lanes, [ev]);
      assert PushLane(lanes, ev) == lanes + [[ev]];
    }
  }

  // ---------------------------------------------------------------------------
  // A row

  /** A placed event: the clamped event and its `laneIndex`. */
  datatype LaneEvent = LaneEvent(ev: RowEvent, lane: nat)

  /** The segments of a day row: that day's, of the filtered mechanic. */
  function RowSegments(segs: seq<Segment>, day: int, mechanicFilter: string): (r: seq<Segment>)
    ensures forall i :: 0 <= i < |r| ==> r[i].day == day && MatchesMechanic(mechanicFilter, r[i].order.mechanicId)
    ensures forall s :: s in r <==> s in segs && s.day == day && MatchesMechanic(mechanicFilter, s.order.mechanicId)
  {
    var p := (s: Segment) => s.day == day && MatchesMechanic(mechanicFilter, s.order.mechanicId);
    assert forall s :: s in Filter(segs, p) <==> s in segs && p(s) by {
      forall s ensures s in Filter(segs, p) <==> s in segs && p(s) {
        FilterMembers(segs, p, s);
      }
    }
    Filter(segs, p)
  }

  function ByStart(s: Segment): Key {
    Key(s.startMin, 0)
  }

  /** One more than the highest lane used by `placed`; 0 when nothing is placed. */
  function LaneSpan(placed: seq<LaneEvent>): (r: nat)
    ensures forall i :: 0 <= i < |placed| ==> placed[i].lane < r
    ensures |placed| == 0 <==> r == 0
    ensures |placed| > 0 ==> exists i :: 0 <= i < |placed| && placed[i].lane == r - 1
  {
    if |placed| == 0 then 0
    else
      var init := placed[..|placed| - 1];
      var rest := LaneSpan(init);
      assert forall i :: 0 <= i < |init| ==> placed[i] == init[i];
      Max(rest, placed[|placed| - 1].lane + 1)
  }

  /** The events of a row sorted by start, each with its lane and its place on the track,
      and `maxLanes`: at least 1, and otherwise exactly the lanes the events use. */
  function WeekRow(segs: seq<Segment>, day: int, mechanicFilter: string): (row: (seq<LaneEvent>, nat))
    ensures row.1 == Max(1, LaneSpan(row.0))
    ensures forall i :: 0 <= i < |row.0| ==>
              var e := row.0[i].ev;
              0 <= e.offset && e.offset + e.width <= TrackLength
  {
    LaneRow(SortBy(RowSegments(segs, day, mechanicFilter), ByStart))
  }

  /** The sorted events of a row placed on their lanes, with the lane count. */
  function LaneRow(evs: seq<Segment>): (row: (seq<LaneEvent>, nat))
    ensures |row.0| == |evs|
    ensures forall j :: 0 <= j < |evs| ==> row.0[j].ev == Clamp(evs[j]) && row.0[j].lane == LaneIndex(evs, j)
    ensures row.1 == Max(1, LaneSpan(row.0))
  {
    var placed := PlaceAll(evs);
    LaneRowSpan(evs, placed);
    (placed, Max(1, |Lanes(evs, |evs|)|))
  }

  /** Each event clamped to the track and put on the lane it is stacked on. */
  function PlaceAll(evs: seq<Segment>): (placed: seq<LaneEvent>)
    ensures |placed| == |evs|
    ensures forall j :: 0 <= j < |evs| ==> placed[j].ev == Clamp(evs[j]) && placed[j].lane == LaneIndex(evs, j)
  {
    seq(|evs|, j requires 0 <= j < |evs| => LaneEvent(Clamp(evs[j]), LaneIndex(evs, j)))
  }

  /** The lanes the placed events use are exactly the lanes stacking opened. */
  lemma LaneRowSpan(evs: seq<Segment>, placed: seq<LaneEvent>)
    requires |placed| == |evs|
    requires forall j :: 0 <= j < |evs| ==> placed[j].lane == LaneIndex(evs, j)
    ensures LaneSpan(placed) == |Lanes(evs, |evs|)|
  {
    var n := |Lanes(evs, |evs|)|;
    if |evs| == 0 {
      assert Lanes(evs, 0) == [];
    } else {
      forall j | 0 <= j < |evs| ensures placed[j].lane < n {
        LaneCount(evs, j);
      }
      LastLaneOpened(evs, |evs|);
      var j :| 0 <= j < |evs| && LaneIndex(evs, j) == n - 1;
      SpanIs(placed, n, j);
    }
  }

  /** Lanes all below `n`, one of them `n - 1`: the span is `n`. */
  lemma SpanIs(placed: seq<LaneEvent>, n: nat, j: nat)
    requires j < |placed| && placed[j].lane + 1 == n
    requires forall i :: 0 <= i < |placed| ==> placed[i].lane < n
    ensures LaneSpan(placed) == n
  {
  }

  /** The highest lane was opened by one of the events stacked so far. */
  lemma {:induction false} LastLaneOpened(evs: seq<Segment>, m: nat)
    requires 0 < m <= |evs|
    ensures exists j :: 0 <= j < m && LaneIndex(evs, j) == |Lanes(evs, m)| - 1
  {
    var prev := Lanes(evs, m - 1);
    if LaneFor(prev, evs[m - 1]) < |prev| {
      LastLaneOpened(evs, m - 1);
    } else {
      assert LaneIndex(evs, m - 1) == |Lanes(evs, m)| - 1;
    }
  }

  /** Every event is stacked on an existing lane. */
  lemma LaneCount(evs: seq<Segment>, j: nat)
    requires j < |evs|
    ensures LaneIndex(evs, j) < |Lanes(evs, |evs|)|
  {
    LanesGrowCount(evs, j + 1, |evs|);
  }

  lemma {:induction false} LanesGrowCount(evs: seq<Segment>, m: nat, n: nat)
    requires m <= n <= |evs|
    ensures |Lanes(evs, m)| <= |Lanes(evs, n)|
    decreases n - m
  {
    if m < n {
      LanesGrowCount(evs, m, n - 1);
    }
  }

  /** A row shows exactly that day's segments of the filtered mechanic, in start order. */
  lemma WeekRowShows(segs: seq<Segment>, day: int, mechanicFilter: string)
    ensures var evs := SortBy(RowSegments(segs, day, mechanicFilter), ByStart);
            && (forall s :: s in evs <==> s in segs && s.day == day && MatchesMechanic(mechanicFilter, s.order.mechanicId))
            && (forall i, j :: 0 <= i < j < |evs| ==> evs[i].startMin <= evs[j].startMin)
  {
    var rowSegs := RowSegments(segs, day, mechanicFilter);
    var evs := SortBy(rowSegs, ByStart);
    forall s ensures s in evs <==> s in rowSegs {
      assert s in evs <==> s in multiset(evs);
      assert s in rowSegs <==> s in multiset(rowSegs);
    }
    forall i, j | 0 <= i < j < |evs| ensures evs[i].startMin <= evs[j].startMin {
      assert KeyLe(ByStart(evs[i]), ByStart(evs[j]));
    }
  }

  /** No two events of a row that share a lane overlap, and each event is the sorted
      row's event at its position. */
  lemma WeekRowLanesApart(segs: seq<Segment>, day: int, mechanicFilter: string)
    ensures var evs := SortBy(RowSegments(segs, day, mechanicFilter), ByStart);
            var row := WeekRow(segs, day, mechanicFilter);
            && |row.0| == |evs|
            && (forall i :: 0 <= i < |evs| ==> row.0[i].ev.seg == evs[i] && row.0[i].lane == LaneIndex(evs, i))
            && (forall i, j :: 0 <= i < j < |evs| && row.0[i].lane == row.0[j].lane ==> !Overlap(evs[i], evs[j]))
  {
    var evs := SortBy(RowSegments(segs, day, mechanicFilter), ByStart);
    forall i, j | 0 <= i < j < |evs| && LaneIndex(evs, i) == LaneIndex(evs, j) ensures !Overlap(evs[i], evs[j]) {
      SameLaneApart(evs, i, j);
    }
  }

  /** Two events stacked on the same lane do not overlap. */
  lemma SameLaneApart(evs: seq<Segment>, i: nat, j: nat)
    requires i < j < |evs|
    requires LaneIndex(evs, i) == LaneIndex(evs, j)
    ensures !Overlap(evs[i], evs[j])
  {
    var k := LaneIndex(evs, i);
    var lanes := Lanes(evs, j);
    LanesGrow(evs, i + 1, j, k);
    var lane := Lanes(evs, i + 1)[k];
    assert lane[|lane| - 1] == evs[i];
    assert lanes[k][|lane| - 1] == evs[i];
    assert !Collides(lanes[k], evs[j]);
  }
}
