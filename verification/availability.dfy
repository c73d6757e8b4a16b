/** The hourly availability grid of the booking panel: eleven slots from 08:00 to
    18:00, each free, busy, or taken for its first half by an order that ends inside
    it. Only orders of the chosen mechanic on the chosen day count, and the order being
    booked is not left out. */
module Availability {
  import opened Prelude
  import opened Types
  import opened Clock

  const SlotCount: nat := 11

  /** The start of slot `i`: 08:00 plus `i` hours. */
  function SlotStart(i: nat): nat { 480 + 60 * i }

  /** `timeSlots`: the labels of the slots, `${h.padStart(2, '0')}:00` for h = 8 … 18. */
  function TimeSlots(): (r: seq<string>)
    ensures |r| == SlotCount
    ensures forall i :: 0 <= i < SlotCount ==> ParseClock(r[i]) == Some(SlotStart(i))
  {
    var r := seq(SlotCount, i requires 0 <= i < SlotCount => FormatClock(SlotStart(i)));
    assert forall i :: 0 <= i < SlotCount ==> ParseClock(r[i]) == Some(SlotStart(i)) by {
      forall i | 0 <= i < SlotCount ensures ParseClock(r[i]) == Some(SlotStart(i)) {
        ParseFormat(SlotStart(i));
      }
    }
    r
  }

  lemma TimeSlotsSpelledOut()
    ensures TimeSlots()[0] == "08:00" && TimeSlots()[10] == "18:00"
  {
    assert NatToString(8) == "8";
    assert TwoDigits(8) == "08";
    assert TwoDigits(0) == "00";
    assert NatToString(18) == "18";
    assert TwoDigits(18) == "18";
  }

  datatype SlotState = Free | Busy | PartialStart(startAt: string)

  // ---------------------------------------------------------------------------
  // Orders on a day

  /** `o.mechanicId === mechanic && o.scheduledDate?.startsWith(date)`. */
  predicate OnDay(o: WorkOrder, mechanic: string, day: int) {
    o.mechanicId == Some(mechanic) && o.scheduledDate.Some? && o.scheduledDate.value.day == day
  }

  /** The start minute of a scheduled order. */
  function StartOf(o: WorkOrder): nat
    requires o.scheduledDate.Some?
  {
    o.scheduledDate.value.minute
  }

  /** The end minute of a scheduled order; a missing duration counts as 60. */
  function EndOf(o: WorkOrder): (e: nat)
    requires o.scheduledDate.Some?
    ensures e > StartOf(o)
  {
    StartOf(o) + DurationOr60(o.estimatedDuration)
  }

  /** `dayOrders`. */
  function DayOrders(orders: seq<WorkOrder>, mechanic: string, day: int): (r: seq<WorkOrder>)
    ensures forall o :: o in r <==> o in orders && OnDay(o, mechanic, day)
  {
    var r := Filter(orders, o => OnDay(o, mechanic, day));
    assert forall o :: o in r <==> o in orders && OnDay(o, mechanic, day) by {
      forall o ensures o in r <==> o in orders && OnDay(o, mechanic, day) {
        FilterMembers(orders, o => OnDay(o, mechanic, day), o);
      }
    }
    r
  }

  // ---------------------------------------------------------------------------
  // One slot

  /** The order covers the whole hour starting at `slotStart`. */
  predicate Covers(o: WorkOrder, slotStart: int) {
    o.scheduledDate.Some? && StartOf(o) <= slotStart && slotStart + 60 <= EndOf(o)
  }

  /** The order has started by `slotStart` and ends inside the hour, at least 30
      minutes in. */
  predicate HalfCovers(o: WorkOrder, slotStart: int) {
    o.scheduledDate.Some? && StartOf(o) <= slotStart && slotStart + 30 <= EndOf(o) < slotStart + 60
  }

  /** What one order of `dayOrders.forEach` does to `isFullyOccupied` and
      `isPartiallyOccupied`, with the source's guards as written. */
  function SlotFlags(o: WorkOrder, slotStart: int): (r: (bool, bool))
    ensures r.0 <==> Covers(o, slotStart)
    ensures r.1 <==> HalfCovers(o, slotStart)
  {
    if o.scheduledDate.None? then (false, false)
    else
      var osStart := StartOf(o);
      var osEnd := EndOf(o);
      var slotEnd := slotStart + 60;
      if osStart < slotEnd && osEnd > slotStart then
        if osStart <= slotStart && osEnd >= slotEnd then (true, false)
        else if osStart <= slotStart && osEnd > slotStart && osEnd < slotEnd then (false, osEnd - slotStart >= 30)
        else (false, false)
      else (false, false)
  }

  /** The two flags after the first `k` orders. */
  function Scan(ds: seq<WorkOrder>, slotStart: int, k: nat): (r: (bool, bool))
    requires k <= |ds|
    ensures r.0 <==> exists j :: 0 <= j < k && Covers(ds[j], slotStart)
    ensures r.1 <==> exists j :: 0 <= j < k && HalfCovers(ds[j], slotStart)
  {
    if k == 0 then (false, false)
    else
      var (full, partial) := Scan(ds, slotStart, k - 1);
      var (f, p) := SlotFlags(ds[k - 1], slotStart);
      (full || f, partial || p)
  }

  /** The state of slot `i` for the day's orders `ds`. */
  function StateOfSlot(ds: seq<WorkOrder>, i: nat): (r: SlotState)
    ensures r == Busy <==> exists o :: o in ds && Covers(o, SlotStart(i))
    ensures r.PartialStart? <==> (forall o :: o in ds ==> !Covers(o, SlotStart(i)))
                                 && exists o :: o in ds && HalfCovers(o, SlotStart(i))
    ensures r.PartialStart? ==> ParseClock(r.startAt) == Some(SlotStart(i) + 30)
  {
    var (full, partial) := Scan(ds, SlotStart(i), |ds|);
    if full then Busy
    else if partial then PartialStart(HalfPast(i))
    else Free
  }

  /** `${slot.split(':')[0]}:30`: the half hour of slot `i`. */
  function HalfPast(i: nat): (r: string)
    ensures ParseClock(r) == Some(SlotStart(i) + 30)
  {
    var h := 8 + i;
    assert SlotStart(i) + 30 == 60 * h + 30;
    HalfPastOf(h)
  }

  /** Hour `h` and a half, written "HH:30". */
  function HalfPastOf(h: nat): (r: string)
    ensures ParseClock(r) == Some(60 * h + 30)
  {
    var hh := TwoDigits(h);
    assert AllDigits(hh) && DigitsValue(hh) == h by { TwoDigitsValue(h); }
    ReadHalfPast(hh, h);
    hh + ":" + Thirty()
  }

  /** The minutes of a half hour, as written. */
  function Thirty(): (r: string)
    ensures AllDigits(r) && DigitsValue(r) == 30
  {
    "30"
  }

  /** An hour written in digits, then ":30", reads as that hour and a half. */
  lemma ReadHalfPast(hh: string, h: nat)
    requires AllDigits(hh) && DigitsValue(hh) == h
    ensures ParseClock(hh + ":" + Thirty()) == Some(60 * h + 30)
  {
    var mm := Thirty();
    ParseDigitPieces(hh, mm);
    assert DigitsValue(hh) * 60 + DigitsValue(mm) == 60 * h + 30;
  }

  /** The grid of one mechanic's day. A slot is busy when some order of that mechanic
      on that day covers it, partial when none does but one has started by the slot's
      start and ends at least 30 minutes into it, and free otherwise. */
  function DaySlots(orders: seq<WorkOrder>, mechanic: string, day: int): (r: seq<SlotState>)
    ensures |r| == SlotCount
    ensures forall i :: 0 <= i < |r| ==>
              (r[i] == Busy <==> exists o :: o in orders && OnDay(o, mechanic, day) && Covers(o, SlotStart(i)))
    ensures forall i :: 0 <= i < |r| ==>
              (r[i].PartialStart? <==>
                 (forall o :: o in orders && OnDay(o, mechanic, day) ==> !Covers(o, SlotStart(i)))
                 && exists o :: o in orders && OnDay(o, mechanic, day) && HalfCovers(o, SlotStart(i)))
    ensures forall i :: 0 <= i < |r| && r[i].PartialStart? ==> ParseClock(r[i].startAt) == Some(SlotStart(i) + 30)
  {
    var ds := DayOrders(orders, mechanic, day);
    var r := seq(SlotCount, i requires 0 <= i < SlotCount => StateOfSlot(ds, i));
    forall i | 0 <= i < SlotCount
      ensures r[i] == Busy <==> exists o :: o in orders && OnDay(o, mechanic, day) && Covers(o, SlotStart(i))
      ensures r[i].PartialStart? <==>
                (forall o :: o in orders && OnDay(o, mechanic, day) ==> !Covers(o, SlotStart(i)))
                && exists o :: o in orders && OnDay(o, mechanic, day) && HalfCovers(o, SlotStart(i))
    {
      SlotOfDay(orders, mechanic, day, ds, i);
    }
    r
  }

  /** A slot's state over the day's orders, in terms of the whole list. */
  lemma SlotOfDay(orders: seq<WorkOrder>, mechanic: string, day: int, ds: seq<WorkOrder>, i: nat)
    requires forall o :: o in ds <==> o in orders && OnDay(o, mechanic, day)
    ensures var r := StateOfSlot(ds, i);
            && (r == Busy <==> exists o :: o in orders && OnDay(o, mechanic, day) && Covers(o, SlotStart(i)))
            && (r.PartialStart? <==>
                  (forall o :: o in orders && OnDay(o, mechanic, day) ==> !Covers(o, SlotStart(i)))
                  && exists o :: o in orders && OnDay(o, mechanic, day) && HalfCovers(o, SlotStart(i)))
  {
  }

  /** `slotStatus`: nothing without a mechanic or a date, otherwise one state per slot
      of `TimeSlots()`, as `DaySlots` describes. */
  function SlotStatus(orders: seq<WorkOrder>, mechanic: string, date: Option<int>): (r: seq<SlotState>)
    ensures mechanic == "" || date.None? ==> r == []
    ensures mechanic != "" && date.Some? ==> r == DaySlots(orders, mechanic, date.value)
  {
    if mechanic == "" || date.None? then []
    else DaySlots(orders, mechanic, date.value)
  }

  /** An order from 13:15 to 14:15 leaves both the 13:00 and the 14:00 slot free: it
      starts after the first and ends less than 30 minutes into the second. */
  lemma QuarterPastLeavesBothFree(o: WorkOrder, mechanic: string)
    requires mechanic != ""
    requires o.mechanicId == Some(mechanic) && o.scheduledDate == Some(DateTime(10, 795))
    requires o.estimatedDuration == 0
    ensures SlotStatus([o], mechanic, Some(10))[5] == Free
    ensures SlotStatus([o], mechanic, Some(10))[6] == Free
  {
    var r := SlotStatus([o], mechanic, Some(10));
    assert SlotStart(5) == 780 && SlotStart(6) == 840;
    assert !Covers(o, 780) && !HalfCovers(o, 780);
    assert !Covers(o, 840) && !HalfCovers(o, 840);
    assert forall p :: p in [o] ==> p == o;
  }
}
