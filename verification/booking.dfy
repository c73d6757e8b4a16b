/** Committing a stage change from the order screen (`finalizeStageChange` and
    `executeStageChange`): when a date and a time are being set, the booking is checked
    in a fixed order — a time in the past, a clash with another order of the same
    mechanic, a closed day, a start before opening — and a booking that runs past
    closing time asks for confirmation, naming the continuation on the next business
    day. The first failing check stops the commit. */
module Booking {
  import opened Prelude
  import opened Types
  import opened BusinessHours
  import opened Clock
  import opened Availability
  import opened AssemblyTime

  /** The inputs of the scheduling panel: whether it is open, whether the order is
      being rescheduled, and the chosen mechanic, date ('' is `None`) and time. */
  datatype Request = Request(showScheduling: bool, rescheduling: bool, mechanic: string, date: Option<int>, time: TimeField)

  /** What pressing the button leads to: nothing, an error alert, a confirmation that
      commits when accepted, or the commit itself. */
  datatype Outcome =
    | NothingToDo
    | PastTime
    | Conflict(orderId: string, startsAt: string)
    | ClosedDay
    | BeforeOpening
    | SplitConfirm(nextDay: int, nextStart: nat, nextEnd: nat, busy: bool)
    | OverClosingConfirm
    | Execute

  /** The instant of a day and minute in milliseconds, the scale of `Date` comparisons. */
  function Stamp(day: int, minute: nat): int { (day * 1440 + minute) * 60000 }

  /** There is a stage to move to, or a reschedule. */
  predicate Asked(target: Option<OSStatus>, req: Request) {
    target.Some? || req.rescheduling
  }

  /** `showScheduling && tempTime && tempDate`: the booking checks run. */
  predicate Checked(req: Request) {
    req.showScheduling && req.time.At? && req.date.Some?
  }

  // ---------------------------------------------------------------------------
  // Direct conflict

  /** An order other than `self`, of `mechanic` on `day`, whose time overlaps
      `[start, end)`. */
  predicate Clashes(o: WorkOrder, self: WorkOrder, mechanic: string, day: int, start: int, end: int) {
    o.id != self.id && OnDay(o, mechanic, day) && start < EndOf(o) && end > StartOf(o)
  }

  predicate Within(t: int, lo: int, hi: int) {
    lo <= t < hi
  }

  /** For a booking of positive length, the overlap test is exactly "some minute lies in
      both the booking and the other order". */
  lemma ClashIsSharedMinute(o: WorkOrder, self: WorkOrder, mechanic: string, day: int, start: int, end: int)
    requires start < end
    ensures Clashes(o, self, mechanic, day, start, end) <==>
              && o.id != self.id && OnDay(o, mechanic, day)
              && exists t :: Within(t, start, end) && Within(t, StartOf(o), EndOf(o))
  {
    if Clashes(o, self, mechanic, day, start, end) {
      var t := if start < StartOf(o) then StartOf(o) else start;
      assert Within(t, start, end) && Within(t, StartOf(o), EndOf(o));
    }
  }

  /** `orders.find(...)` of the conflict check: the first clashing order. */
  function FirstClash(orders: seq<WorkOrder>, self: WorkOrder, mechanic: string, day: int, start: int, end: int)
    : (r: Option<nat>)
    ensures r.Some? ==> r.value < |orders| && Clashes(orders[r.value], self, mechanic, day, start, end)
    ensures r.Some? ==> forall j :: 0 <= j < r.value ==> !Clashes(orders[j], self, mechanic, day, start, end)
    ensures r.None? <==> forall j :: 0 <= j < |orders| ==> !Clashes(orders[j], self, mechanic, day, start, end)
  {
    FindFrom(orders, (o: WorkOrder) => Clashes(o, self, mechanic, day, start, end), 0)
  }

  // ---------------------------------------------------------------------------
  // Overflow into the next business day

  /** `config && config.ativo` for the weekday of `day`. */
  predicate ContinuesOn(h: Hours, day: int) {
    AcceptsContinuation(h, WeekdayOf(day))
  }

  /** The first of the days `day + k` … `day + 7` that qualifies as a business day
      for the continuation, as an offset. */
  function NextActive(h: Hours, day: int, k: nat): (r: Option<nat>)
    requires 1 <= k
    ensures r.Some? ==> k <= r.value <= 7 && ContinuesOn(h, day + r.value)
    ensures r.Some? ==> forall d :: day + k <= d < day + r.value ==> !ContinuesOn(h, d)
    ensures r.None? <==> forall d :: day + k <= d <= day + 7 ==> !ContinuesOn(h, d)
    decreases 8 - k, day
  {
    if k > 7 then None
    else if ContinuesOn(h, day + k) then Some(k)
    else NextActive(h, day, k + 1)
  }

  /** Some order of `mechanic` on `day` — the one being booked included — overlaps
      `[start, end)`. */
  predicate BusyOn(orders: seq<WorkOrder>, mechanic: string, day: int, start: int, end: int) {
    exists o :: o in orders && OnDay(o, mechanic, day) && StartOf(o) < end && EndOf(o) > start
  }

  /** `isNextSlotBusy`, as the loop over `nextDayOrders` computes it. */
  function NextSlotBusy(orders: seq<WorkOrder>, mechanic: string, day: int, start: int, end: int): (b: bool)
    ensures b <==> BusyOn(orders, mechanic, day, start, end)
  {
    var ds := DayOrders(orders, mechanic, day);
    var hit := FindFrom(ds, (o: WorkOrder) => o.scheduledDate.Some? && StartOf(o) < end && EndOf(o) > start, 0);
    assert hit.Some? ==> ds[hit.value] in ds;
    hit.Some?
  }

  /** The overflow branch, reached with `end` past `closing`: the continuation on the
      next day whose entry exists and is switched on, starting at its opening time (or
      08:00) and lasting the minutes that did not fit. */
  function Overflow(orders: seq<WorkOrder>, mechanic: string, h: Hours, day: int, end: int, closing: int): (r: Outcome)
    requires end > closing
    ensures r.SplitConfirm? || r == OverClosingConfirm
    ensures r == OverClosingConfirm <==> forall d :: day + 1 <= d <= day + 7 ==> !ContinuesOn(h, d)
    ensures r.SplitConfirm? ==>
              day < r.nextDay <= day + 7
              && ContinuesOn(h, r.nextDay)
              && (forall d :: day + 1 <= d < r.nextDay ==> !ContinuesOn(h, d))
              && r.nextStart == OrDefault(h[WeekdayOf(r.nextDay)].inicio, DefaultOpening)
              && r.nextEnd - r.nextStart == end - closing
              && (r.busy <==> BusyOn(orders, mechanic, r.nextDay, r.nextStart, r.nextEnd))
  {
    match NextActive(h, day, 1)
    case None => OverClosingConfirm
    case Some(k) =>
      var next := day + k;
      var nextStart := OrDefault(h[WeekdayOf(next)].inicio, DefaultOpening);
      var nextEnd := nextStart + (end - closing);
      SplitConfirm(next, nextStart, nextEnd, NextSlotBusy(orders, mechanic, next, nextStart, nextEnd))
  }

  // ---------------------------------------------------------------------------
  // The chain

  /** Some other order of the mechanic that day overlaps `[start, end)`. */
  predicate HasClash(orders: seq<WorkOrder>, self: WorkOrder, mechanic: string, day: int, start: int, end: int) {
    exists i :: 0 <= i < |orders| && Clashes(orders[i], self, mechanic, day, start, end)
  }

  /** `r` is the conflict alert for the first clashing order in list order: its id and
      its start, written as "HH:MM". */
  predicate ReportsFirstClash(orders: seq<WorkOrder>, self: WorkOrder, mechanic: string, day: int, start: int, end: int, r: Outcome) {
    exists i :: 0 <= i < |orders|
                && Clashes(orders[i], self, mechanic, day, start, end)
                && (forall j :: 0 <= j < i ==> !Clashes(orders[j], self, mechanic, day, start, end))
                && r.Conflict? && r.orderId == orders[i].id
                && ParseClock(r.startsAt) == Some(StartOf(orders[i]))
  }

  /** The conflict alert for `o`, naming it and its "HH:MM" start. */
  function ConflictWith(o: WorkOrder): (r: Outcome)
    requires o.scheduledDate.Some?
    ensures r.Conflict? && r.orderId == o.id && ParseClock(r.startsAt) == Some(StartOf(o))
  {
    ParseFormat(StartOf(o));
    Conflict(o.id, FormatClock(StartOf(o)))
  }

  /** The conflict alert, if any: `conflict` and the message naming it. */
  function ConflictAlert(orders: seq<WorkOrder>, self: WorkOrder, mechanic: string, day: int, start: int, end: int)
    : (r: Option<Outcome>)
    ensures r.None? <==> !HasClash(orders, self, mechanic, day, start, end)
    ensures r.Some? ==> r.value.Conflict? && ReportsFirstClash(orders, self, mechanic, day, start, end, r.value)
  {
    match FirstClash(orders, self, mechanic, day, start, end)
    case None => None
    case Some(i) =>
      var alert := ConflictWith(orders[i]);
      assert ReportsFirstClash(orders, self, mechanic, day, start, end, alert);
      Some(alert)
  }

  /** The business-hours checks, in order: a day switched off, a start before opening,
      an end past closing (the overflow branch), else the commit. */
  function DayRules(orders: seq<WorkOrder>, mechanic: string, h: Hours, day: int, start: int, end: int): (r: Outcome)
    ensures r.ClosedDay? || r.BeforeOpening? || r.SplitConfirm? || r.OverClosingConfirm? || r.Execute?
    ensures var w := WeekdayOf(day);
            && (r == ClosedDay <==> ClosedForBooking(h, w))
            && (r == BeforeOpening <==> !ClosedForBooking(h, w) && start < OpeningMinute(h, w))
            && (r.SplitConfirm? || r == OverClosingConfirm <==>
                  !ClosedForBooking(h, w) && start >= OpeningMinute(h, w) && end > ClosingMinute(h, w))
            && (r == Execute <==>
                  !ClosedForBooking(h, w) && start >= OpeningMinute(h, w) && end <= ClosingMinute(h, w))
  {
    var w := WeekdayOf(day);
    if ClosedForBooking(h, w) then ClosedDay
    else if start < OpeningMinute(h, w) then BeforeOpening
    else if end > ClosingMinute(h, w) then Overflow(orders, mechanic, h, day, end, ClosingMinute(h, w))
    else Execute
  }

  /** The checks for a booking of `self` by `mechanic` on `day` from `start`, in the
      source's order: the past, then a clash (reporting the first clashing order in
      list order), then the business hours. */
  function CheckSlot(self: WorkOrder, mechanic: string, day: int, start: nat, orders: seq<WorkOrder>, h: Hours, now: int)
    : (r: Outcome)
    ensures r == PastTime <==> Stamp(day, start) < now
    ensures var end := start + DurationOr60(self.estimatedDuration);
            r.Conflict? <==> Stamp(day, start) >= now && HasClash(orders, self, mechanic, day, start, end)
    ensures var end := start + DurationOr60(self.estimatedDuration);
            Stamp(day, start) >= now && !HasClash(orders, self, mechanic, day, start, end)
            ==> r == DayRules(orders, mechanic, h, day, start, end)
    ensures r.Conflict? ==>
              ReportsFirstClash(orders, self, mechanic, day, start, start + DurationOr60(self.estimatedDuration), r)
  {
    var end := start + DurationOr60(self.estimatedDuration);
    if Stamp(day, start) < now then PastTime
    else
      var alert := ConflictAlert(orders, self, mechanic, day, start, end);
      if alert.Some? then alert.value
      else
        var rules := DayRules(orders, mechanic, h, day, start, end);
        assert !rules.Conflict? && !rules.PastTime?;
        rules
  }

  /** `finalizeStageChange`: nothing without a stage to move to or a reschedule; the
      commit straight away when no date and time are being set; the checks otherwise. */
  function Validate(self: WorkOrder, target: Option<OSStatus>, req: Request, orders: seq<WorkOrder>, h: Hours, now: int)
    : (r: Outcome)
    ensures r == NothingToDo <==> !Asked(target, req)
    ensures Asked(target, req) && !Checked(req) ==> r == Execute
    ensures Asked(target, req) && Checked(req) ==>
              r == CheckSlot(self, req.mechanic, req.date.value, req.time.mins, orders, h, now)
  {
    if !Asked(target, req) then NothingToDo
    else if !Checked(req) then Execute
    else CheckSlot(self, req.mechanic, req.date.value, req.time.mins, orders, h, now)
  }

  /** The outcomes that lead to `executeStageChange`, at once or after confirmation. */
  predicate Commits(r: Outcome) {
    r == Execute || r.SplitConfirm? || r == OverClosingConfirm
  }

  /** A booking that gets committed is not in the past, clashes with no other order of
      the mechanic that day, is on a day not switched off, and starts at or after
      opening time. */
  lemma CommitsOnlyWhenChecksPass(self: WorkOrder, target: Option<OSStatus>, req: Request, orders: seq<WorkOrder>, h: Hours, now: int)
    requires Commits(Validate(self, target, req, orders, h, now)) && Checked(req)
    ensures var day := req.date.value;
            var start := req.time.mins;
            var end := start + DurationOr60(self.estimatedDuration);
            && Stamp(day, start) >= now
            && (forall o :: o in orders ==> !Clashes(o, self, req.mechanic, day, start, end))
            && !ClosedForBooking(h, WeekdayOf(day))
            && start >= OpeningMinute(h, WeekdayOf(day))
  {
    var day := req.date.value;
    var start := req.time.mins;
    var end := start + DurationOr60(self.estimatedDuration);
    assert !HasClash(orders, self, req.mechanic, day, start, end);
    forall o | o in orders ensures !Clashes(o, self, req.mechanic, day, start, end) {
      var i :| 0 <= i < |orders| && orders[i] == o;
    }
  }

  /** With no business-hours table at all, an overflowing booking is never split:
      every day counts as open for the closed-day check, yet no day qualifies for the
      continuation. */
  lemma NoTableNeverSplits(self: WorkOrder, target: Option<OSStatus>, req: Request, orders: seq<WorkOrder>, now: int)
    ensures !Validate(self, target, req, orders, map[], now).SplitConfirm?
  {
    var h: Hours := map[];
    assert forall d :: !ContinuesOn(h, d);
  }

  // ---------------------------------------------------------------------------
  // The commit

  /** Index `i` holds the order's vehicle: the first vehicle whose id is the order's. */
  predicate OwnVehicle(self: WorkOrder, vehicles: seq<Vehicle>, i: int) {
    && 0 <= i < |vehicles| && vehicles[i].id == self.vehicleId
    && forall j :: 0 <= j < i ==> vehicles[j].id != self.vehicleId
  }

  /** Brands are compared ignoring case. */
  predicate SameBrand(g: Gearbox, v: Vehicle) {
    Lower(g.brand) == Lower(v.brand)
  }

  /** Index `k` holds the first gearbox of the vehicle's brand. */
  predicate BrandGearbox(gearboxes: seq<Gearbox>, v: Vehicle, k: int) {
    && 0 <= k < |gearboxes| && SameBrand(gearboxes[k], v)
    && forall j :: 0 <= j < k ==> !SameBrand(gearboxes[j], v)
  }

  /** `gearboxes.find(e => e.brand.toLowerCase() === vehicle.brand.toLowerCase())` for
      the order's vehicle, `vehicles.find(v => v.id === order.vehicleId)`: none when no
      vehicle has the order's id or no gearbox has that vehicle's brand, and otherwise
      the first gearbox of the brand of the first such vehicle. */
  function LinkedGearbox(self: WorkOrder, vehicles: seq<Vehicle>, gearboxes: seq<Gearbox>): (r: Option<Gearbox>)
    ensures r.Some? ==> exists v :: v in vehicles && v.id == self.vehicleId && Lower(r.value.brand) == Lower(v.brand)
    ensures r.Some? ==> r.value in gearboxes
    ensures (forall i :: 0 <= i < |vehicles| ==> vehicles[i].id != self.vehicleId) ==> r.None?
    ensures forall i {:trigger OwnVehicle(self, vehicles, i)} :: OwnVehicle(self, vehicles, i) ==>
              (r.None? <==> forall j :: 0 <= j < |gearboxes| ==> !SameBrand(gearboxes[j], vehicles[i]))
    ensures forall i, k {:trigger OwnVehicle(self, vehicles, i), BrandGearbox(gearboxes, vehicles[i], k)} ::
              OwnVehicle(self, vehicles, i) && BrandGearbox(gearboxes, vehicles[i], k) ==> r == Some(gearboxes[k])
  {
    match FindFrom(vehicles, (v: Vehicle) => v.id == self.vehicleId, 0)
    case None => None
    case Some(i) =>
      assert forall i' {:trigger OwnVehicle(self, vehicles, i')} :: OwnVehicle(self, vehicles, i') ==> i' == i;
      match FindFrom(gearboxes, (g: Gearbox) => SameBrand(g, vehicles[i]), 0)
      case None => None
      case Some(k) =>
        assert forall k' {:trigger BrandGearbox(gearboxes, vehicles[i], k')} :: BrandGearbox(gearboxes, vehicles[i], k') ==> k' == k;
        Some(gearboxes[k])
  }

  /** The duration written by the commit: the gearbox's assembly time read by the
      60-minute variant of `parseDuration`, or 60 without a gearbox or assembly time. */
  function CommitDuration(self: WorkOrder, vehicles: seq<Vehicle>, gearboxes: seq<Gearbox>): (d: nat)
    ensures d > 0
    ensures LinkedGearbox(self, vehicles, gearboxes).None? ==> d == 60
    ensures LinkedGearbox(self, vehicles, gearboxes).Some?
            ==> d == ParseDurationOr60(LinkedGearbox(self, vehicles, gearboxes).value.assemblyTime)
  {
    match LinkedGearbox(self, vehicles, gearboxes)
    case Some(g) => if g.assemblyTime != "" then ParseDurationOr60(g.assemblyTime) else 60
    case None => 60
  }

  /** `executeStageChange`: with the panel open, the mechanic, the date and time and the
      duration from the gearbox are written; the status moves to the target when there
      is one. Nothing else changes. A date or time left blank is written as no date. */
  function ExecuteStageChange(self: WorkOrder, target: Option<OSStatus>, req: Request, vehicles: seq<Vehicle>, gearboxes: seq<Gearbox>)
    : (r: WorkOrder)
    ensures r.status == (if target.Some? then target.value else self.status)
    ensures req.showScheduling ==>
              && r.mechanicId == Some(req.mechanic)
              && r.scheduledDate == (if req.date.Some? && req.time.At? then Some(DateTime(req.date.value, req.time.mins)) else None)
              && r.estimatedDuration == CommitDuration(self, vehicles, gearboxes)
    ensures !req.showScheduling ==>
              r.mechanicId == self.mechanicId && r.scheduledDate == self.scheduledDate
              && r.estimatedDuration == self.estimatedDuration
    ensures r.(status := self.status, mechanicId := self.mechanicId, scheduledDate := self.scheduledDate,
               estimatedDuration := self.estimatedDuration) == self
  {
    var scheduled :=
      if req.showScheduling then
        self.(mechanicId := Some(req.mechanic),
              scheduledDate := if req.date.Some? && req.time.At? then Some(DateTime(req.date.value, req.time.mins)) else None,
              estimatedDuration := CommitDuration(self, vehicles, gearboxes))
      else self;
    if target.Some? then scheduled.(status := target.value) else scheduled
  }

  /** The checks and the commit use different durations: an order with no duration is
      checked as one hour, fits before closing and is committed, and the commit then
      stores the five hours of its gearbox, which run past closing. */
  lemma CheckedAsOneHourCommittedAsFive(self: WorkOrder, v: Vehicle, g: Gearbox, mechanic: string)
    requires self.estimatedDuration == 0 && self.vehicleId == v.id
    requires Lower(g.brand) == Lower(v.brand) && g.assemblyTime == "5h"
    ensures var req := Request(true, false, mechanic, Some(10), At(960));
            var committed := ExecuteStageChange(self, Some(Scheduled), req, [v], [g]);
            && Validate(self, Some(Scheduled), req, [self], map[], 0) == Execute
            && committed.estimatedDuration == 300
            && 960 + committed.estimatedDuration > DefaultClosing
  {
    var req := Request(true, false, mechanic, Some(10), At(960));
    AloneInTheDay(self, req);
    LinkedToTheOnlyGearbox(self, v, g);
    FiveHours();
  }

  /** An order booked on an otherwise empty list, in the future, with no hours table,
      within the default opening hours, is committed. */
  lemma AloneInTheDay(self: WorkOrder, req: Request)
    requires self.estimatedDuration == 0 && req == Request(true, false, req.mechanic, Some(10), At(960))
    ensures Validate(self, Some(Scheduled), req, [self], map[], 0) == Execute
  {
    assert !Clashes(self, self, req.mechanic, 10, 960, 1020);
    assert !HasClash([self], self, req.mechanic, 10, 960, 1020);
    assert !ClosedForBooking(map[], WeekdayOf(10));
    assert OpeningMinute(map[], WeekdayOf(10)) == 480 && ClosingMinute(map[], WeekdayOf(10)) == 1080;
  }

  lemma LinkedToTheOnlyGearbox(self: WorkOrder, v: Vehicle, g: Gearbox)
    requires self.vehicleId == v.id && Lower(g.brand) == Lower(v.brand)
    ensures LinkedGearbox(self, [v], [g]) == Some(g)
  {
    assert OwnVehicle(self, [v], 0) && BrandGearbox([g], [v][0], 0);
  }

  lemma FiveHours()
    ensures ParseDurationOr60("5h") == 300
  {
    ParseHours("5");
    assert "5" + "h" == "5h";
    assert DigitsValue("5") == 5;
  }
}
