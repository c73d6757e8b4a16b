# Workshop scheduling engine — a Dafny model

This project models the scheduling core of a workshop (gearbox repair) management
application, together with the small validators and generators around it:

- **Segmentation** (`processOrdersForView`): an order's estimated duration is laid out
  over consecutive calendar days, one segment a day, inside each day's business hours,
  for at most seven day-steps.
- **Column layout** (`layoutEvents`): the day view sorts segments, cuts them into
  clusters of transitively overlapping segments and packs each cluster into columns,
  first fit.
- **Week view**: the Monday-anchored list of active days, the clamping of a segment
  onto the fixed 08:00–18:00 track, and first-fit lane stacking.
- **Availability and booking**: the hourly slot grid (free, busy, partial) and the
  ordered check chain run before a booking is committed, with the overflow
  continuation onto the next business day, then the commit itself.
- **Order flow**: the stage machine (next and previous stage, revert) and the
  checklist and budget-line edits, including the "smart add" that merges a line.
- **Validators and generators**: licence plates, assembly-time labels and
  `parseDuration`, the `AUTO-NNNN` gearbox codes, the new-order form, the stock
  figures and catalogue filter, the dashboard board, the business-hours settings
  screen, the password form and the audit log.

Dates are day numbers, with day 0 a Sunday, so the weekday key is `day % 7`. Times
of day are minutes since midnight, and "HH:MM" strings are modelled together with
the code that writes and reads them (`Clock`). The current instant is a parameter.
JavaScript's `Array.prototype.sort` with a comparator is one stable insertion sort
on integer keys (`Sorting.SortBy`).

Modules: `Prelude` (options, filters, characters and digits), `Types`, `Sorting`,
`BusinessHours`, `Clock`, `Segmentation`, `ColumnLayout`, `WeekView`, `Availability`,
`Booking`, `OrderFlow`, `Plates`, `AssemblyTime`, `GearboxCode`, `NewOrder`,
`Inventory`, `Dashboard`, `Security`.

Behaviour of the code worth knowing:

- The segmentation loop raises a start before opening up to the opening time on every
  day, the first day included, not only on continuation days.
- `isSpillover` is cleared by the first open day the loop visits, even one with no
  capacity left, so it does not mark "every segment but the first emitted one".
- The seven-step cap counts closed days. An order can therefore be cut short
  silently, and the emitted minutes do not always add up to the estimated duration.
- Without a next business day, the booking screen asks for confirmation and commits.
  It raises no error.
- The continuation check looks at every order of the mechanic on that day, including
  the one being booked. It offers a forced commit.
- The commit writes one start and a duration read from the gearbox (or 60), not the
  validated duration and not split segments.

## Model

| member | source | states |
|---|---|---|
| Types.DurationOr60 | components/OSDetailsModal.tsx:496 | `estimatedDuration \|\| 60` is positive and keeps any positive duration |
| Sorting.SortBy | components/Dashboard.tsx:54-61 | the comparator sort returns a permutation ordered by the key, and elements with equal keys keep their input order (stability) |
| BusinessHours.WeekdayOf | components/Agenda.tsx:243-245 | the day key of a day number is the one at position `day % 7` of `daysMap` |
| BusinessHours.ReadingsOfADay | components/OSDetailsModal.tsx:541-596 | the calendar's open test and the closed-day check are exact opposites; the continuation scan accepts a day only when its entry exists, so a day without an entry is open to the calendar yet refused as a continuation |
| BusinessHours.DaysListsEveryWeekdayOnce | components/Settings/GeneralSettings.tsx:8-16 | `DAYS` lists each of the seven keys exactly once |
| BusinessHours.DefaultHours | components/Settings/GeneralSettings.tsx:25-30 | the starting table has every key open 08:00–18:00 |
| BusinessHours.LoadHours | components/Settings/GeneralSettings.tsx:41-50 | after loading, every key is present, stored entries win and the other keys get the default |
| BusinessHours.ToggleDay | components/Settings/GeneralSettings.tsx:198-209 | the switch flips only that day's `ativo` (a day without an entry is shown as closed with blank times), keeps its times and leaves every other day as shown |
| BusinessHours.SetOpening | components/Settings/GeneralSettings.tsx:218-223 | editing the opening sets that day's `inicio` only, every other field and day as shown |
| BusinessHours.SetClosing | components/Settings/GeneralSettings.tsx:225-230 | editing the closing sets that day's `fim` only, every other field and day as shown |
| BusinessHours.ToggleTwice | components/Settings/GeneralSettings.tsx:203-209 | flipping a switch twice shows the same table, and restores an existing entry exactly |
| Clock.IndexFrom | components/OSDetailsModal.tsx:277 | the first position of the separator at or after a point, or none when it does not occur |
| Clock.HourAndMinutePieces | components/OSDetailsModal.tsx:277 | `split(':')` yields two pieces free of ':' exactly when the string holds a ':' |
| Clock.NumberOf | components/OSDetailsModal.tsx:277 | `Number(piece)` is a number exactly when the piece is all decimal digits |
| Clock.ParseClock | components/OSDetailsModal.tsx:276-279 | `toMins` of a string without ':' is NaN |
| Clock.TwoDigits | components/OSDetailsModal.tsx:609-611 | `padStart(2, '0')` gives at least two digits, exactly two below 100 |
| Clock.FormatClock | components/OSDetailsModal.tsx:609-611 | "HH:MM" puts the ':' right after the hours, and is five characters for any time below 100 hours |
| Clock.TwoDigitsValue | components/OSDetailsModal.tsx:611 | the padded digits read back as the number |
| Clock.ParseDigitPieces | components/OSDetailsModal.tsx:276-279 | two digit strings joined by ':' read as hours × 60 + minutes |
| Clock.ParseFormat | components/OSDetailsModal.tsx:276-279 | reading a formatted time gives back its minutes |
| Clock.FormatInjective | components/OSDetailsModal.tsx:609-611 | different minute counts are written differently |
| Segmentation.DayStart | components/Agenda.tsx:270-271 | the start of the day's segment is never before opening, and is the carried minute when that is already at or after opening |
| Segmentation.Capacity | components/Agenda.tsx:273-274 | `max(0, close - start)`: positive capacity reaches exactly the closing minute; zero means the start is at or after closing |
| Segmentation.DaySegment | components/Agenda.tsx:252-290 | a day emits a segment exactly when it is open and has time left; the segment lies inside that day's hours, lasts `min(remaining, capacity)`, starts at the clamped start and is a spillover unless the first-segment flag is still set |
| Segmentation.SplitFrom | components/Agenda.tsx:242-300 | the loop emits at most one segment per remaining day-step and nothing when no minutes are left; every segment belongs to the order and has a positive length |
| Segmentation.SplitConserves | components/Agenda.tsx:235-300 | the minutes emitted plus the minutes left when the loop stops equal the minutes it started with (conservation) |
| Segmentation.SplitPlacement | components/Agenda.tsx:240-299 | every segment lies on an open day of the seven-day window inside that day's hours, with days strictly increasing (at most one segment a day) |
| Segmentation.SplitDaysFrom | components/Agenda.tsx:296-299 | nothing is emitted before the day the loop is scanning |
| Segmentation.SplitStarts | components/Agenda.tsx:237-297 | a segment on the scanned first day starts at the carried minute raised to opening; every later segment starts exactly at its day's opening |
| Segmentation.SplitSpillover | components/Agenda.tsx:236-298 | every segment after the first is a spillover; the first is not exactly when the loop started with the flag set and every day before it was closed |
| Segmentation.SplitFillsDays | components/Agenda.tsx:273-292 | every segment but the last runs to its day's closing minute |
| Segmentation.SegmentOrder | components/Agenda.tsx:226-240 | an order without date or duration has no segments; otherwise the segments are placed within seven days of the scheduled one and fit their days |
| Segmentation.UnplacedMinutes | components/Agenda.tsx:235-242 | the order's segments plus the minutes the seven-step cap drops add up to its estimated duration |
| Segmentation.ProcessOrders | components/Agenda.tsx:223-304 | every segment of the view belongs to one of the orders and fits its day, and every segment of every order is in the view |
| Segmentation.ProcessOrdersInOrder | components/Agenda.tsx:223-304 | the view of one order is that order's segments, and the view of a concatenated list is the views of the two parts one after the other, so the segments come order by order in list order |
| Segmentation.MondayEveningOverTuesdayOff | components/Agenda.tsx:240-299 | 90 minutes from Monday 17:00 with Tuesday off give 60 minutes on Monday and 30 from Wednesday's opening, marked as spillover |
| Segmentation.ClosedWeekShowsNothing | components/Agenda.tsx:240-260 | with every day switched off an order shows nothing and all its minutes are dropped |
| ColumnLayout.FirstFit | components/Agenda.tsx:186-196 | the chosen column is the first whose last segment ends by the new start; every column before it is still busy |
| ColumnLayout.Place | components/Agenda.tsx:186-201 | pushing a segment changes only its column's end, or opens one new column |
| ColumnLayout.ColumnInRange | components/Agenda.tsx:205-212 | every column index is below the cluster's column count |
| ColumnLayout.ColumnChain | components/Agenda.tsx:186-196 | two segments in the same column never overlap: the earlier ends by the later's start |
| ColumnLayout.ColumnIsFirstFit | components/Agenda.tsx:186-201 | a segment in column c overlaps some earlier segment of every column left of c |
| ColumnLayout.MaxEnd | components/Agenda.tsx:163-172 | the running cluster end is the latest end among the cluster's segments |
| ColumnLayout.ClustersFromShape | components/Agenda.tsx:161-178 | the cluster scan cuts the sorted list into consecutive non-empty runs that concatenate back to it |
| ColumnLayout.ClustersFromChained | components/Agenda.tsx:161-178 | every cluster is held together: each segment after the first starts before the latest end ahead of it |
| ColumnLayout.ClustersFromApart | components/Agenda.tsx:161-178 | on start-sorted input nothing in one cluster overlaps anything in a later cluster |
| ColumnLayout.ClustersSound | components/Agenda.tsx:161-178 | the clusters partition the sorted list into non-empty, overlap-connected, mutually apart runs |
| ColumnLayout.SortedByStart | components/Agenda.tsx:119-122 | the comparator's order puts starts in non-decreasing order |
| ColumnLayout.LayoutCluster | components/Agenda.tsx:183-215 | each segment of a cluster keeps its place and gets a column below the cluster's column count |
| ColumnLayout.LayoutEvents | components/Agenda.tsx:117-219 | one packed cluster per cluster, every column index below its cluster's column count, and a segment alone in its cluster on the full width |
| ColumnLayout.LayoutEventsSound | components/Agenda.tsx:117-218 | every input segment appears exactly once, in start order; column index below column count; a lone segment gets the full width; different clusters never overlap; overlapping segments of a cluster never share a column |
| WeekView.MondayOf | components/Agenda.tsx:72-75 | the week starts on the Monday at or before the day, a Sunday belonging to the week before |
| WeekView.ActiveFrom | components/Agenda.tsx:79-95 | the open days from a position to the end of the week, in order |
| WeekView.WeekDays | components/Agenda.tsx:67-97 | the row days are exactly the open days of the Monday-to-Sunday week, in increasing order |
| WeekView.Clamp | components/Agenda.tsx:566-576 | the clamped offset and width stay on the 600-minute track, never widen the segment, and are exact for a segment inside 08:00–18:00 |
| WeekView.LaneFor | components/Agenda.tsx:584-602 | the chosen lane is the first without a collision; every lane before it collides |
| WeekView.PushLane | components/Agenda.tsx:597-600 | the event is appended to its lane (or a new one) and no other lane changes |
| WeekView.LanesStayClear | components/Agenda.tsx:584-603 | no two events of one lane overlap |
| WeekView.LaneIsFirstFree | components/Agenda.tsx:584-603 | an event in lane k collides with some event that ends up in each lane below k |
| WeekView.LanesHoldEveryEvent | components/Agenda.tsx:584-603 | the lanes together hold exactly the events stacked so far |
| WeekView.RowSegments | components/Agenda.tsx:560-563 | a row holds exactly the segments of that day that pass the mechanic filter |
| WeekView.WeekRow | components/Agenda.tsx:560-609 | `maxLanes` is one more than the highest lane any event sits on, and 1 for an empty row, as `Math.max(1, lanes.length)`; every event sits on the track |
| WeekView.LaneSpan | components/Agenda.tsx:607 | the number of lanes in use: above every event's lane, reached by some event, and 0 only for no events |
| WeekView.LaneRow | components/Agenda.tsx:584-607 | one placed event per event, in order, each clamped and on the lane first-fit stacking gives it, and the lane count is the number of lanes the stacking opened |
| WeekView.LaneCount | components/Agenda.tsx:597-607 | every event is on an existing lane |
| WeekView.WeekRowShows | components/Agenda.tsx:560-585 | the row's events are that day's filtered segments in start order |
| WeekView.WeekRowLanesApart | components/Agenda.tsx:584-607 | two events of a row on the same lane never overlap |
| WeekView.SameLaneApart | components/Agenda.tsx:584-603 | two events stacked on one lane do not overlap |
| Availability.TimeSlots | components/OSDetailsModal.tsx:261-267 | eleven slots, slot i reading back as 08:00 plus i hours |
| Availability.TimeSlotsSpelledOut | components/OSDetailsModal.tsx:263-265 | the slots run from "08:00" to "18:00" |
| Availability.EndOf | components/OSDetailsModal.tsx:293-296 | an order ends after it starts, a missing duration counting as 60 |
| Availability.DayOrders | components/OSDetailsModal.tsx:273 | the day's orders are exactly those of the mechanic on that date, the one being booked included |
| Availability.SlotFlags | components/OSDetailsModal.tsx:298-311 | one order sets the busy flag exactly when it covers the hour, and the partial flag exactly when it has started by the slot and ends at least 30 minutes into it |
| Availability.Scan | components/OSDetailsModal.tsx:291-312 | after the loop, each flag is set exactly when some order sets it |
| Availability.StateOfSlot | components/OSDetailsModal.tsx:314-321 | busy exactly when some order covers the hour; partial exactly when none does and one half-covers it; the partial start reads as the half hour |
| Availability.HalfPast | components/OSDetailsModal.tsx:318 | the suggested start reads back as the slot's start plus 30 minutes |
| Availability.DaySlots | components/OSDetailsModal.tsx:281-322 | the grid of one mechanic's day: eleven states, each busy, partial or free by the rules above over that mechanic's orders on that day |
| Availability.SlotStatus | components/OSDetailsModal.tsx:269-325 | nothing without a mechanic or a date; otherwise the grid of that mechanic's day |
| Availability.QuarterPastLeavesBothFree | components/OSDetailsModal.tsx:299-321 | an order from 13:15 to 14:15 leaves both its slots free |
| Booking.FirstClash | components/OSDetailsModal.tsx:500-517 | the first order in list order that is another order of the mechanic on that day overlapping the booking, or none exactly when no order clashes |
| Booking.ClashIsSharedMinute | components/OSDetailsModal.tsx:500-517 | for a booking of positive length, an order clashes exactly when it is another order of that mechanic on that day sharing at least one minute with the booking |
| Booking.NextActive | components/OSDetailsModal.tsx:589-600 | the first of the next seven days whose entry exists and is switched on, or none exactly when no such day exists |
| Booking.NextSlotBusy | components/OSDetailsModal.tsx:616-637 | the continuation is busy exactly when some order of the mechanic on that day, the one being booked included, overlaps it |
| Booking.Overflow | components/OSDetailsModal.tsx:579-676 | the fallback confirmation exactly when no next business day exists; otherwise the continuation on the first such day, from its opening for the minutes that did not fit, flagged busy by the rule above |
| Booking.ConflictWith | components/OSDetailsModal.tsx:519-529 | the alert names the clashing order and its start as "HH:MM" |
| Booking.ConflictAlert | components/OSDetailsModal.tsx:499-530 | an alert exactly when some order clashes, naming the first in list order |
| Booking.DayRules | components/OSDetailsModal.tsx:533-677 | closed day, before opening, overflow and commit, each exactly under its condition and in that order |
| Booking.CheckSlot | components/OSDetailsModal.tsx:474-677 | past time first, then a clash (reporting the first), then the business-hours rules |
| Booking.Validate | components/OSDetailsModal.tsx:470-680 | nothing without a target or a reschedule, the commit when no date and time are set, the checks otherwise |
| Booking.CommitsOnlyWhenChecksPass | components/OSDetailsModal.tsx:470-680 | a committed booking is not in the past, clashes with no other order of the mechanic that day, is on a day not switched off and starts at or after opening |
| Booking.NoTableNeverSplits | components/OSDetailsModal.tsx:541-600 | without a business-hours table an overflowing booking is never split |
| Booking.LinkedGearbox | components/OSDetailsModal.tsx:254-259 | none exactly when no vehicle has the order's vehicle id or no gearbox has the brand of the first such vehicle (ignoring case); otherwise the first gearbox of that brand |
| Booking.CommitDuration | components/OSDetailsModal.tsx:700-705 | the committed duration is the linked gearbox's assembly time read by the 60-minute variant, or 60 without a linked gearbox |
| Booking.ExecuteStageChange | components/OSDetailsModal.tsx:692-754 | the commit writes the mechanic, the date and time and the gearbox duration when scheduling, moves the status to the target, and changes nothing else |
| Booking.CheckedAsOneHourCommittedAsFive | components/OSDetailsModal.tsx:496-705 | an order with no duration is checked as one hour and committed, and then stores five hours that run past closing |
| Booking.AloneInTheDay | components/OSDetailsModal.tsx:470-680 | a future booking within default hours on an empty day is committed |
| Booking.LinkedToTheOnlyGearbox | components/OSDetailsModal.tsx:259 | the only gearbox of the vehicle's brand is the one found |
| Booking.FiveHours | components/OSDetailsModal.tsx:682-690 | the 60-minute variant reads "5h" as 300 |
| OrderFlow.StageIndex | components/OSDetailsModal.tsx:336-344 | `seq.indexOf`: none exactly off the sequence, otherwise the status's position |
| OrderFlow.NextStatus | components/OSDetailsModal.tsx:334-347 | none exactly for Finished and Reception; otherwise the next stage in enum order |
| OrderFlow.PreviousStatus | components/OSDetailsModal.tsx:352-363 | none exactly for Budget and Reception; otherwise the previous stage |
| OrderFlow.NextThenPrevious | components/OSDetailsModal.tsx:334-363 | a step forward then back returns to the start |
| OrderFlow.PreviousThenNext | components/OSDetailsModal.tsx:334-363 | a step back then forward returns to the start |
| OrderFlow.Revert | components/OSDetailsModal.tsx:374-398 | one stage back; leaving Scheduled clears date and mechanic; nothing else changes, and nothing at all without a previous stage |
| OrderFlow.RevertUndoesApproval | components/OSDetailsModal.tsx:352-393 | reverting after sending a budget for approval restores the order |
| OrderFlow.AddChecklistItem | components/OSDetailsModal.tsx:821-833 | a blank label adds nothing; otherwise one unchecked item is appended |
| OrderFlow.ToggleChecklistItem | components/OSDetailsModal.tsx:835-840 | only the items with that id flip their mark |
| OrderFlow.ToggleTwice | components/OSDetailsModal.tsx:835-840 | toggling twice restores the list |
| OrderFlow.RemoveChecklistItem | components/OSDetailsModal.tsx:842-845 | exactly the items with that id go, each other item keeping its count |
| OrderFlow.RemoveChecklistItemInOrder | components/OSDetailsModal.tsx:842-845 | checklist removal works piece by piece over a concatenation, so the kept items stay in their order |
| OrderFlow.RemoveUndoesAdd | components/OSDetailsModal.tsx:821-845 | removing an item just added under a fresh id gives back the list |
| OrderFlow.SetQuantity | components/OSDetailsModal.tsx:770 | only the lines with that id get the new quantity |
| OrderFlow.FirstSameLine | components/OSDetailsModal.tsx:762-764 | the first line with the same description (ignoring case) and kind, none exactly when no line has them |
| OrderFlow.SmartAdd | components/OSDetailsModal.tsx:756-789 | a blank description adds nothing; when a line with the same description (ignoring case) and kind exists, the list keeps its length and only the lines sharing the first such line's id get its quantity plus the added one; otherwise one line is appended with the entry |
| OrderFlow.RemoveItem | components/OSDetailsModal.tsx:801-810 | exactly the lines with that id go, and every other line stays as many times as before |
| OrderFlow.RemoveItemInOrder | components/OSDetailsModal.tsx:808 | removal works piece by piece over a concatenation, so the kept lines stay in their order |
| OrderFlow.SmartAddAddsQuantity | components/OSDetailsModal.tsx:762-789 | with distinct line ids a smart add raises the total quantity by exactly the quantity added |
| OrderFlow.MergeAddsQuantity | components/OSDetailsModal.tsx:764-770 | with distinct line ids, raising one line by the added quantity raises the total by that quantity |
| OrderFlow.SetQuantityTotal | components/OSDetailsModal.tsx:770 | setting one line's quantity changes the total by the difference at that line |
| OrderFlow.SecondAddMerges | components/OSDetailsModal.tsx:762-789 | adding the same entry again never grows the list |
| Plates.Clean | utils/validation.ts:3 | cleaning never lengthens the plate and leaves only upper-case letters and digits |
| Plates.CleanIdempotent | utils/validation.ts:3 | cleaning twice is cleaning once |
| Plates.CleanIgnoresCase | utils/validation.ts:3 | a plate and its lower-case spelling clean alike |
| Plates.CleanSkipsSeparators | utils/validation.ts:3 | characters outside `[a-zA-Z0-9]` between two parts are dropped |
| Plates.IsValidPlate | utils/validation.ts:1-12 | a plate is valid exactly when its cleaned form is three letters, a digit, a letter or a digit, and two digits (the two forms differ only in the fifth character); a valid plate has at least seven characters |
| Plates.ValidityIgnoresCaseAndSeparators | utils/validation.ts:1-12 | validity ignores case and separators |
| Plates.FormatPlate | utils/validation.ts:14-23 | a hyphen at index 3 of eight characters exactly for the old form, the cleaned plate otherwise, and nothing but letters, digits and that hyphen |
| Plates.CleanOfFormat | utils/validation.ts:14-23 | formatting keeps the cleaning |
| Plates.FormatIdempotent | utils/validation.ts:14-23 | formatting twice is formatting once |
| Plates.FormatKeepsValidity | utils/validation.ts:1-23 | a formatted plate is valid exactly when the plate is |
| Plates.AtMostOneHyphen | utils/validation.ts:14-23 | a formatted plate holds at most one hyphen |
| Plates.SubmitVehicle | components/VehicleModal.tsx:49-90 | an invalid plate is refused before any duplicate search; a plate another vehicle (different id) has is refused; otherwise the form is saved with only its plate cleaned |
| Plates.SavedPlateIsClean | components/VehicleModal.tsx:53-89 | a saved plate is valid and already clean |
| Plates.ResaveAccepted | components/VehicleModal.tsx:71-89 | saving a vehicle again with its own plate is accepted and stores the same record |
| AssemblyTime.FirstMatchFrom | components/NewOSModal.tsx:192 | the leftmost position where the pattern matches, none exactly when it never does |
| AssemblyTime.FirstNumber | components/NewOSModal.tsx:192-193 | none exactly when the pattern matches nowhere; otherwise the digit run of the leftmost match |
| AssemblyTime.ParseDuration | components/NewOSModal.tsx:187-200 | 60 times the number before the leftmost "h" plus the number before the leftmost "min", a missing part counting 0; 0 for the empty label and for one matching neither pattern |
| AssemblyTime.ParseDurationOr60 | components/OSDetailsModal.tsx:682-690 | the commit's variant is positive and is the new-order reading with 0 replaced by 60 |
| AssemblyTime.Options | components/NewOSModal.tsx:486-491 | ten options, option i being the label of 30·(i+1) minutes |
| AssemblyTime.OptionsWholeHours | components/NewOSModal.tsx:486-491 | the whole-hour options are "1h" … "5h" |
| AssemblyTime.OptionsHalfHours | components/NewOSModal.tsx:486-491 | the other options are "30min", "1h 30min" … "4h 30min" |
| AssemblyTime.WholeHours | components/NewOSModal.tsx:488-490 | k whole hours are written "kh" |
| AssemblyTime.HoursAndAHalf | components/NewOSModal.tsx:488-490 | k hours and a half are written "kh 30min" |
| AssemblyTime.MinutesAfterHours | components/NewOSModal.tsx:196-197 | in "Hh Mmin" the first `(\d+)min` captures M, not a tail of H |
| AssemblyTime.ParseHoursAndMinutes | components/NewOSModal.tsx:187-200 | "Hh Mmin" reads as 60·H + M |
| AssemblyTime.ParseHours | components/NewOSModal.tsx:187-200 | "Hh" reads as 60·H |
| AssemblyTime.ParseMinutes | components/NewOSModal.tsx:187-200 | "Mmin" reads as M |
| AssemblyTime.Label | components/NewOSModal.tsx:486-491 | a label starts with a digit and ends in "h" exactly for a positive whole number of hours; `ParseLabel` reads it back |
| AssemblyTime.ParseLabel | components/NewOSModal.tsx:187-200 | every label reads back as its minutes |
| AssemblyTime.ParseOptions | components/Inventory.tsx:475-484 | every option of the selector reads back as its minutes, also in the commit's variant |
| GearboxCode.ReplaceFirst | components/NewOSModal.tsx:127 | `replace` with a string pattern replaces only the first occurrence, or nothing |
| GearboxCode.ReplaceLeading | components/NewOSModal.tsx:127 | a code starting with `AUTO-` loses exactly that prefix |
| GearboxCode.ParseInt | components/NewOSModal.tsx:127 | `parseInt` is a number exactly when a digit of the radix follows white space, sign and `0x` |
| GearboxCode.ParseDigits | components/NewOSModal.tsx:127 | a string of decimal digits reads back as its value |
| GearboxCode.Numbers | components/NewOSModal.tsx:125-128 | the numbers kept are exactly those read from some code, NaN skipped |
| GearboxCode.MaxOrZero | components/NewOSModal.tsx:130 | the largest number, or 0 for none |
| GearboxCode.NextCode | components/NewOSModal.tsx:130-132 | the code starts with `AUTO-` and pads its number to at least four digits |
| GearboxCode.NextNumberAbove | components/NewOSModal.tsx:125-132 | the new number is above every number read from an existing code |
| GearboxCode.NextNumberFromCodes | components/NewOSModal.tsx:125-131 | 1 when no code can be read, otherwise one more than a number some code carries |
| GearboxCode.NextCodeReadsBack | components/NewOSModal.tsx:127-132 | the generated code reads back as its number |
| GearboxCode.NextCodeIsNew | components/NewOSModal.tsx:125-132 | the generated code is not among the existing ones |
| GearboxCode.NextAfterNext | components/NewOSModal.tsx:125-132 | registering the generated code moves the next number on by one |
| GearboxCode.FormCode | components/Inventory.tsx:359-373 | a new gearbox gets the next code; an edited gearbox keeps its own |
| GearboxCode.Codes | components/Inventory.tsx:362 | the codes of the catalogue, in order |
| NewOrder.CatalogueGearbox | components/NewOSModal.tsx:210 | the first gearbox of the vehicle's exact brand and model, none exactly when there is none |
| NewOrder.EstimatedDuration | components/NewOSModal.tsx:207-214 | the parsed assembly time of that gearbox, 0 without one |
| NewOrder.OpenOrder | components/NewOSModal.tsx:202-229 | nothing exactly without a vehicle; otherwise a budget with no lines, the form's fields, 0 km, tank at 50 and the catalogue duration |
| NewOrder.DurationFromLabel | components/NewOSModal.tsx:207-214 | a catalogue label of m minutes gives an order of m minutes |
| NewOrder.FilterClients | components/NewOSModal.tsx:94-97 | every client for an empty search, otherwise exactly those whose name contains it ignoring case or whose CPF contains it, each as often as listed |
| NewOrder.FilterClientsInOrder | components/NewOSModal.tsx:94-97 | the client filter works piece by piece over a concatenation, so matching clients keep their order |
| NewOrder.FoundByCpf | components/NewOSModal.tsx:96 | a client is found by its own CPF |
| NewOrder.NarrowingSearch | components/NewOSModal.tsx:94-97 | a longer search never finds more clients |
| Inventory.StockTotal | components/Inventory.tsx:37 | the total has the sign of the items' stocks: not negative when none is, zero when all are, not positive when none is positive |
| Inventory.StockTotalAppend | components/Inventory.tsx:37 | the stock total adds up over a split list |
| Inventory.StockTotalBounds | components/Inventory.tsx:37 | with no negative stock the total is at least each item's stock |
| Inventory.BelowMinimum | components/Inventory.tsx:38 | the count is 0 exactly when no item is strictly below its minimum, and the list length exactly when all are |
| Inventory.BelowMinimumCounts | components/Inventory.tsx:38 | the count adds up over a split list, one per item strictly below its minimum |
| Inventory.FilterGearboxes | components/Inventory.tsx:29-33 | exactly the gearboxes whose model or code contains the search ignoring case and, with a brand selected, of that brand, each as often as listed |
| Inventory.FilterGearboxesInOrder | components/Inventory.tsx:29-33 | the gearbox filter works piece by piece over a concatenation, so the gearboxes shown keep their order |
| Inventory.NoFilterShowsAll | components/Inventory.tsx:29-33 | with no search and no brand the whole catalogue is shown |
| Dashboard.Columns | components/Dashboard.tsx:31 | the columns are the stages Budget … Finished |
| Dashboard.ColumnsInOrder | components/Dashboard.tsx:31 | every status but Reception has a column, in enum order |
| Dashboard.SearchText | components/Dashboard.tsx:33-36 | the search text contains the order's lower-cased id and, for the order's vehicle, its lower-cased model and plate and the lower-cased name of its client when found; an order whose vehicle is not found reads its id then "undefined" three times |
| Dashboard.FilterOrders | components/Dashboard.tsx:33-41 | exactly the orders passing the search and the mechanic filter, which lets all through for 'all' and otherwise needs that mechanic, each as often as listed |
| Dashboard.FilterOrdersInOrder | components/Dashboard.tsx:33-41 | the order filter works piece by piece over a concatenation, so the orders shown keep their order |
| Dashboard.FoundByVehicle | components/Dashboard.tsx:33-41 | under mechanic 'all', an order whose vehicle's plate or model contains the search ignoring case is shown |
| Dashboard.FoundByClient | components/Dashboard.tsx:33-41 | under mechanic 'all', an order whose vehicle's client has a name containing the search ignoring case is shown |
| Dashboard.OrdersInStatus | components/Dashboard.tsx:43-62 | a permutation of exactly the shown orders in that status, sorted stably by the column's sort |
| Dashboard.ColumnOrder | components/Dashboard.tsx:54-61 | weights ascending, weights descending, or newest first |
| Dashboard.ColumnsPartition | components/Dashboard.tsx:31-44 | every shown order outside Reception lands in exactly its own column; Reception orders land in none |
| Dashboard.HighFirst | components/Dashboard.tsx:56-57 | with a high-priority order in a column, descending sort puts one first |
| Dashboard.InItsColumn | components/Dashboard.tsx:44 | a shown order appears in its status's column |
| Security.Utf16Length | components/Settings/SecuritySettings.tsx:73 | `length` counts code units: between one and two per character |
| Security.ChangePassword | components/Settings/SecuritySettings.tsx:69-85 | too short first, then a mismatching confirmation, and the update exactly when both checks pass |
| Security.AcceptedPasswordLength | components/Settings/SecuritySettings.tsx:73-85 | an accepted password has at least three characters, and six when all lie in the Basic Multilingual Plane |
| Security.LexLt | components/Settings/SecuritySettings.tsx:57 | a string is never below itself, a proper prefix is below the longer string, and a string is not below its own prefix |
| Security.LexLtIrreflexive | components/Settings/SecuritySettings.tsx:57 | no string is below itself |
| Security.LexLtTransitive | components/Settings/SecuritySettings.tsx:57 | string order is transitive |
| Security.LexLtTotal | components/Settings/SecuritySettings.tsx:57 | of two different strings one is below the other |
| Security.LexLtAsymmetric | components/Settings/SecuritySettings.tsx:57 | string order is asymmetric |
| Security.SortedHistory | components/Settings/SecuritySettings.tsx:40-42 | the log sorted newest first, a permutation keeping entries of the same instant in order |
| Security.FilteredHistory | components/Settings/SecuritySettings.tsx:49-62 | exactly the entries passing the date range, action and order-number filters, each as often as logged, newest first, and entries with the same timestamp in the order the sorted log gives them |
| Security.KeepKeyFilter | components/Settings/SecuritySettings.tsx:49-62 | keeping one timestamp and filtering commute, so filtering after the sort keeps each timestamp's entries in their logged order |
| Security.EmptyRange | components/Settings/SecuritySettings.tsx:57 | a range whose end is before its start shows nothing |
| Security.InsertAction | components/Settings/SecuritySettings.tsx:44-47 | adding an action to the sorted set keeps it strictly sorted with that action added |
| Security.ActionsUpTo | components/Settings/SecuritySettings.tsx:44-47 | the distinct actions of the first entries, strictly sorted |
| Security.UniqueActions | components/Settings/SecuritySettings.tsx:44-47 | strictly sorted, without duplicates, with exactly the log's actions |
| Security.SortedSetUnique | components/Settings/SecuritySettings.tsx:46 | two strictly sorted lists with the same elements are equal |
| Security.UniqueActionsIgnoreOrder | components/Settings/SecuritySettings.tsx:44-47 | the action list does not depend on the order of the log |

## Left out

- Network, database and logging calls (`updateOrder`, history logs, transactions, uploads), PDF, print and WhatsApp output, and every React state update: the model returns the new values instead.
- The first packing pass of `layoutEvents` (components/Agenda.tsx:124-148): its result is never read.
- Pixel and percent arithmetic: a laid-out segment keeps the integer pair (column, column count) and a row event keeps its offset and width in minutes; the percentages are those divided by 600 or by the column count.
- The clock: "now" is a parameter in milliseconds and a booking's instant is `(day * 1440 + minute) * 60000`. The UTC shift of `toISOString` for the next-day date (components/OSDetailsModal.tsx:613) is left out: the continuation day is the local day.
- Calendar arithmetic: dates are day numbers; a "YYYY-MM-DD" prefix test becomes equality of day numbers; an audit entry carries its local "YYYY-MM-DD" date as a field instead of computing it from the timestamp.
- Time inputs: a business-hours time is either blank or a minute count, as `<input type="time">` produces; other strings in a stored table are not modelled. A blank booking date or time is `None`.
- An absent business-hours table behaves as the empty map, which is how every reading treats it.
- `estimatedDuration` 0 stands for both 0 and absent, which the source never tells apart.
- Prices are carried as integers and never computed with; budget totals are floating-point sums and are not modelled.
- Case folding is ASCII only. String order compares code points, not UTF-16 code units, so it differs from JavaScript between characters outside the Basic Multilingual Plane and code units from U+E000 to U+FFFF.
- `parseInt` results are exact integers; values above 2^53 lose precision in JavaScript and are not modelled.
- The slot map of `slotStatus` is a sequence indexed by slot rather than an object keyed by label.
- Generated identifiers (`Date.now()`, `Math.random()`, `crypto.randomUUID()`) and creation instants are parameters.
- `filteredInventory`, `filteredServices` and `filteredBrands` (components/Inventory.tsx:27-28,34): the same substring filter as the gearbox one, over other lists.
- A vehicle or client not found prints as "undefined" in the dashboard search text, as the source does; `Number()` on strings other than digit runs (white space, signs, exponents) is NaN in the model.
- Dashboard.ColumnOrder: the newest-first sort compares the instants as integers; the source parses the ISO string with `new Date`, which the model does not.
- ColumnLayout.LayoutEventsSound: requires durations that are not negative, which every segment the segmentation emits has; the non-overlap of columns fails for negative durations.
- Availability.SlotStatus: states its grid through `DaySlots`, whose contract carries the per-slot rules.
- Security.SortedHistory: orders by the numeric timestamp; the source parses it with `new Date` first.
- Booking.ExecuteStageChange: does not save the edited diagnosis that `executeStageChange` writes first when it changed (components/OSDetailsModal.tsx:693), because the order record here has no diagnosis field; the write touches no field the model keeps.
- Cross-session double booking: there is no commit-time re-check in the source, and a single call cannot show one.
