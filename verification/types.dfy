/** The records of the workshop application that the scheduling engine and the screens
    around it read. Dates are day numbers (day 0 is a Sunday) and times of day are
    minutes since midnight; an order's `scheduledDate` "YYYY-MM-DDTHH:MM:SS" is a
    `DateTime` of the two. */
module Types {
  import opened Prelude

  datatype OSStatus = Reception | Budget | Approval | Scheduled | Execution | Finished
  datatype Priority = Low | Medium | High
  datatype VehicleCategory = Private | Company | Restoration

  /** `OrderItem.type`: 'PART' | 'SERVICE'. */
  datatype ItemKind = Part | Labour

  /** A budget line. Prices are carried, never computed with, so an integer stands in
      for the source's floating-point number. */
  datatype OrderItem = OrderItem(id: string, kind: ItemKind, description: string, quantity: int, price: int)

  datatype ChecklistItem = ChecklistItem(id: string, text: string, checked: bool)

  /** A calendar day and a minute of that day. */
  datatype DateTime = DateTime(day: int, minute: nat)

  /** A work order. `estimatedDuration` 0 stands for both an absent and a zero duration:
      the source only ever tests it with `!d` or `d || 60`, which treat the two alike. */
  datatype WorkOrder = WorkOrder(
    id: string,
    vehicleId: string,
    status: OSStatus,
    priority: Priority,
    category: VehicleCategory,
    km: int,
    fuelLevel: Option<int>,
    reportedFault: string,
    mechanicId: Option<string>,
    scheduledDate: Option<DateTime>,
    estimatedDuration: nat,
    items: seq<OrderItem>,
    checklist: seq<ChecklistItem>,
    createdAt: int)

  datatype Vehicle = Vehicle(id: string, clientId: string, plate: string, model: string, brand: string, year: int)

  datatype Client = Client(id: string, name: string, cpf: string)

  /** A gearbox model of the catalogue; an absent `assemblyTime` is the empty string. */
  datatype Gearbox = Gearbox(id: string, code: string, model: string, brand: string, kind: string, specs: string, assemblyTime: string)

  datatype InventoryItem = InventoryItem(id: string, code: string, name: string, stock: int, minStock: int)

  /** An audit-log entry; `timestamp` is its instant in milliseconds and `localDate` the
      "YYYY-MM-DD" of that instant in the workshop's time zone. */
  datatype HistoryLog = HistoryLog(id: string, orderId: string, action: string, timestamp: int, localDate: string)

  /** `estimatedDuration || 60`: the duration the booking checks use. */
  function DurationOr60(d: nat): (r: nat)
    ensures r > 0
    ensures d > 0 ==> r == d
  {
    if d == 0 then 60 else d
  }

  /** The mechanic filter shared by the dashboard and the week view: 'all' lets
      everything through, any other value must equal the order's mechanic. */
  predicate MatchesMechanic(filter: string, mechanicId: Option<string>) {
    filter == "all" || mechanicId == Some(filter)
  }
}
