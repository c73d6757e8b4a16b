/** The production board: one column per stage (Reception is not shown), the orders
    kept by the search box and the mechanic selector, and each column's order — by
    priority weight, either way, or newest first. */
module Dashboard {
  import opened Prelude
  import opened Types
  import opened Sorting
  import OrderFlow

  /** `Object.values(OSStatus)`: the statuses in declaration order. */
  function AllStatuses(): seq<OSStatus> {
    [Reception, Budget, Approval, Scheduled, Execution, Finished]
  }

  predicate Shows(s: OSStatus) { s != Reception }

  /** `columns`: every status but Reception, in declaration order. */
  function Columns(): (r: seq<OSStatus>)
    ensures r == OrderFlow.Stages()
  {
    var all := AllStatuses();
    ColumnsOf(all, OrderFlow.Stages());
    Filter(all, Shows)
  }

  lemma StagesInOrder(stages: seq<OSStatus>)
    requires stages == [Budget, Approval, Scheduled, Execution, Finished]
    ensures Reception !in stages
    ensures forall s :: s != Reception ==> s in stages
    ensures forall i, j :: 0 <= i < j < |stages| ==> OrderFlow.Rank(stages[i]) < OrderFlow.Rank(stages[j])
    ensures forall i :: 0 <= i < |stages| ==> Shows(stages[i])
  {
    forall s | s != Reception ensures s in stages {
      assert s == stages[OrderFlow.Rank(s) - 1];
    }
  }

  lemma ColumnsOf(all: seq<OSStatus>, stages: seq<OSStatus>)
    requires all == [Reception, Budget, Approval, Scheduled, Execution, Finished]
    requires stages == [Budget, Approval, Scheduled, Execution, Finished]
    ensures Filter(all, Shows) == stages
    ensures Reception !in stages
    ensures forall s :: s != Reception ==> s in stages
    ensures forall i, j :: 0 <= i < j < |stages| ==> OrderFlow.Rank(stages[i]) < OrderFlow.Rank(stages[j])
  {
    assert all[0] == Reception && all[1..] == stages;
    StagesInOrder(stages);
    DropsReception(all, stages);
  }

  lemma DropsReception(all: seq<OSStatus>, stages: seq<OSStatus>)
    requires |all| > 0 && all[0] == Reception && all[1..] == stages
    requires forall i :: 0 <= i < |stages| ==> Shows(stages[i])
    ensures Filter(all, Shows) == stages
  {
    FilterIdentity(stages, Shows);
  }

  /** The board shows a column for every status but Reception, in declaration order. */
  lemma ColumnsInOrder()
    ensures Reception !in Columns()
    ensures forall s :: s != Reception ==> s in Columns()
    ensures forall i, j :: 0 <= i < j < |Columns()| ==> OrderFlow.Rank(Columns()[i]) < OrderFlow.Rank(Columns()[j])
  {
    StagesInOrder(Columns());
  }

  // ---------------------------------------------------------------------------
  // Filter

  /** How a missing vehicle or client prints inside a template string. */
  const Undefined: string := "undefined"

  /** Index `i` holds the order's vehicle: the first vehicle with the order's vehicle id. */
  predicate VehicleAt(o: WorkOrder, vehicles: seq<Vehicle>, i: int) {
    && 0 <= i < |vehicles| && vehicles[i].id == o.vehicleId
    && forall j :: 0 <= j < i ==> vehicles[j].id != o.vehicleId
  }

  /** Index `j` holds the vehicle's client: the first client with the vehicle's client id. */
  predicate ClientAt(v: Vehicle, clients: seq<Client>, j: int) {
    && 0 <= j < |clients| && clients[j].id == v.clientId
    && forall k :: 0 <= k < j ==> clients[k].id != v.clientId
  }

  /** `${o.id} ${vehicle?.model} ${vehicle?.plate} ${client?.name}`, lower-cased, with
      `vehicles.find(v => v.id === o.vehicleId)` and `clients.find(c => c.id ===
      vehicle.clientId)`. It holds the order's id, the model and plate of its vehicle and
      the name of that vehicle's client; a vehicle or client that is not found prints as
      "undefined". */
  function SearchText(o: WorkOrder, vehicles: seq<Vehicle>, clients: seq<Client>): (r: string)
    ensures Contains(r, Lower(o.id))
    ensures (forall j :: 0 <= j < |vehicles| ==> vehicles[j].id != o.vehicleId)
            ==> r == Lower(o.id) + " " + Undefined + " " + Undefined + " " + Undefined
    ensures forall i {:trigger VehicleAt(o, vehicles, i)} :: VehicleAt(o, vehicles, i) ==>
              Contains(r, Lower(vehicles[i].model)) && Contains(r, Lower(vehicles[i].plate))
    ensures forall i, j {:trigger VehicleAt(o, vehicles, i), ClientAt(vehicles[i], clients, j)} ::
              VehicleAt(o, vehicles, i) && ClientAt(vehicles[i], clients, j) ==> Contains(r, Lower(clients[j].name))
  {
    var vi := FindFrom(vehicles, (v: Vehicle) => v.id == o.vehicleId, 0);
    assert forall i {:trigger VehicleAt(o, vehicles, i)} :: VehicleAt(o, vehicles, i) ==> vi == Some(i);
    var ci := if vi.Some? then FindFrom(clients, (c: Client) => c.id == vehicles[vi.value].clientId, 0) else None;
    assert vi.Some? ==> forall j {:trigger ClientAt(vehicles[vi.value], clients, j)} ::
                          ClientAt(vehicles[vi.value], clients, j) ==> ci == Some(j);
    var model := if vi.Some? then vehicles[vi.value].model else Undefined;
    var plate := if vi.Some? then vehicles[vi.value].plate else Undefined;
    var name := if ci.Some? then clients[ci.value].name else Undefined;
    Joined(o.id, model, plate, name)
  }

  /** The four fields joined by spaces and lower-cased: each field occurs in it
      lower-cased, and three "undefined" fields are kept as they are. */
  function Joined(id: string, model: string, plate: string, name: string): (r: string)
    ensures Contains(r, Lower(id))
    ensures Contains(r, Lower(model)) && Contains(r, Lower(plate)) && Contains(r, Lower(name))
    ensures model == plate == name == Undefined ==> r == Lower(id) + " " + Undefined + " " + Undefined + " " + Undefined
  {
    JoinedFields(id, model, plate, name);
    Lower(id + (" " + model + " " + plate + " " + name))
  }

  lemma JoinedFields(id: string, model: string, plate: string, name: string)
    ensures var r := Lower(id + (" " + model + " " + plate + " " + name));
            && Contains(r, Lower(id))
            && Contains(r, Lower(model)) && Contains(r, Lower(plate)) && Contains(r, Lower(name))
            && (model == plate == name == Undefined ==> r == Lower(id) + " " + Undefined + " " + Undefined + " " + Undefined)
  {
    LowerLead(id, " " + model + " " + plate + " " + name);
    RestPieces(id, model, plate, name);
  }

  /** The lower-cased text still starts with the lower-cased id, and a tail without
      capitals is kept as it is. */
  lemma LowerLead(id: string, rest: string)
    ensures Contains(Lower(id + rest), Lower(id))
    ensures rest == " " + Undefined + " " + Undefined + " " + Undefined ==> Lower(id + rest) == Lower(id) + rest
  {
    LowerAppend(id, rest);
    PrefixContained(Lower(id), Lower(rest));
    LowerUndefined();
  }

  /** Each field of the search text occurs, lower-cased, in the lower-cased text. */
  lemma RestPieces(id: string, model: string, plate: string, name: string)
    ensures var t := Lower(id + (" " + model + " " + plate + " " + name));
            Contains(t, Lower(model)) && Contains(t, Lower(plate)) && Contains(t, Lower(name))
  {
    var text := id + (" " + model + " " + plate + " " + name);
    assert text == (id + " ") + model + (" " + plate + " " + name);
    LowerPiece(id + " ", model, " " + plate + " " + name);
    assert text == (id + " " + model + " ") + plate + (" " + name);
    LowerPiece(id + " " + model + " ", plate, " " + name);
    assert text == (id + " " + model + " " + plate + " ") + name + [];
    LowerPiece(id + " " + model + " " + plate + " ", name, []);
  }

  lemma LowerPiece(pre: string, x: string, post: string)
    ensures Contains(Lower(pre + x + post), Lower(x))
  {
    LowerAppend(pre, x);
    LowerAppend(pre + x, post);
    ContainsPiece(Lower(pre), Lower(x), Lower(post));
  }

  lemma PrefixContained(a: string, b: string)
    ensures Contains(a + b, a)
  {
    assert (a + b)[..|a|] == a;
  }

  /** The tail of the search text of an order whose vehicle is not found has no
      capitals. */
  lemma LowerUndefined()
    ensures var u := Undefined;
            Lower(" " + u + " " + u + " " + u) == " " + u + " " + u + " " + u
  {
    var u := Undefined;
    LowerKeeps(" ");
    LowerKeeps(u);
    LowerAppend(" ", u);
    LowerAppend(" " + u, " ");
    LowerAppend(" " + u + " ", u);
    LowerAppend(" " + u + " " + u, " ");
    LowerAppend(" " + u + " " + u + " ", u);
  }

  /** Lower-casing leaves a string without capitals as it is. */
  lemma LowerKeeps(s: string)
    requires forall i :: 0 <= i < |s| ==> !IsUpper(s[i])
    ensures Lower(s) == s
  {
  }

  /** The order passes the search box and the mechanic selector. */
  predicate Shown(o: WorkOrder, vehicles: seq<Vehicle>, clients: seq<Client>, search: string, mechanic: string) {
    Contains(SearchText(o, vehicles, clients), Lower(search)) && MatchesMechanic(mechanic, o.mechanicId)
  }

  /** `filteredOrders`: the orders shown, in list order. */
  function FilterOrders(orders: seq<WorkOrder>, vehicles: seq<Vehicle>, clients: seq<Client>, search: string, mechanic: string)
    : (r: seq<WorkOrder>)
    ensures forall o :: o in r <==> o in orders && Shown(o, vehicles, clients, search, mechanic)
    ensures forall o :: o in r ==> mechanic == "all" || o.mechanicId == Some(mechanic)
    ensures forall o :: multiset(r)[o] == if Shown(o, vehicles, clients, search, mechanic) then multiset(orders)[o] else 0
  {
    var p := (o: WorkOrder) => Shown(o, vehicles, clients, search, mechanic);
    var r := Filter(orders, p);
    assert forall o :: o in r <==> o in orders && p(o) by {
      forall o ensures o in r <==> o in orders && p(o) {
        FilterMembers(orders, p, o);
      }
    }
    r
  }

  /** The filter keeps list order: it works piece by piece over a concatenation, and
      one order is kept exactly when it is shown. */
  lemma FilterOrdersInOrder(a: seq<WorkOrder>, b: seq<WorkOrder>, o: WorkOrder, vehicles: seq<Vehicle>,
                            clients: seq<Client>, search: string, mechanic: string)
    ensures FilterOrders(a + b, vehicles, clients, search, mechanic)
            == FilterOrders(a, vehicles, clients, search, mechanic) + FilterOrders(b, vehicles, clients, search, mechanic)
    ensures FilterOrders([o], vehicles, clients, search, mechanic)
            == if Shown(o, vehicles, clients, search, mechanic) then [o] else []
  {
    FilterAppend(a, b, (o: WorkOrder) => Shown(o, vehicles, clients, search, mechanic));
  }

  /** With every mechanic shown, searching for part of an order's vehicle plate or model
      (ignoring case) finds the order. */
  lemma FoundByVehicle(orders: seq<WorkOrder>, vehicles: seq<Vehicle>, clients: seq<Client>, search: string, k: nat, i: nat)
    requires k < |orders| && VehicleAt(orders[k], vehicles, i)
    requires Contains(Lower(vehicles[i].plate), Lower(search)) || Contains(Lower(vehicles[i].model), Lower(search))
    ensures orders[k] in FilterOrders(orders, vehicles, clients, search, "all")
  {
    var text := SearchText(orders[k], vehicles, clients);
    if Contains(Lower(vehicles[i].plate), Lower(search)) {
      ContainsTrans(text, Lower(vehicles[i].plate), Lower(search));
    } else {
      ContainsTrans(text, Lower(vehicles[i].model), Lower(search));
    }
  }

  /** With every mechanic shown, searching for part of the name of the client who owns
      an order's vehicle (ignoring case) finds the order. */
  lemma FoundByClient(orders: seq<WorkOrder>, vehicles: seq<Vehicle>, clients: seq<Client>, search: string, k: nat, i: nat, j: nat)
    requires k < |orders| && VehicleAt(orders[k], vehicles, i) && ClientAt(vehicles[i], clients, j)
    requires Contains(Lower(clients[j].name), Lower(search))
    ensures orders[k] in FilterOrders(orders, vehicles, clients, search, "all")
  {
    ContainsTrans(SearchText(orders[k], vehicles, clients), Lower(clients[j].name), Lower(search));
  }

  // ---------------------------------------------------------------------------
  // Column order

  datatype ColumnSort = PriorityAsc | PriorityDesc | NewestFirst

  /** `priorityWeight`. */
  function Weight(p: Priority): int {
    if p == High then 3 else if p == Medium then 2 else 1
  }

  /** The comparator of each sort, as a key: a weight, a negated weight, or a negated
      creation instant. */
  function SortKey(sort: ColumnSort): WorkOrder -> Key {
    match sort
    case PriorityAsc => (o: WorkOrder) => Key(Weight(o.priority), 0)
    case PriorityDesc => (o: WorkOrder) => Key(-Weight(o.priority), 0)
    case NewestFirst => (o: WorkOrder) => Key(-o.createdAt, 0)
  }

  /** `getOrdersInStatus`: the shown orders in that status, each as many times as it is
      shown, sorted stably by the column's sort. */
  function OrdersInStatus(shown: seq<WorkOrder>, status: OSStatus, sort: ColumnSort): (r: seq<WorkOrder>)
    ensures forall o :: multiset(r)[o] == if o.status == status then multiset(shown)[o] else 0
    ensures forall i :: 0 <= i < |r| ==> r[i].status == status
    ensures Sorted(r, SortKey(sort))
    ensures forall k :: KeepKey(r, SortKey(sort), k)
                        == KeepKey(Filter(shown, (o: WorkOrder) => o.status == status), SortKey(sort), k)
  {
    var inStatus := Filter(shown, (o: WorkOrder) => o.status == status);
    var r := SortBy(inStatus, SortKey(sort));
    assert forall i :: 0 <= i < |r| ==> r[i].status == status by {
      forall i | 0 <= i < |r| ensures r[i].status == status {
        assert r[i] in multiset(inStatus);
      }
    }
    r
  }

  /** Each sort's order, in the board's terms: weights ascending, weights descending,
      or creation instants from newest to oldest. */
  lemma ColumnOrder(shown: seq<WorkOrder>, status: OSStatus, sort: ColumnSort)
    ensures var r := OrdersInStatus(shown, status, sort);
            && (sort == PriorityAsc ==>
                  forall i, j :: 0 <= i < j < |r| ==> Weight(r[i].priority) <= Weight(r[j].priority))
            && (sort == PriorityDesc ==>
                  forall i, j :: 0 <= i < j < |r| ==> Weight(r[i].priority) >= Weight(r[j].priority))
            && (sort == NewestFirst ==>
                  forall i, j :: 0 <= i < j < |r| ==> r[i].createdAt >= r[j].createdAt)
  {
    var r := OrdersInStatus(shown, status, sort);
    forall i, j | 0 <= i < j < |r|
      ensures KeyLe(SortKey(sort)(r[i]), SortKey(sort)(r[j]))
    {
    }
  }

  /** Every shown order outside Reception lands in exactly one column, as many times
      as it is shown; orders in Reception land in none. */
  lemma ColumnsPartition(shown: seq<WorkOrder>, sort: OSStatus -> ColumnSort, o: WorkOrder)
    ensures o.status != Reception ==>
              forall c :: c in Columns() ==>
                multiset(OrdersInStatus(shown, c, sort(c)))[o] == if c == o.status then multiset(shown)[o] else 0
    ensures o.status == Reception ==>
              forall c :: c in Columns() ==> o !in OrdersInStatus(shown, c, sort(c))
  {
    forall c | c in Columns() && o.status == Reception ensures o !in OrdersInStatus(shown, c, sort(c)) {
      assert multiset(OrdersInStatus(shown, c, sort(c)))[o] == 0;
    }
  }

  /** With a high-priority order in the column, the descending sort puts one first. */
  lemma HighFirst(shown: seq<WorkOrder>, status: OSStatus, o: WorkOrder)
    requires o in shown && o.status == status && o.priority == High
    ensures var r := OrdersInStatus(shown, status, PriorityDesc);
            |r| > 0 && r[0].priority == High
  {
    var r := OrdersInStatus(shown, status, PriorityDesc);
    InItsColumn(shown, status, PriorityDesc, o);
    var k :| 0 <= k < |r| && r[k] == o;
    ColumnOrder(shown, status, PriorityDesc);
    assert k == 0 || Weight(r[0].priority) >= Weight(r[k].priority);
  }

  /** A shown order appears in the column of its status. */
  lemma InItsColumn(shown: seq<WorkOrder>, status: OSStatus, sort: ColumnSort, o: WorkOrder)
    requires o in shown && o.status == status
    ensures o in OrdersInStatus(shown, status, sort)
  {
    assert multiset(shown)[o] > 0;
    assert multiset(OrdersInStatus(shown, status, sort))[o] > 0;
  }
}
