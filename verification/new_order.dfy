/** Opening a work order from the reception form: the order starts as a budget with no
    lines, and its estimated duration comes from the catalogue gearbox of the vehicle's
    brand and model. Also the form's client search. */
module NewOrder {
  import opened Prelude
  import opened Types
  import opened AssemblyTime

  // ---------------------------------------------------------------------------
  // The new order

  /** The catalogue entry of a vehicle: same brand and same model, exactly. */
  predicate FitsVehicle(g: Gearbox, v: Vehicle) {
    g.brand == v.brand && g.model == v.model
  }

  /** `gearboxes.find(g => g.brand === v.brand && g.model === v.model)`. */
  function CatalogueGearbox(v: Vehicle, gearboxes: seq<Gearbox>): (r: Option<Gearbox>)
    ensures r.None? <==> forall j :: 0 <= j < |gearboxes| ==> !FitsVehicle(gearboxes[j], v)
    ensures r.Some? ==> exists i :: 0 <= i < |gearboxes| && gearboxes[i] == r.value && FitsVehicle(r.value, v)
                                    && forall j :: 0 <= j < i ==> !FitsVehicle(gearboxes[j], v)
  {
    Find(gearboxes, (g: Gearbox) => FitsVehicle(g, v))
  }

  /** The estimated duration of a new order: the parsed assembly time of the vehicle's
      catalogue gearbox, or 0 when there is none or it has no assembly time. */
  function EstimatedDuration(v: Vehicle, gearboxes: seq<Gearbox>): (d: nat)
    ensures CatalogueGearbox(v, gearboxes).None? ==> d == 0
    ensures CatalogueGearbox(v, gearboxes).Some? ==> d == ParseDuration(CatalogueGearbox(v, gearboxes).value.assemblyTime)
  {
    match CatalogueGearbox(v, gearboxes)
    case Some(g) => if g.assemblyTime != "" then ParseDuration(g.assemblyTime) else 0
    case None => 0
  }

  /** `handleSubmitOS`: nothing without a selected vehicle; otherwise a budget for that
      vehicle with the form's priority, category and fault, no lines, no booking,
      0 km and the tank at 50. `id` and `createdAt` are the generated identifier and
      the current instant. */
  function OpenOrder(vehicle: Option<Vehicle>, gearboxes: seq<Gearbox>, priority: Priority, category: VehicleCategory,
                     fault: string, id: string, createdAt: int): (r: Option<WorkOrder>)
    ensures r.None? <==> vehicle.None?
    ensures r.Some? ==>
              var o := r.value;
              && o.status == Budget && o.items == [] && o.checklist == []
              && o.vehicleId == vehicle.value.id && o.priority == priority && o.category == category
              && o.reportedFault == fault && o.km == 0 && o.fuelLevel == Some(50)
              && o.mechanicId.None? && o.scheduledDate.None?
              && o.id == id && o.createdAt == createdAt
    ensures r.Some? ==> r.value.estimatedDuration == EstimatedDuration(vehicle.value, gearboxes)
  {
    match vehicle
    case None => None
    case Some(v) =>
      Some(WorkOrder(id, v.id, Budget, priority, category, 0, Some(50), fault, None, None,
                     EstimatedDuration(v, gearboxes), [], [], createdAt))
  }

  /** A vehicle whose catalogue gearbox carries one of the selector's labels gets an
      order lasting exactly those minutes. */
  lemma DurationFromLabel(vehicle: Vehicle, gearboxes: seq<Gearbox>, i: nat, m: nat)
    requires i < |gearboxes| && FitsVehicle(gearboxes[i], vehicle)
    requires forall j :: 0 <= j < i ==> !FitsVehicle(gearboxes[j], vehicle)
    requires gearboxes[i].assemblyTime == Label(m)
    ensures OpenOrder(Some(vehicle), gearboxes, Low, Private, "", "", 0).value.estimatedDuration == m
  {
    assert CatalogueGearbox(vehicle, gearboxes) == Some(gearboxes[i]) by {
      assert FindFrom(gearboxes, (g: Gearbox) => FitsVehicle(g, vehicle), 0) == Some(i);
    }
    ParseLabel(m);
  }

  // ---------------------------------------------------------------------------
  // Client search

  /** The client matches the search: its lower-cased name contains the lower-cased
      search, or its CPF contains the search as typed. */
  predicate ClientMatches(c: Client, search: string) {
    Contains(Lower(c.name), Lower(search)) || Contains(c.cpf, search)
  }

  /** `filteredClients`: every client for an empty search, the matching ones in order
      otherwise. */
  function FilterClients(clients: seq<Client>, search: string): (r: seq<Client>)
    ensures search == "" ==> r == clients
    ensures search != "" ==> forall c :: c in r <==> c in clients && ClientMatches(c, search)
    ensures search != "" ==> forall c :: multiset(r)[c] == if ClientMatches(c, search) then multiset(clients)[c] else 0
    ensures |r| <= |clients|
  {
    if search == "" then clients
    else
      var r := Filter(clients, (c: Client) => ClientMatches(c, search));
      assert forall c :: c in r <==> c in clients && ClientMatches(c, search) by {
        forall c ensures c in r <==> c in clients && ClientMatches(c, search) {
          FilterMembers(clients, (c: Client) => ClientMatches(c, search), c);
        }
      }
      r
  }
  /** The search keeps list order: it works piece by piece over a concatenation, and one
      client is kept exactly when it matches. */
  lemma FilterClientsInOrder(a: seq<Client>, b: seq<Client>, c: Client, search: string)
    requires search != ""
    ensures FilterClients(a + b, search) == FilterClients(a, search) + FilterClients(b, search)
    ensures FilterClients([c], search) == if ClientMatches(c, search) then [c] else []
  {
    FilterAppend(a, b, (c: Client) => ClientMatches(c, search));
  }


  /** A client is found by its own CPF. */
  lemma FoundByCpf(clients: seq<Client>, c: Client)
    requires c in clients
    ensures c in FilterClients(clients, c.cpf)
  {
    assert StartsWith(c.cpf, c.cpf);
  }

  /** A longer search never finds more clients. */
  lemma NarrowingSearch(clients: seq<Client>, search: string, more: string)
    ensures forall c :: c in FilterClients(clients, search + more) ==> c in FilterClients(clients, search)
  {
    if search != "" {
      assert search + more != "";
      forall c | c in FilterClients(clients, search + more)
        ensures c in FilterClients(clients, search)
      {
        if Contains(c.cpf, search + more) {
          ContainsPrefix(c.cpf, search, more);
        } else {
          LowerAppend(search, more);
          ContainsPrefix(Lower(c.name), Lower(search), Lower(more));
        }
      }
    } else {
      assert search + more == more;
    }
  }

  /** A string containing `a + b` contains `a`. */
  lemma ContainsPrefix(s: string, a: string, b: string)
    requires Contains(s, a + b)
    ensures Contains(s, a)
  {
    ContainsAt(s, a + b);
    var i :| OccursAt(s, a + b, i);
    assert s[i..i + |a|] == (a + b)[..|a|] == a;
    assert OccursAt(s, a, i);
    ContainsAt(s, a);
  }
}
