/** The order screen's stage machine and its list edits: moving an order one stage
    forward or back along Budget, Approval, Scheduled, Execution, Finished; the
    checklist (add, toggle, remove); and the budget lines, where adding a line whose
    description (ignoring case) and kind match an existing one raises that line's
    quantity instead of appending a new line. */
module OrderFlow {
  import opened Prelude
  import opened Types

  // ---------------------------------------------------------------------------
  // Stages

  /** The stage sequence the screen walks; Reception is not on it. */
  function Stages(): seq<OSStatus> {
    [Budget, Approval, Scheduled, Execution, Finished]
  }

  /** The position of a status in the enum's declaration order. */
  function Rank(s: OSStatus): nat {
    match s
    case Reception => 0
    case Budget => 1
    case Approval => 2
    case Scheduled => 3
    case Execution => 4
    case Finished => 5
  }

  /** `seq.indexOf(status)`, with -1 written `None`. */
  function StageIndex(s: OSStatus): (r: Option<nat>)
    ensures r.None? <==> s !in Stages()
    ensures r.Some? ==> r.value < |Stages()| && Stages()[r.value] == s
  {
    if s == Budget then Some(0)
    else if s == Approval then Some(1)
    else if s == Scheduled then Some(2)
    else if s == Execution then Some(3)
    else if s == Finished then Some(4)
    else None
  }

  /** `getNextStatus`: the stage after the current one; none after Finished and none
      for a status off the sequence. */
  function NextStatus(s: OSStatus): (r: Option<OSStatus>)
    ensures r.None? <==> s == Finished || s == Reception
    ensures r.Some? ==> Rank(r.value) == Rank(s) + 1
  {
    match StageIndex(s)
    case None => None
    case Some(i) => if i < |Stages()| - 1 then Some(Stages()[i + 1]) else None
  }

  /** `handleRevert`: the stage before the current one; none at the head of the
      sequence or off it, where the screen does nothing. */
  function PreviousStatus(s: OSStatus): (r: Option<OSStatus>)
    ensures r.None? <==> s == Budget || s == Reception
    ensures r.Some? ==> Rank(r.value) + 1 == Rank(s)
  {
    match StageIndex(s)
    case None => None
    case Some(i) => if i <= 0 then None else Some(Stages()[i - 1])
  }

  /** One step forward and one step back lead to where they started. */
  lemma NextThenPrevious(s: OSStatus)
    ensures NextStatus(s).Some? ==> PreviousStatus(NextStatus(s).value) == Some(s)
  {
  }

  lemma PreviousThenNext(s: OSStatus)
    ensures PreviousStatus(s).Some? ==> NextStatus(PreviousStatus(s).value) == Some(s)
  {
  }

  /** `confirmRevert`: the status moves one stage back, and leaving Scheduled also
      clears the booking (date and mechanic). Nothing happens where there is no stage
      to go back to. */
  function Revert(o: WorkOrder): (r: WorkOrder)
    ensures PreviousStatus(o.status).None? ==> r == o
    ensures PreviousStatus(o.status).Some? ==> r.status == PreviousStatus(o.status).value
    ensures o.status == Scheduled ==> r.scheduledDate.None? && r.mechanicId.None?
    ensures o.status != Scheduled ==> r.scheduledDate == o.scheduledDate && r.mechanicId == o.mechanicId
    ensures r.(status := o.status, scheduledDate := o.scheduledDate, mechanicId := o.mechanicId) == o
  {
    match PreviousStatus(o.status)
    case None => o
    case Some(prev) =>
      var moved := o.(status := prev);
      if o.status == Scheduled then moved.(scheduledDate := None, mechanicId := None) else moved
  }

  /** Reverting from Approval undoes the step from Budget to Approval. */
  lemma RevertUndoesApproval(o: WorkOrder)
    requires o.status == Budget
    ensures Revert(o.(status := NextStatus(o.status).value)) == o
  {
  }

  // ---------------------------------------------------------------------------
  // Checklist

  /** `handleAddChecklistItem`: a label that is blank after trimming adds nothing;
      otherwise one unchecked item with that label goes at the end. `id` is the
      generated identifier. */
  function AddChecklistItem(list: seq<ChecklistItem>, id: string, text: string): (r: seq<ChecklistItem>)
    ensures IsBlank(text) ==> r == list
    ensures !IsBlank(text) ==> |r| == |list| + 1 && r[..|list|] == list
                               && r[|list|] == ChecklistItem(id, text, false)
  {
    if IsBlank(text) then list else list + [ChecklistItem(id, text, false)]
  }

  /** `toggleChecklistItem`: every item with that id has its mark flipped; everything
      else is kept. */
  function ToggleChecklistItem(list: seq<ChecklistItem>, id: string): (r: seq<ChecklistItem>)
    ensures |r| == |list|
    ensures forall i :: 0 <= i < |r| ==>
              r[i].id == list[i].id && r[i].text == list[i].text
              && (r[i].checked <==> (list[i].checked != (list[i].id == id)))
  {
    seq(|list|, i requires 0 <= i < |list| =>
      if list[i].id == id then list[i].(checked := !list[i].checked) else list[i])
  }

  /** Toggling the same item twice restores the list. */
  lemma ToggleTwice(list: seq<ChecklistItem>, id: string)
    ensures ToggleChecklistItem(ToggleChecklistItem(list, id), id) == list
  {
    var once := ToggleChecklistItem(list, id);
    var twice := ToggleChecklistItem(once, id);
    assert forall i :: 0 <= i < |list| ==> twice[i] == list[i];
  }

  /** `removeChecklistItem`: the items with that id go, the others stay in order. */
  function RemoveChecklistItem(list: seq<ChecklistItem>, id: string): (r: seq<ChecklistItem>)
    ensures forall x :: x in r <==> x in list && x.id != id
    ensures forall x: ChecklistItem :: multiset(r)[x] == if x.id != id then multiset(list)[x] else 0
  {
    var r := Filter(list, (x: ChecklistItem) => x.id != id);
    assert forall x :: x in r <==> x in list && x.id != id by {
      forall x ensures x in r <==> x in list && x.id != id {
        FilterMembers(list, (x: ChecklistItem) => x.id != id, x);
      }
    }
    r
  }
  /** Removal keeps the other items in order: it works piece by piece over a
      concatenation, and one item is dropped exactly when it has that id. */
  lemma RemoveChecklistItemInOrder(a: seq<ChecklistItem>, b: seq<ChecklistItem>, x: ChecklistItem, id: string)
    ensures RemoveChecklistItem(a + b, id) == RemoveChecklistItem(a, id) + RemoveChecklistItem(b, id)
    ensures RemoveChecklistItem([x], id) == if x.id == id then [] else [x]
  {
    FilterAppend(a, b, (x: ChecklistItem) => x.id != id);
  }


  /** Removing an item just added under a fresh id gives back the list. */
  lemma RemoveUndoesAdd(list: seq<ChecklistItem>, id: string, text: string)
    requires forall i :: 0 <= i < |list| ==> list[i].id != id
    ensures RemoveChecklistItem(AddChecklistItem(list, id, text), id) == list
  {
    var added := AddChecklistItem(list, id, text);
    FilterDropsOnlyLast(list, added, id);
  }

  lemma FilterDropsOnlyLast(list: seq<ChecklistItem>, added: seq<ChecklistItem>, id: string)
    requires forall i :: 0 <= i < |list| ==> list[i].id != id
    requires added == list || (|added| == |list| + 1 && added[..|list|] == list && added[|list|].id == id)
    ensures Filter(added, (x: ChecklistItem) => x.id != id) == list
  {
    var keep := (x: ChecklistItem) => x.id != id;
    FilterIdentity(list, keep);
    if added != list {
      var last := added[|list|];
      assert added == list + [last];
      FilterAppend(list, [last], keep);
      assert Filter([last], keep) == [];
    }
  }

  // ---------------------------------------------------------------------------
  // Budget lines

  /** The line matches a new entry: same description ignoring case, and same kind. */
  predicate SameLine(item: OrderItem, description: string, kind: ItemKind) {
    Lower(item.description) == Lower(description) && item.kind == kind
  }

  /** The line at `k` is the first that matches the entry. */
  predicate FirstMatch(items: seq<OrderItem>, description: string, kind: ItemKind, k: int) {
    0 <= k < |items| && SameLine(items[k], description, kind)
    && forall j :: 0 <= j < k ==> !SameLine(items[j], description, kind)
  }

  /** `order.items.find(...)` for the entry, as a position: the first line that matches. */
  function FirstSameLine(items: seq<OrderItem>, description: string, kind: ItemKind): (r: Option<nat>)
    ensures r.Some? ==> r.value < |items| && SameLine(items[r.value], description, kind)
                        && forall j :: 0 <= j < r.value ==> !SameLine(items[j], description, kind)
    ensures r.None? <==> forall j :: 0 <= j < |items| ==> !SameLine(items[j], description, kind)
  {
    FindFrom(items, (i: OrderItem) => SameLine(i, description, kind), 0)
  }

  /** `order.items.map(i => i.id === id ? { ...i, quantity } : i)`. */
  function SetQuantity(items: seq<OrderItem>, id: string, quantity: int): (r: seq<OrderItem>)
    ensures |r| == |items|
    ensures forall i :: 0 <= i < |r| ==>
              r[i] == if items[i].id == id then items[i].(quantity := quantity) else items[i]
  {
    seq(|items|, i requires 0 <= i < |items| =>
      if items[i].id == id then items[i].(quantity := quantity) else items[i])
  }

  /** The result of `handleAddItem`: a blank description adds nothing; the first line
      matching the entry has its quantity raised by `quantity`; otherwise a new line
      goes at the end, with `id` the identifier the store assigns it. */
  function SmartAdd(items: seq<OrderItem>, description: string, kind: ItemKind, quantity: int, price: int, id: string)
    : (r: seq<OrderItem>)
    ensures IsBlank(description) ==> r == items
    ensures !IsBlank(description) && (exists i :: 0 <= i < |items| && SameLine(items[i], description, kind))
            ==> |r| == |items|
    ensures !IsBlank(description) ==>
              forall k {:trigger FirstMatch(items, description, kind, k)} :: FirstMatch(items, description, kind, k)
                ==> forall i :: 0 <= i < |r| ==>
                      r[i] == if items[i].id == items[k].id then items[i].(quantity := items[k].quantity + quantity)
                              else items[i]
    ensures !IsBlank(description) && (forall i :: 0 <= i < |items| ==> !SameLine(items[i], description, kind))
            ==> r == items + [OrderItem(id, kind, description, quantity, price)]
  {
    if IsBlank(description) then items
    else
      match FirstSameLine(items, description, kind)
      case Some(k) =>
        assert forall k' {:trigger FirstMatch(items, description, kind, k')} ::
                 FirstMatch(items, description, kind, k') ==> k' == k;
        SetQuantity(items, items[k].id, items[k].quantity + quantity)
      case None => items + [OrderItem(id, kind, description, quantity, price)]
  }

  /** `removeItem`: the lines with that id go, the others stay in order. */
  function RemoveItem(items: seq<OrderItem>, id: string): (r: seq<OrderItem>)
    ensures forall x :: x in r <==> x in items && x.id != id
    ensures forall x :: multiset(r)[x] == if x.id == id then 0 else multiset(items)[x]
  {
    var r := Filter(items, (x: OrderItem) => x.id != id);
    assert forall x :: x in r <==> x in items && x.id != id by {
      forall x ensures x in r <==> x in items && x.id != id {
        FilterMembers(items, (x: OrderItem) => x.id != id, x);
      }
    }
    r
  }

  /** Removal works line by line and keeps the order: it distributes over joining
      two lists, and drops a single line exactly when it has that id. */
  lemma RemoveItemInOrder(a: seq<OrderItem>, b: seq<OrderItem>, x: OrderItem, id: string)
    ensures RemoveItem(a + b, id) == RemoveItem(a, id) + RemoveItem(b, id)
    ensures RemoveItem([x], id) == if x.id == id then [] else [x]
  {
    FilterAppend(a, b, (x: OrderItem) => x.id != id);
  }

  /** The sum of the lines' quantities. */
  function TotalQuantity(items: seq<OrderItem>): int {
    if |items| == 0 then 0 else TotalQuantity(items[..|items| - 1]) + items[|items| - 1].quantity
  }

  /** The id of the line at `i`. */
  function IdAt(items: seq<OrderItem>, i: nat): string
    requires i < |items|
  {
    items[i].id
  }

  /** No two lines share an id. */
  predicate DistinctIds(items: seq<OrderItem>) {
    forall i, j {:trigger IdAt(items, i), IdAt(items, j)} :: 0 <= i < j < |items| ==> IdAt(items, i) != IdAt(items, j)
  }

  /** With distinct line ids, a smart add of a non-blank entry adds exactly `quantity`
      to the budget's total quantity, whether it merges or appends. */
  lemma SmartAddAddsQuantity(items: seq<OrderItem>, description: string, kind: ItemKind, quantity: int, price: int, id: string)
    requires DistinctIds(items) && !IsBlank(description)
    ensures TotalQuantity(SmartAdd(items, description, kind, quantity, price, id)) == TotalQuantity(items) + quantity
  {
    var found := FirstSameLine(items, description, kind);
    if found.Some? {
      MergeAddsQuantity(items, found.value, quantity);
    } else {
      AppendQuantity(items, OrderItem(id, kind, description, quantity, price));
    }
  }

  lemma MergeAddsQuantity(items: seq<OrderItem>, k: nat, quantity: int)
    requires DistinctIds(items) && k < |items|
    ensures TotalQuantity(SetQuantity(items, items[k].id, items[k].quantity + quantity)) == TotalQuantity(items) + quantity
  {
    SetQuantityTotal(items, k, items[k].quantity + quantity);
  }

  lemma AppendQuantity(items: seq<OrderItem>, line: OrderItem)
    ensures TotalQuantity(items + [line]) == TotalQuantity(items) + line.quantity
  {
    assert (items + [line])[..|items|] == items;
  }

  lemma SetQuantityTotal(items: seq<OrderItem>, k: nat, q: int)
    requires DistinctIds(items) && k < |items|
    ensures TotalQuantity(SetQuantity(items, items[k].id, q)) == TotalQuantity(items) - items[k].quantity + q
  {
    var r := SetQuantity(items, items[k].id, q);
    SetQuantityAtOne(items, k, q, |items|);
    assert r[..|items|] == r && items[..|items|] == items;
  }

  /** Setting the quantity of the line at `k` by id, with distinct ids, changes the
      total of the first `n` lines by the difference at `k` alone. */
  lemma {:induction false} SetQuantityAtOne(items: seq<OrderItem>, k: nat, q: int, n: nat)
    requires DistinctIds(items) && k < |items| && n <= |items|
    ensures var r := SetQuantity(items, items[k].id, q);
            TotalQuantity(r[..n]) == TotalQuantity(items[..n]) + (if k < n then q - items[k].quantity else 0)
  {
    var r := SetQuantity(items, items[k].id, q);
    if n > 0 {
      SetQuantityAtOne(items, k, q, n - 1);
      assert r[..n][..n - 1] == r[..n - 1];
      assert items[..n][..n - 1] == items[..n - 1];
      if n - 1 != k {
        assert IdAt(items, n - 1) != IdAt(items, k);
      }
    }
  }

  /** Adding the same entry twice never grows the list the second time: the line the
      first add appended or raised is found again. */
  lemma SecondAddMerges(items: seq<OrderItem>, description: string, kind: ItemKind, q1: int, q2: int, price: int, id1: string, id2: string)
    requires !IsBlank(description)
    ensures var once := SmartAdd(items, description, kind, q1, price, id1);
            |SmartAdd(once, description, kind, q2, price, id2)| == |once|
  {
    var once := SmartAdd(items, description, kind, q1, price, id1);
    match FirstSameLine(items, description, kind)
    case Some(k) =>
      assert SameLine(once[k], description, kind);
    case None =>
      assert SameLine(once[|items|], description, kind);
  }
}
