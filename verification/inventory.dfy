/** The stock screen's figures and the gearbox catalogue filter: the total of the stock
    column, the number of parts below their minimum, and the gearboxes kept by the
    search box (model or code, ignoring case) and the brand selector. */
module Inventory {
  import opened Prelude
  import opened Types

  /** `inventory.reduce((acc, i) => acc + i.stock, 0)`. */
  function StockTotal(items: seq<InventoryItem>): (r: int)
    ensures (forall i :: 0 <= i < |items| ==> items[i].stock >= 0) ==> r >= 0
    ensures (forall i :: 0 <= i < |items| ==> items[i].stock == 0) ==> r == 0
    ensures (forall i :: 0 <= i < |items| ==> items[i].stock <= 0) ==> r <= 0
  {
    if |items| == 0 then 0 else StockTotal(items[..|items| - 1]) + items[|items| - 1].stock
  }

  lemma {:induction false} StockTotalAppend(a: seq<InventoryItem>, b: seq<InventoryItem>)
    ensures StockTotal(a + b) == StockTotal(a) + StockTotal(b)
    decreases |b|
  {
    if |b| == 0 {
      assert a + b == a;
    } else {
      assert (a + b)[..|a + b| - 1] == a + b[..|b| - 1];
      StockTotalAppend(a, b[..|b| - 1]);
    }
  }

  /** With no negative stock, the total is at least each item's stock. */
  lemma {:induction false} StockTotalBounds(items: seq<InventoryItem>, k: nat)
    requires forall i :: 0 <= i < |items| ==> items[i].stock >= 0
    requires k < |items|
    ensures StockTotal(items) >= items[k].stock >= 0
    decreases |items|
  {
    var n := |items| - 1;
    NonNegativeTotal(items[..n]);
    if k < n {
      StockTotalBounds(items[..n], k);
    }
  }

  lemma {:induction false} NonNegativeTotal(items: seq<InventoryItem>)
    requires forall i :: 0 <= i < |items| ==> items[i].stock >= 0
    ensures StockTotal(items) >= 0
    decreases |items|
  {
    if |items| > 0 {
      NonNegativeTotal(items[..|items| - 1]);
    }
  }

  /** The item's stock is strictly below its minimum. */
  predicate Below(i: InventoryItem) {
    i.stock < i.minStock
  }

  /** "Abaixo do Mínimo": `inventory.filter(i => i.stock < i.minStock).length`. */
  function BelowMinimum(items: seq<InventoryItem>): (n: nat)
    ensures n <= |items|
    ensures n == 0 <==> forall i :: 0 <= i < |items| ==> !Below(items[i])
    ensures n == |items| <==> forall i :: 0 <= i < |items| ==> Below(items[i])
  {
    FilterKeepsAll(items, Below);
    FilterKeepsNone(items, Below);
    |Filter(items, Below)|
  }

  /** The count adds up over a split list, one for each item below its minimum. */
  lemma BelowMinimumCounts(a: seq<InventoryItem>, b: seq<InventoryItem>, x: InventoryItem)
    ensures BelowMinimum(a + b) == BelowMinimum(a) + BelowMinimum(b)
    ensures BelowMinimum([x]) == if x.stock < x.minStock then 1 else 0
  {
    FilterAppend(a, b, Below);
  }

  // ---------------------------------------------------------------------------
  // Gearbox catalogue filter

  /** The gearbox passes the search box (model or code contains it, ignoring case)
      and the brand selector (none selected, or the same brand). */
  predicate GearboxShown(g: Gearbox, search: string, brand: string) {
    (Contains(Lower(g.model), Lower(search)) || Contains(Lower(g.code), Lower(search)))
    && (brand == "" || g.brand == brand)
  }

  /** `filteredGearboxes`: the gearboxes shown, in catalogue order. */
  function FilterGearboxes(gearboxes: seq<Gearbox>, search: string, brand: string): (r: seq<Gearbox>)
    ensures forall g :: g in r <==> g in gearboxes && GearboxShown(g, search, brand)
    ensures forall g :: multiset(r)[g] == if GearboxShown(g, search, brand) then multiset(gearboxes)[g] else 0
    ensures |r| <= |gearboxes|
  {
    var r := Filter(gearboxes, (g: Gearbox) => GearboxShown(g, search, brand));
    assert forall g :: g in r <==> g in gearboxes && GearboxShown(g, search, brand) by {
      forall g ensures g in r <==> g in gearboxes && GearboxShown(g, search, brand) {
        FilterMembers(gearboxes, (g: Gearbox) => GearboxShown(g, search, brand), g);
      }
    }
    r
  }
  /** The filter keeps catalogue order: it works piece by piece over a concatenation,
      and one gearbox is kept exactly when it is shown. */
  lemma FilterGearboxesInOrder(a: seq<Gearbox>, b: seq<Gearbox>, g: Gearbox, search: string, brand: string)
    ensures FilterGearboxes(a + b, search, brand) == FilterGearboxes(a, search, brand) + FilterGearboxes(b, search, brand)
    ensures FilterGearboxes([g], search, brand) == if GearboxShown(g, search, brand) then [g] else []
  {
    FilterAppend(a, b, (g: Gearbox) => GearboxShown(g, search, brand));
  }


  /** With an empty search and no brand selected, the whole catalogue is shown. */
  lemma NoFilterShowsAll(gearboxes: seq<Gearbox>)
    ensures FilterGearboxes(gearboxes, "", "") == gearboxes
  {
    forall g ensures GearboxShown(g, "", "") {
      assert StartsWith(Lower(g.model), Lower(""));
    }
    FilterKeepsAll(gearboxes, (g: Gearbox) => GearboxShown(g, "", ""));
  }
}
