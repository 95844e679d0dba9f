/** The effects of the host hooks on the wealth grid: a recount resets the
    grid and then registers every contribution the host enumerates, and the
    zoom hotkeys step the zoom down (never below 1) or up. */
module Patches {
  import opened Host
  import opened WealthMap

  /** A wealth recount: the grid is reset, then each contribution is
      registered in turn. The grid ends up holding, at each index, the total
      registered there, and the total wealth is the total registered. */
  method ForceRecount(wealth: Wealth, cs: seq<Contribution>)
    requires wealth.Valid()
    requires InGrid(cs, wealth.sizeX, GridLength(wealth.sizeX, wealth.sizeZ, wealth.zoom))
    modifies wealth`zoom, wealth`wealthGrid, wealth.drawer`dirty
    ensures wealth.Valid() && wealth.zoom == old(wealth.zoom) && wealth.drawer.dirty
    ensures fresh(wealth.wealthGrid)
    ensures wealth.wealthGrid[..] == Deposit(Zeros(wealth.wealthGrid.Length), cs, wealth.sizeX)
    ensures wealth.TotalWealth() == Total(cs)
    ensures forall i :: 0 <= i < wealth.wealthGrid.Length ==>
              wealth.wealthGrid[i] == CellTotal(cs, wealth.sizeX, i)
  {
    wealth.Reset();
    ghost var n := wealth.wealthGrid.Length;
    var k := 0;
    while k < |cs|
      invariant 0 <= k <= |cs|
      invariant wealth.Valid() && wealth.zoom == old(wealth.zoom) && wealth.drawer.dirty
      invariant fresh(wealth.wealthGrid) && wealth.wealthGrid.Length == n
      invariant InGrid(cs[..k], wealth.sizeX, n)
      invariant wealth.wealthGrid[..] == Deposit(Zeros(n), cs[..k], wealth.sizeX)
      modifies wealth.wealthGrid, wealth.drawer`dirty
    {
      assert cs[..k + 1][..k] == cs[..k];
      match cs[k] {
        case AtIndex(v, index) =>
          wealth.Register(v, index);
        case Held(v, position) =>
          wealth.RegisterHeld(v, position);
      }
      k := k + 1;
    }
    assert cs[..|cs|] == cs;
    RecountFromZeros(cs, wealth.sizeX, n);
    assert wealth.TotalWealth() == Sum(Deposit(Zeros(n), cs, wealth.sizeX));
  }

  /** The zoom-out key: lowers the zoom by one, but only while it is above 1. */
  method DecreaseZoom(wealth: Wealth)
    requires wealth.Valid()
    modifies wealth`zoom, wealth`wealthGrid, wealth.drawer`dirty
    ensures wealth.Valid()
    ensures wealth.zoom == if old(wealth.zoom) > 1 then old(wealth.zoom) - 1 else old(wealth.zoom)
    ensures old(wealth.zoom) > 1 ==>
              && fresh(wealth.wealthGrid) && wealth.TotalWealth() == 0.0
              && wealth.wealthGrid[..] == Zeros(GridLength(wealth.sizeX, wealth.sizeZ, wealth.zoom))
              && wealth.drawer.dirty
    ensures old(wealth.zoom) == 1 ==>
              && wealth.wealthGrid == old(wealth.wealthGrid)
              && wealth.drawer.dirty == old(wealth.drawer.dirty)
  {
    if wealth.zoom > 1 {
      wealth.SetZoom(wealth.zoom - 1);
    }
  }

  /** The zoom-in key: raises the zoom by one. */
  method IncreaseZoom(wealth: Wealth)
    requires wealth.Valid()
    modifies wealth`zoom, wealth`wealthGrid, wealth.drawer`dirty
    ensures wealth.Valid() && wealth.zoom == old(wealth.zoom) + 1
    ensures fresh(wealth.wealthGrid) && wealth.TotalWealth() == 0.0
    ensures wealth.wealthGrid[..] == Zeros(GridLength(wealth.sizeX, wealth.sizeZ, wealth.zoom))
    ensures wealth.drawer.dirty
  {
    wealth.SetZoom(wealth.zoom + 1);
  }
}
