/** The per-map wealth grid: market values are added to cells of a flat grid
    indexed by the host's native cell index, the grid is reallocated to zeros
    whenever the zoom is set, and the overlay shows the cells holding a
    positive amount. */
module WealthMap {
  import opened Host
  import opened MeshLayout
  import opened ZoomGrid

  /** The length of the grid for a map of sizeX by sizeZ cells at a zoom:
      the cell count divided by the zoom twice, rounding down each time. */
  function GridLength(sizeX: nat, sizeZ: nat, zoom: int): nat
    requires zoom >= 1
  {
    sizeX * sizeZ / zoom / zoom
  }

  /** The host's native index of a cell: row-major, z rows of sizeX cells. */
  function CellToIndex(c: IntVec3, mapSizeX: int): int
  {
    c.z * mapSizeX + c.x
  }

  /** The host's inverse mapping from a native index back to its cell. */
  function IndexToCell(index: int, mapSizeX: int): IntVec3
    requires mapSizeX >= 1
  {
    IntVec3(index % mapSizeX, index / mapSizeX)
  }

  /** Every cell of the map has an index in 0 .. sizeX*sizeZ - 1, and the two
      mappings are inverse to each other there. */
  lemma CellIndexRoundTrip(c: IntVec3, sizeX: nat, sizeZ: nat)
    requires 0 <= c.x < sizeX && 0 <= c.z < sizeZ
    ensures 0 <= CellToIndex(c, sizeX) < sizeX * sizeZ
    ensures IndexToCell(CellToIndex(c, sizeX), sizeX) == c
  {
    var i := CellToIndex(c, sizeX);
    assert c.z * sizeX <= (sizeZ - 1) * sizeX by {
      MulMono(c.z, sizeZ - 1, sizeX);
    }
    assert i == sizeX * c.z + c.x;
    DivModUnique(i, sizeX, c.z, c.x);
  }

  /** Every index of the full-size grid names a map cell, and mapping it to
      its cell and back gives it again. */
  lemma IndexCellRoundTrip(index: int, sizeX: nat, sizeZ: nat)
    requires sizeX >= 1 && 0 <= index < sizeX * sizeZ
    ensures var c := IndexToCell(index, sizeX);
            0 <= c.x < sizeX && 0 <= c.z < sizeZ && CellToIndex(c, sizeX) == index
  {
    var c := IndexToCell(index, sizeX);
    if c.z >= sizeZ {
      MulMono(sizeZ, c.z, sizeX);
      assert false;
    }
  }

  lemma MulMono(a: int, b: int, k: nat)
    requires a <= b
    ensures a * k <= b * k
  {
  }

  lemma DivModUnique(i: int, d: int, q: int, r: int)
    requires d >= 1 && 0 <= r < d && i == d * q + r
    ensures i / d == q && i % d == r
  {
    var q', r' := i / d, i % d;
    assert d * q' + r' == d * q + r;
    if q' > q {
      MulMono(1, q' - q, d);
      assert false;
    } else if q' < q {
      MulMono(1, q - q', d);
      assert false;
    }
  }

  /** Dividing a positive count by a zoom of 2 or more strictly shrinks it,
      and dividing a count never makes it larger. */
  lemma DivisionShrinks(n: nat, zoom: int)
    requires zoom >= 1
    ensures n / zoom <= n
    ensures n >= 1 && zoom >= 2 ==> n / zoom < n
  {
  }

  /** The native index of the map's last cell is one less than the cell count. */
  lemma LastCellIndex(sizeX: nat, sizeZ: nat)
    requires sizeX >= 1 && sizeZ >= 1
    ensures CellToIndex(IntVec3(sizeX - 1, sizeZ - 1), sizeX) == sizeX * sizeZ - 1
    ensures sizeX * sizeZ >= 1
  {
    assert (sizeZ - 1) * sizeX == sizeZ * sizeX - sizeX;
    MulMono(1, sizeZ, sizeX);
  }

  /** The grid holds the native index of every cell of the map exactly when
      the zoom is 1: at any larger zoom the last cell's index lies beyond the
      shrunk grid. */
  lemma NativeIndicesFitOnlyAtZoomOne(sizeX: nat, sizeZ: nat, zoom: int)
    requires sizeX >= 1 && sizeZ >= 1 && zoom >= 1
    ensures (forall c: IntVec3 :: 0 <= c.x < sizeX && 0 <= c.z < sizeZ ==>
               CellToIndex(c, sizeX) < GridLength(sizeX, sizeZ, zoom))
            <==> zoom == 1
  {
    var n := sizeX * sizeZ;
    if zoom == 1 {
      assert GridLength(sizeX, sizeZ, zoom) == n;
      forall c: IntVec3 | 0 <= c.x < sizeX && 0 <= c.z < sizeZ
        ensures CellToIndex(c, sizeX) < GridLength(sizeX, sizeZ, zoom)
      {
        CellIndexRoundTrip(c, sizeX, sizeZ);
      }
    } else {
      var last := IntVec3(sizeX - 1, sizeZ - 1);
      LastCellIndex(sizeX, sizeZ);
      DivisionShrinks(n, zoom);
      DivisionShrinks(n / zoom, zoom);
      assert GridLength(sizeX, sizeZ, zoom) <= CellToIndex(last, sizeX);
    }
  }

  /** The sum of the grid's cells, in index order. */
  function Sum(s: seq<real>): real
  {
    if s == [] then 0.0 else s[0] + Sum(s[1..])
  }

  /** A freshly allocated grid of n cells. */
  function Zeros(n: nat): (r: seq<real>)
    ensures |r| == n && forall i :: 0 <= i < n ==> r[i] == 0.0
  {
    seq(n, _ => 0.0)
  }

  /** A fresh grid sums to zero. */
  lemma {:induction false} SumZeros(n: nat)
    ensures Sum(Zeros(n)) == 0.0
  {
    if n > 0 {
      assert Zeros(n)[1..] == Zeros(n - 1);
      SumZeros(n - 1);
    }
  }

  /** Adding v to one cell raises the sum by exactly v. */
  lemma {:induction false} SumUpdate(s: seq<real>, i: int, v: real)
    requires 0 <= i < |s|
    ensures Sum(s[i := s[i] + v]) == Sum(s) + v
  {
    var t := s[i := s[i] + v];
    if i > 0 {
      assert t[1..] == s[1..][i - 1 := s[i] + v];
      SumUpdate(s[1..], i - 1, v);
    } else {
      assert t[1..] == s[1..];
    }
  }

  /** A positive sum needs a positive cell, and over non-negative cells a
      positive cell makes the sum positive: the overlay shows something
      exactly when the total wealth is positive. */
  lemma {:induction false} SumPositiveIffSomeCell(s: seq<real>)
    requires forall i :: 0 <= i < |s| ==> s[i] >= 0.0
    ensures Sum(s) > 0.0 <==> exists i :: 0 <= i < |s| && s[i] > 0.0
  {
    if s != [] {
      SumPositiveIffSomeCell(s[1..]);
      if s[0] <= 0.0 {
        if exists i :: 0 <= i < |s| && s[i] > 0.0 {
          var i :| 0 <= i < |s| && s[i] > 0.0;
          assert s[1..][i - 1] == s[i];
        }
      } else {
        SumNonNegative(s[1..]);
      }
    }
  }

  lemma {:induction false} SumNonNegative(s: seq<real>)
    requires forall i :: 0 <= i < |s| ==> s[i] >= 0.0
    ensures Sum(s) >= 0.0
  {
    if s != [] {
      SumNonNegative(s[1..]);
    }
  }

  /** A positive total always comes from some positive cell, whatever the
      signs of the other cells. */
  lemma {:induction false} PositiveSumHasPositiveCell(s: seq<real>)
    requires Sum(s) > 0.0
    ensures exists i :: 0 <= i < |s| && s[i] > 0.0
  {
    if s[0] <= 0.0 {
      PositiveSumHasPositiveCell(s[1..]);
      var i :| 0 <= i < |s[1..]| && s[1..][i] > 0.0;
      assert s[i + 1] > 0.0;
    }
  }

  /** One registration made during a recount: a market value at a native
      index (floors), or at the cell where a thing or pawn is held. */
  datatype Contribution =
    | AtIndex(marketValue: real, index: int)
    | Held(marketValue: real, positionHeld: IntVec3)

  /** The grid index a registration adds to. */
  function IndexOf(c: Contribution, mapSizeX: int): int
  {
    match c
    case AtIndex(_, index) => index
    case Held(_, position) => CellToIndex(position, mapSizeX)
  }

  /** Every registration lands inside a grid of the given length. */
  ghost predicate InGrid(cs: seq<Contribution>, mapSizeX: int, length: int)
  {
    forall k :: 0 <= k < |cs| ==> 0 <= IndexOf(cs[k], mapSizeX) < length
  }

  /** The grid after the registrations cs, in order. */
  function Deposit(grid: seq<real>, cs: seq<Contribution>, mapSizeX: int): (r: seq<real>)
    requires InGrid(cs, mapSizeX, |grid|)
    ensures |r| == |grid|
    decreases |cs|
  {
    if cs == [] then grid
    else
      var before := Deposit(grid, cs[..|cs| - 1], mapSizeX);
      var last := cs[|cs| - 1];
      var index := IndexOf(last, mapSizeX);
      before[index := before[index] + last.marketValue]
  }

  /** The sum of the registered market values. */
  function Total(cs: seq<Contribution>): real
    decreases |cs|
  {
    if cs == [] then 0.0 else Total(cs[..|cs| - 1]) + cs[|cs| - 1].marketValue
  }

  /** The sum of the market values registered at one index. */
  function CellTotal(cs: seq<Contribution>, mapSizeX: int, index: int): real
    decreases |cs|
  {
    if cs == [] then 0.0
    else
      var last := cs[|cs| - 1];
      CellTotal(cs[..|cs| - 1], mapSizeX, index)
        + (if IndexOf(last, mapSizeX) == index then last.marketValue else 0.0)
  }

  /** Conservation: the registrations raise the grid's sum by exactly their total. */
  lemma {:induction false} DepositTotal(grid: seq<real>, cs: seq<Contribution>, mapSizeX: int)
    requires InGrid(cs, mapSizeX, |grid|)
    ensures Sum(Deposit(grid, cs, mapSizeX)) == Sum(grid) + Total(cs)
    decreases |cs|
  {
    if cs != [] {
      var prefix := cs[..|cs| - 1];
      DepositTotal(grid, prefix, mapSizeX);
      var before := Deposit(grid, prefix, mapSizeX);
      SumUpdate(before, IndexOf(cs[|cs| - 1], mapSizeX), cs[|cs| - 1].marketValue);
    }
  }

  /** Each cell ends up holding its starting value plus exactly the values
      registered at its index. */
  lemma {:induction false} DepositCell(grid: seq<real>, cs: seq<Contribution>, mapSizeX: int, index: int)
    requires InGrid(cs, mapSizeX, |grid|) && 0 <= index < |grid|
    ensures Deposit(grid, cs, mapSizeX)[index] == grid[index] + CellTotal(cs, mapSizeX, index)
    decreases |cs|
  {
    if cs != [] {
      DepositCell(grid, cs[..|cs| - 1], mapSizeX, index);
    }
  }

  /** A grid of zeros after the registrations cs holds, at each index, the
      total registered there, and sums to the total registered. */
  lemma RecountFromZeros(cs: seq<Contribution>, mapSizeX: int, n: nat)
    requires InGrid(cs, mapSizeX, n)
    ensures Sum(Deposit(Zeros(n), cs, mapSizeX)) == Total(cs)
    ensures forall i :: 0 <= i < n ==> Deposit(Zeros(n), cs, mapSizeX)[i] == CellTotal(cs, mapSizeX, i)
  {
    DepositTotal(Zeros(n), cs, mapSizeX);
    SumZeros(n);
    forall i | 0 <= i < n
      ensures Deposit(Zeros(n), cs, mapSizeX)[i] == CellTotal(cs, mapSizeX, i)
    {
      DepositCell(Zeros(n), cs, mapSizeX, i);
    }
  }

  /** The overlay's colour for every wealth cell. */
  function GetCellExtraColor(index: int): (r: Color)
    ensures r != White
  {
    Yellow
  }

  /** A drawer whose cell colour is the wealth colour of the cell's native
      index uses vertex colours exactly when it has at least one cell to draw.
      (The colour ignores the index, so any cell-to-index mapping gives the
      same result.) */
  lemma WealthColorUsesVertexColors(cells: seq<IntVec3>, mapSizeX: int)
    ensures UsesVertexColors(cells, (x, z) => GetCellExtraColor(CellToIndex(IntVec3(x, z), mapSizeX)))
            <==> cells != []
  {
    var extraColor := (x, z) => GetCellExtraColor(CellToIndex(IntVec3(x, z), mapSizeX));
    UsesVertexColorsSpec(cells, extraColor);
    if cells != [] {
      assert extraColor(cells[0].x, cells[0].z) != White;
    }
  }

  class Wealth {
    const sizeX: nat
    const sizeZ: nat
    const drawer: ZoomGridDrawer
    var zoom: int
    var wealthGrid: array<real>

    /** The zoom is at least 1, the grid has the length that zoom gives, and
        the drawer is in a consistent state. */
    ghost predicate Valid()
      reads this, drawer, drawer.work
    {
      && zoom >= 1
      && wealthGrid.Length == GridLength(sizeX, sizeZ, zoom)
      && drawer.Valid()
    }

    /** The total wealth of the map: the sum of the grid. */
    function TotalWealth(): real
      reads this, wealthGrid
    {
      Sum(wealthGrid[..])
    }

    /** Whether the overlay shows the cell at an index. */
    predicate GetCellBool(index: int)
      requires 0 <= index < wealthGrid.Length
      reads this, wealthGrid
    {
      wealthGrid[index] > 0.0
    }

    /** The overlay's base colour. */
    function OverlayColor(): Color
    {
      Yellow
    }

    /** A new component for a map of sizeX by sizeZ cells, drawing through
        the given drawer, starting at zoom 1 with an all-zero grid. */
    constructor (sizeX: nat, sizeZ: nat, drawer: ZoomGridDrawer)
      requires drawer.Valid()
      modifies drawer`dirty
      ensures Valid() && this.sizeX == sizeX && this.sizeZ == sizeZ && this.drawer == drawer
      ensures zoom == 1 && fresh(wealthGrid) && wealthGrid[..] == Zeros(sizeX * sizeZ)
      ensures TotalWealth() == 0.0
      ensures drawer.dirty
    {
      this.sizeX := sizeX;
      this.sizeZ := sizeZ;
      this.drawer := drawer;
      zoom := 1;
      // The grid is unset until the Reset below allocates it.
      wealthGrid := new real[0];
      new;
      Reset();
    }

    /** Sets the zoom: stores it, replaces the grid with a fresh all-zero grid
        of the length that zoom gives, and marks the drawer dirty. */
    method SetZoom(value: int)
      requires value >= 1 && drawer.Valid()
      modifies this`zoom, this`wealthGrid, drawer`dirty
      ensures Valid() && zoom == value && drawer.dirty
      ensures fresh(wealthGrid) && wealthGrid[..] == Zeros(GridLength(sizeX, sizeZ, value))
      ensures TotalWealth() == 0.0
      ensures forall i :: 0 <= i < wealthGrid.Length ==> !GetCellBool(i)
    {
      zoom := value;
      wealthGrid := new real[sizeX * sizeZ / zoom / zoom](_ => 0.0);
      drawer.SetDirty();
      SumZeros(wealthGrid.Length);
    }

    /** Sets the zoom to its current value: the same zoom and grid length,
        every cell back to zero, the drawer dirty. */
    method Reset()
      requires zoom >= 1 && drawer.Valid()
      modifies this`zoom, this`wealthGrid, drawer`dirty
      ensures Valid() && zoom == old(zoom) && drawer.dirty
      ensures fresh(wealthGrid) && wealthGrid[..] == Zeros(GridLength(sizeX, sizeZ, zoom))
      ensures TotalWealth() == 0.0
      ensures forall i :: 0 <= i < wealthGrid.Length ==> !GetCellBool(i)
    {
      SetZoom(zoom);
    }

    /** Adds a market value to the cell at a native index and marks the
        drawer dirty; nothing else in the grid changes. */
    method Register(marketValue: real, index: int)
      requires Valid() && 0 <= index < wealthGrid.Length
      modifies wealthGrid, drawer`dirty
      ensures Valid() && drawer.dirty
      ensures wealthGrid[..] == old(wealthGrid[..])[index := old(wealthGrid[index]) + marketValue]
      ensures TotalWealth() == old(TotalWealth()) + marketValue
    {
      SumUpdate(wealthGrid[..], index, marketValue);
      wealthGrid[index] := wealthGrid[index] + marketValue;
      drawer.SetDirty();
    }

    /** Registers a thing's or a pawn's market value at the cell where it is
        held: the index registration at that cell's native index. */
    method RegisterHeld(marketValue: real, positionHeld: IntVec3)
      requires Valid() && 0 <= CellToIndex(positionHeld, sizeX) < wealthGrid.Length
      modifies wealthGrid, drawer`dirty
      ensures Valid() && drawer.dirty
      ensures var index := CellToIndex(positionHeld, sizeX);
              wealthGrid[..] == old(wealthGrid[..])[index := old(wealthGrid[index]) + marketValue]
      ensures TotalWealth() == old(TotalWealth()) + marketValue
    {
      var index := CellToIndex(positionHeld, sizeX);
      Register(marketValue, index);
    }

    /** Asks the drawer to draw and lets it update: it rebuilds when dirty,
        submits every mesh once and clears the request. */
    method UpdateDrawer()
      requires Valid()
      modifies drawer, drawer.work
      ensures Valid() && !drawer.wantDraw && !drawer.dirty
      ensures drawer.rebuilds == old(drawer.rebuilds) + (if old(drawer.dirty) then 1 else 0)
      ensures old(drawer.dirty) ==>
                && drawer.meshes == Packed(drawer.Selected(), old(|drawer.meshes|), drawer.scale, drawer.extraColorGetter)
                && drawer.materialCaresAboutVertexColors == UsesVertexColors(drawer.Selected(), drawer.extraColorGetter)
                && drawer.material == if old(drawer.material).None? || old(drawer.materialCaresAboutVertexColors) != drawer.materialCaresAboutVertexColors
                                      then Some(drawer.MaterialFor(drawer.materialCaresAboutVertexColors)) else old(drawer.material)
      ensures !old(drawer.dirty) ==> drawer.meshes == old(drawer.meshes) && drawer.material == old(drawer.material)
      ensures drawer.drawLog == old(drawer.drawLog) + Submissions(drawer.meshes, drawer.material)
    {
      drawer.MarkForDraw();
      drawer.ZoomGridDrawerUpdate();
    }
  }
}
