/** Geohash cells as an integer grid.

    Coordinates are scaled so that each axis of the world is the half-open interval
    [0, 2^32). A cell at precision p keeps the top bits of each axis, so encoding is a
    right shift. Latitude gets floor(5p/2) bits, longitude ceil(5p/2).
 */
module GeoGrid {

  const WORLD: nat := 0x1_0000_0000
  const COORD_BITS: nat := 32

  type Coord = x: real | 0.0 <= x < WORLD as real witness 0.0
  type Precision = p: nat | 1 <= p <= 12 witness 1

  /** A query box. Its bounds may lie outside the world and may even be inverted. */
  datatype Box = Box(minLat: real, minLng: real, maxLat: real, maxLng: real)

  /** One geohash cell. The precision is part of the cell, as the length of a geohash
      string is part of the string. */
  datatype Cell = Cell(prec: Precision, row: nat, col: nat)

  function Pow2(n: nat): (r: nat)
    ensures r > 0
  {
    if n == 0 then 1 else 2 * Pow2(n - 1)
  }

  function LatBits(p: Precision): nat { 5 * p / 2 }

  function LngBits(p: Precision): nat { (5 * p + 1) / 2 }

  /** The width of a slot when an axis keeps its top `bits` bits. */
  function Width(bits: nat): (w: nat)
    requires bits <= COORD_BITS
    ensures w > 0
  {
    Pow2(COORD_BITS - bits)
  }

  /** The slot of one axis that holds coordinate x: its top `bits` bits. */
  function Slot(x: Coord, bits: nat): nat
    requires bits <= COORD_BITS
  {
    ShiftRight(x.Floor, COORD_BITS - bits)
  }

  function ShiftRight(n: nat, k: nat): nat {
    if k == 0 then n else ShiftRight(n / 2, k - 1)
  }

  function Encode(lat: Coord, lng: Coord, p: Precision): Cell {
    Cell(p, Slot(lat, LatBits(p)), Slot(lng, LngBits(p)))
  }

  predicate InGrid(c: Cell) {
    c.row < Pow2(LatBits(c.prec)) && c.col < Pow2(LngBits(c.prec))
  }

  /** The low edge of slot i; its high edge is the low edge of slot i + 1. */
  function LowEdge(i: nat, bits: nat): nat
    requires bits <= COORD_BITS
  {
    i * Width(bits)
  }

  /** The closed interval of slot i meets [lo, hi], tested as the flood fill tests it. */
  predicate SpanMeets(i: nat, bits: nat, lo: real, hi: real)
    requires bits <= COORD_BITS
  {
    !(LowEdge(i + 1, bits) as real < lo || LowEdge(i, bits) as real > hi)
  }

  predicate Meets(c: Cell, box: Box) {
    SpanMeets(c.row, LatBits(c.prec), box.minLat, box.maxLat) &&
    SpanMeets(c.col, LngBits(c.prec), box.minLng, box.maxLng)
  }

  predicate Inside(lat: real, lng: real, box: Box) {
    box.minLat <= lat <= box.maxLat && box.minLng <= lng <= box.maxLng
  }

  predicate CentreInWorld(box: Box) {
    0.0 <= (box.minLat + box.maxLat) / 2.0 < WORLD as real &&
    0.0 <= (box.minLng + box.maxLng) / 2.0 < WORLD as real
  }

  predicate Adjacent(c: Cell, d: Cell) {
    c.prec == d.prec && c != d && -1 <= c.row - d.row <= 1 && -1 <= c.col - d.col <= 1
  }

  /** All that is assumed of the geohash library's neighbour function: at a grid cell it
      returns grid cells of the same precision, among them every adjacent one. Cells on an
      edge of the world may wrap around or not. */
  ghost predicate IsNeighbourFunction(nbrs: Cell -> seq<Cell>) {
    forall c | InGrid(c) ::
      (forall d | d in nbrs(c) :: InGrid(d) && d.prec == c.prec) &&
      (forall d | Adjacent(c, d) && InGrid(d) :: d in nbrs(c))
  }

  // ----- powers of two and shifts

  lemma {:induction false} Pow2Sum(a: nat, b: nat)
    ensures Pow2(a + b) == Pow2(a) * Pow2(b)
  {
    if a == 0 {
    } else {
      Pow2Sum(a - 1, b);
      assert Pow2(a + b) == 2 * Pow2(a - 1 + b);
    }
  }

  lemma WorldIsPow2()
    ensures Pow2(COORD_BITS) == WORLD
  {
    assert Pow2(8) == 256;
    Pow2Sum(8, 8);
    Pow2Sum(16, 16);
  }

  lemma MulMono(a: int, b: int, w: nat)
    requires a <= b
    ensures a * w <= b * w
  {
  }

  /** A right shift by k is the quotient by 2^k. */
  lemma {:induction false} ShiftBounds(n: nat, k: nat)
    ensures ShiftRight(n, k) * Pow2(k) <= n < (ShiftRight(n, k) + 1) * Pow2(k)
  {
    if k > 0 {
      ShiftBounds(n / 2, k - 1);
      var q, w := ShiftRight(n, k), Pow2(k - 1);
      TimesDouble(q, w);
      TimesDouble(q + 1, w);
    }
  }

  lemma TimesDouble(a: nat, w: nat)
    ensures a * (2 * w) == 2 * (a * w)
  {
  }

  lemma {:induction false} ShiftTwice(n: nat, j: nat, k: nat)
    ensures ShiftRight(ShiftRight(n, j), k) == ShiftRight(n, j + k)
  {
    if j > 0 {
      ShiftTwice(n / 2, j - 1, k);
    }
  }

  /** Encoding always lands inside the grid. */
  lemma SlotInRange(x: Coord, bits: nat)
    requires bits <= COORD_BITS
    ensures Slot(x, bits) < Pow2(bits)
  {
    WorldIsPow2();
    Pow2Sum(bits, COORD_BITS - bits);
    ShiftBounds(x.Floor, COORD_BITS - bits);
    if Slot(x, bits) >= Pow2(bits) {
      MulMono(Pow2(bits), Slot(x, bits), Width(bits));
    }
  }

  lemma EncodeInGrid(lat: Coord, lng: Coord, p: Precision)
    ensures InGrid(Encode(lat, lng, p))
  {
    SlotInRange(lat, LatBits(p));
    SlotInRange(lng, LngBits(p));
  }

  /** A coarser slot is a further shift of the finer one. */
  lemma SlotNests(x: Coord, coarse: nat, fine: nat)
    requires coarse <= fine <= COORD_BITS
    ensures Slot(x, coarse) == ShiftRight(Slot(x, fine), fine - coarse)
  {
    ShiftTwice(x.Floor, COORD_BITS - fine, fine - coarse);
  }

  /** Cells nest across precisions: positions that share a fine cell share every coarser one. */
  lemma CellsNest(lat: Coord, lng: Coord, lat': Coord, lng': Coord, coarse: Precision, fine: Precision)
    requires coarse <= fine
    requires Encode(lat, lng, fine) == Encode(lat', lng', fine)
    ensures Encode(lat, lng, coarse) == Encode(lat', lng', coarse)
  {
    SlotNests(lat, LatBits(coarse), LatBits(fine));
    SlotNests(lat', LatBits(coarse), LatBits(fine));
    SlotNests(lng, LngBits(coarse), LngBits(fine));
    SlotNests(lng', LngBits(coarse), LngBits(fine));
  }

  /** A coordinate lies in the closed interval of its own slot. */
  lemma SlotContains(x: Coord, bits: nat, lo: real, hi: real)
    requires bits <= COORD_BITS && lo <= x <= hi
    ensures SpanMeets(Slot(x, bits), bits, lo, hi)
  {
    ShiftBounds(x.Floor, COORD_BITS - bits);
  }

  /** A position inside a box is encoded to a cell that meets the box. */
  lemma InsideMeets(lat: Coord, lng: Coord, p: Precision, box: Box)
    requires Inside(lat, lng, box)
    ensures Meets(Encode(lat, lng, p), box)
  {
    SlotContains(lat, LatBits(p), box.minLat, box.maxLat);
    SlotContains(lng, LngBits(p), box.minLng, box.maxLng);
  }

  /** A cell in numbers: at precision p latitude keeps floor(5p/2) bits and longitude the rest
      of the 5p, so that a position lies in its cell, the high edges excluded. */
  lemma EncodeBrackets(lat: Coord, lng: Coord, p: Precision)
    ensures var c, h, w := Encode(lat, lng, p), Pow2(32 - 5 * p / 2), Pow2(32 - (5 * p - 5 * p / 2));
            c.prec == p && (c.row * h) as real <= lat < ((c.row + 1) * h) as real &&
            (c.col * w) as real <= lng < ((c.col + 1) * w) as real
  {
    ShiftBounds(lat.Floor, COORD_BITS - LatBits(p));
    ShiftBounds(lng.Floor, COORD_BITS - LngBits(p));
  }

  lemma QuotientUnique(q: nat, r: nat, w: nat, n: nat)
    requires q * w <= n < (q + 1) * w && r * w <= n < (r + 1) * w
    ensures q == r
  {
    if q < r {
      MulMono(q + 1, r, w);
    } else if r < q {
      MulMono(r + 1, q, w);
    }
  }

  /** The low edge of a slot is a coordinate of that slot. */
  lemma LowEdgeInSlot(i: nat, bits: nat) returns (x: Coord)
    requires bits <= COORD_BITS && i < Pow2(bits)
    ensures x == LowEdge(i, bits) as real && Slot(x, bits) == i
  {
    hide Pow2, ShiftRight;
    LowEdgeInWorld(i, bits);
    x := LowEdge(i, bits) as real;
    assert x.Floor == LowEdge(i, bits);
    ShiftBounds(x.Floor, COORD_BITS - bits);
    LowEdgeBrackets(i, bits);
    QuotientUnique(Slot(x, bits), i, Width(bits), x.Floor);
  }

  lemma LowEdgeInWorld(i: nat, bits: nat)
    requires bits <= COORD_BITS && i < Pow2(bits)
    ensures LowEdge(i, bits) < WORLD
  {
    hide Pow2;
    WorldIsPow2();
    Pow2Sum(bits, COORD_BITS - bits);
    MulMono(i + 1, Pow2(bits), Width(bits));
    LowEdgeBrackets(i, bits);
  }

  lemma LowEdgeBrackets(i: nat, bits: nat)
    requires bits <= COORD_BITS
    ensures i * Width(bits) <= LowEdge(i, bits) < (i + 1) * Width(bits)
  {
    hide Width;
    assert (i + 1) * Width(bits) == i * Width(bits) + Width(bits);
  }

  /** The grid has no cell too many: each one is the cell of some position in the world. */
  lemma GridCellsAreEncoded(c: Cell)
    ensures InGrid(c) <==> exists lat: Coord, lng: Coord :: Encode(lat, lng, c.prec) == c
  {
    if InGrid(c) {
      var lat := LowEdgeInSlot(c.row, LatBits(c.prec));
      var lng := LowEdgeInSlot(c.col, LngBits(c.prec));
      assert Encode(lat, lng, c.prec) == c;
    }
    forall lat: Coord, lng: Coord | Encode(lat, lng, c.prec) == c ensures InGrid(c) {
      EncodeInGrid(lat, lng, c.prec);
    }
  }

  /** A point lies in the closed cell: the high edges belong to it as well. */
  predicate InClosedCell(c: Cell, lat: real, lng: real) {
    var h, w := Pow2(32 - 5 * c.prec / 2), Pow2(32 - (5 * c.prec - 5 * c.prec / 2));
    (c.row * h) as real <= lat <= ((c.row + 1) * h) as real && (c.col * w) as real <= lng <= ((c.col + 1) * w) as real
  }

  /** The overlap test accepts no cell too many: for a box that is not inverted a cell meets it if
      and only if some point of the closed cell lies between the four bounds. */
  lemma MeetsIffOverlaps(c: Cell, box: Box)
    requires box.minLat <= box.maxLat && box.minLng <= box.maxLng
    ensures Meets(c, box) <==>
            exists lat, lng :: InClosedCell(c, lat, lng) && box.minLat <= lat <= box.maxLat && box.minLng <= lng <= box.maxLng
  {
    EdgesOrdered(c.row, c.row + 1, LatBits(c.prec));
    EdgesOrdered(c.col, c.col + 1, LngBits(c.prec));
    var south, west := LowEdge(c.row, LatBits(c.prec)) as real, LowEdge(c.col, LngBits(c.prec)) as real;
    var lat, lng := if south < box.minLat then box.minLat else south, if west < box.minLng then box.minLng else west;
    assert Meets(c, box) ==> InClosedCell(c, lat, lng);
  }

  // ----- the meeting slots of one axis form an interval around the centre

  /** If any slot meets [lo, hi], the slot of the midpoint does, and so does every slot in
      between. Inverted bounds are covered: at most one slot then meets, and it is the
      midpoint's own. */
  lemma MeetingSlotsConvex(i: nat, k: nat, bits: nat, lo: real, hi: real, mid: Coord)
    requires bits <= COORD_BITS && mid == (lo + hi) / 2.0
    requires SpanMeets(i, bits, lo, hi)
    requires i <= k <= Slot(mid, bits) || Slot(mid, bits) <= k <= i
    ensures SpanMeets(k, bits, lo, hi)
  {
    var m := Slot(mid, bits);
    ShiftBounds(mid.Floor, COORD_BITS - bits);
    EdgesOrdered(i, k, bits);
    EdgesOrdered(k, i, bits);
    EdgesOrdered(k, m, bits);
    EdgesOrdered(m, k, bits);
    var left, right := LowEdge(i, bits) as real, LowEdge(i + 1, bits) as real;
    assert right >= lo && left <= hi;
    assert LowEdge(m, bits) <= mid.Floor < LowEdge(m + 1, bits);
    assert LowEdge(k + 1, bits) as real >= lo && LowEdge(k, bits) as real <= hi;
  }

  lemma EdgesOrdered(i: nat, k: nat, bits: nat)
    requires bits <= COORD_BITS
    ensures i <= k ==> LowEdge(i, bits) <= LowEdge(k, bits) && LowEdge(i + 1, bits) <= LowEdge(k + 1, bits)
    ensures i < k ==> LowEdge(i + 1, bits) <= LowEdge(k, bits)
  {
    if i < k {
      MulMono(i + 1, k, Width(bits));
    }
    if i <= k {
      MulMono(i, k, Width(bits));
      MulMono(i + 1, k + 1, Width(bits));
    }
  }

  // ----- the assumption on neighbours can be met

  /** Eight neighbours on a torus: the grid with both axes wrapping. */
  function TorusNeighbours(c: Cell): seq<Cell> {
    seq(9, i requires 0 <= i < 9 => TorusCell(c, i / 3 - 1, i % 3 - 1))
  }

  function TorusCell(c: Cell, dr: int, dc: int): (d: Cell)
    ensures InGrid(d) && d.prec == c.prec
  {
    Cell(c.prec, Wrap(c.row + dr, Pow2(LatBits(c.prec))), Wrap(c.col + dc, Pow2(LngBits(c.prec))))
  }

  function Wrap(n: int, size: nat): (r: nat)
    requires size > 0
    ensures r < size
    ensures 0 <= n < size ==> r == n
  {
    n % size
  }

  lemma TorusIndex(c: Cell, d: Cell)
    requires InGrid(c) && InGrid(d) && Adjacent(c, d)
    ensures d in TorusNeighbours(c)
  {
    var dr, dc := d.row - c.row + 1, d.col - c.col + 1;
    var i := 3 * dr + dc;
    assert i / 3 == dr && i % 3 == dc;
    assert TorusNeighbours(c)[i] == TorusCell(c, dr - 1, dc - 1);
  }

  lemma TorusIsNeighbourFunction()
    ensures IsNeighbourFunction(TorusNeighbours)
  {
    forall c, d | InGrid(c) && Adjacent(c, d) && InGrid(d) ensures d in TorusNeighbours(c) {
      TorusIndex(c, d);
    }
  }
}
