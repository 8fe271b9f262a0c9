/** The flood fill that finds the cells a box overlaps. */
module GeoCover {
  import opened Common
  import opened GeoGrid

  /** The reference answer: every grid cell, tested against the box. */
  function GridCells(p: Precision): set<Cell> {
    set r, c | 0 <= r < Pow2(LatBits(p)) && 0 <= c < Pow2(LngBits(p)) :: Cell(p, r, c)
  }

  function MeetingCells(p: Precision, box: Box): set<Cell> {
    set c | c in GridCells(p) && Meets(c, box)
  }

  lemma InGridCells(c: Cell)
    ensures c in GridCells(c.prec) <==> InGrid(c)
  {
    if InGrid(c) {
      assert c == Cell(c.prec, c.row, c.col);
    }
  }

  function Centre(box: Box): (c: (Coord, Coord))
    requires CentreInWorld(box)
  {
    ((box.minLat + box.maxLat) / 2.0, (box.minLng + box.maxLng) / 2.0)
  }

  function Seed(p: Precision, box: Box): Cell
    requires CentreInWorld(box)
  {
    Encode(Centre(box).0, Centre(box).1, p)
  }

  // ----- why a flood fill from the centre misses nothing

  function Toward(a: nat, b: nat): (r: nat)
    ensures a == b ==> r == a
    ensures a != b ==> -1 <= r - a <= 1 && r != a && (a < r <= b || b <= r < a)
  {
    if a < b then a + 1 else if a > b then a - 1 else a
  }

  /** The next cell on the straight way from c to the seed. */
  function StepToward(c: Cell, s: Cell): Cell {
    Cell(c.prec, Toward(c.row, s.row), Toward(c.col, s.col))
  }

  function Abs(x: int): nat { if x < 0 then -x else x }

  function Distance(c: Cell, s: Cell): nat {
    Abs(c.row - s.row) + Abs(c.col - s.col)
  }

  /** A cell that meets the box has a step towards the seed that stays in the grid, still
      meets the box, and is strictly nearer. */
  lemma StepStaysInside(c: Cell, box: Box)
    requires CentreInWorld(box) && InGrid(c) && Meets(c, box) && c != Seed(c.prec, box)
    ensures var d := StepToward(c, Seed(c.prec, box));
            InGrid(d) && Meets(d, box) && Adjacent(d, c) && Distance(d, Seed(c.prec, box)) < Distance(c, Seed(c.prec, box))
  {
    var (lat, lng) := Centre(box);
    var s := Seed(c.prec, box);
    EncodeInGrid(lat, lng, c.prec);
    var d := StepToward(c, s);
    MeetingSlotsConvex(c.row, d.row, LatBits(c.prec), box.minLat, box.maxLat, lat);
    MeetingSlotsConvex(c.col, d.col, LngBits(c.prec), box.minLng, box.maxLng, lng);
  }

  /** A set of cells that holds the seed, and with each member that meets the box all its
      adjacent grid cells, holds every grid cell that meets the box. */
  lemma {:induction false} ClosedSetCovers(reached: set<Cell>, p: Precision, box: Box, c: Cell)
    requires CentreInWorld(box) && Seed(p, box) in reached
    requires forall a, b | a in reached && Meets(a, box) && InGrid(a) && Adjacent(a, b) && InGrid(b) :: b in reached
    requires c.prec == p && InGrid(c) && Meets(c, box)
    ensures c in reached
    decreases Distance(c, Seed(p, box))
  {
    if c != Seed(p, box) {
      StepStaysInside(c, box);
      var d := StepToward(c, Seed(p, box));
      ClosedSetCovers(reached, p, box, d);
    }
  }

  /** What a fill keeps true: `frontier` is enqueued but not yet expanded. */
  ghost predicate FillInvariant(p: Precision, box: Box, enqueued: set<Cell>, frontier: set<Cell>, result: set<Cell>)
    requires CentreInWorld(box)
  {
    Seed(p, box) in enqueued && frontier <= enqueued && enqueued <= GridCells(p) &&
    (forall c :: c in result <==> c in enqueued && c !in frontier && Meets(c, box)) &&
    (forall c, d | c in result && Adjacent(c, d) && InGrid(d) :: d in enqueued)
  }

  lemma FinishedFillIsExact(p: Precision, box: Box, enqueued: set<Cell>, result: set<Cell>)
    requires CentreInWorld(box) && FillInvariant(p, box, enqueued, {}, result)
    ensures result == MeetingCells(p, box)
  {
    forall c | c in MeetingCells(p, box) ensures c in result {
      InGridCells(c);
      ClosedSetCovers(enqueued, p, box, c);
    }
  }

  lemma FillInvariantStep(p: Precision, box: Box, enqueued: set<Cell>, frontier: set<Cell>, result: set<Cell>,
                          cell: Cell, ns: set<Cell>)
    requires CentreInWorld(box) && FillInvariant(p, box, enqueued, frontier, result) && cell in frontier
    requires ns <= GridCells(p) && forall d | Adjacent(cell, d) && InGrid(d) :: d in ns
    ensures !Meets(cell, box) ==> FillInvariant(p, box, enqueued, frontier - {cell}, result)
    ensures Meets(cell, box) ==>
              FillInvariant(p, box, enqueued + ns, frontier - {cell} + (ns - enqueued), result + {cell})
  {
  }

  /** Enqueue each neighbour that was never enqueued before. */
  method EnqueueUnseen(ns: seq<Cell>, enqueued: set<Cell>, queue: seq<Cell>)
    returns (enqueued': set<Cell>, queue': seq<Cell>)
    requires Distinct(queue) && Elements(queue) <= enqueued
    ensures enqueued' == enqueued + Elements(ns)
    ensures Elements(queue') == Elements(queue) + (Elements(ns) - enqueued) && Distinct(queue')
    ensures enqueued' == enqueued ==> queue' == queue
  {
    enqueued', queue' := enqueued, queue;
    for i := 0 to |ns|
      invariant enqueued' == enqueued + Elements(ns[..i])
      invariant Elements(queue') == Elements(queue) + (Elements(ns[..i]) - enqueued)
      invariant Distinct(queue')
      invariant enqueued' == enqueued ==> queue' == queue
    {
      assert ns[..i + 1] == ns[..i] + [ns[i]];
      ElementsSnoc(ns[..i], ns[i]);
      if ns[i] !in enqueued' {
        enqueued' := enqueued' + {ns[i]};
        ElementsSnoc(queue', ns[i]);
        queue' := queue' + [ns[i]];
      }
    }
    assert ns[..|ns|] == ns;
  }

  /** The covering search: exactly the grid cells that meet the box, for every box whose
      centre is in the world. It ends because a cell is enqueued at most once. */
  method CoveringCells(box: Box, p: Precision, nbrs: Cell -> seq<Cell>) returns (result: set<Cell>)
    requires CentreInWorld(box) && IsNeighbourFunction(nbrs)
    ensures result == MeetingCells(p, box)
  {
    hide Meets, MeetingCells, IsNeighbourFunction;
    var seed := Seed(p, box);
    EncodeInGrid(Centre(box).0, Centre(box).1, p);
    InGridCells(seed);
    var enqueued := {seed};
    result := {};
    var queue := [seed];
    while |queue| > 0
      invariant FillInvariant(p, box, enqueued, Elements(queue), result)
      invariant Distinct(queue)
      decreases |GridCells(p) - enqueued|, |queue|
    {
      var cell := queue[0];
      assert Elements(queue[1..]) == Elements(queue) - {cell};
      NeighboursInGrid(cell, p, nbrs);
      FillInvariantStep(p, box, enqueued, Elements(queue), result, cell, Elements(nbrs(cell)));
      queue := queue[1..];
      if !Meets(cell, box) {
        continue;
      }
      result := result + {cell};
      SetShrinks(GridCells(p) - (enqueued + Elements(nbrs(cell))), GridCells(p) - enqueued);
      enqueued, queue := EnqueueUnseen(nbrs(cell), enqueued, queue);
    }
    assert Elements(queue) == {};
    FinishedFillIsExact(p, box, enqueued, result);
  }

  lemma NeighboursInGrid(cell: Cell, p: Precision, nbrs: Cell -> seq<Cell>)
    requires IsNeighbourFunction(nbrs) && cell in GridCells(p)
    ensures Elements(nbrs(cell)) <= GridCells(p)
    ensures forall d | Adjacent(cell, d) && InGrid(d) :: d in Elements(nbrs(cell))
  {
    InGridCells(cell);
    forall d | d in nbrs(cell) ensures d in GridCells(p) {
      InGridCells(d);
    }
  }
}
