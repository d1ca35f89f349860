/** What the grid builder guarantees, stated over `CellAt`, which
    `Matrix.BuildMatrixGrid` produces cell for cell. */
module MatrixProperties {
  import opened Optional
  import opened Charts
  import opened Layout
  import opened Matrix
  import Counting

  /** The cell at row `r`, column `c` of the finished grid. */
  function GridCell(chart: Chart, r: int, c: int): Option<Cell>
    requires InGrid(r, c)
  {
    CellAt(chart, Locate(r, c))
  }

  /** The centre always holds the full goal text, whatever pillars and tasks
      the chart has. */
  lemma GoalAtCenter(chart: Chart)
    ensures GridCell(chart, CENTER.0, CENTER.1) == Some(CoreGoal(chart.coreGoal))
    ensures GridCell(chart, CENTER.0, CENTER.1).value.Kind() == "core_goal"
    ensures GridCell(chart, CENTER.0, CENTER.1).value.Content() == chart.coreGoal
  {
    LocateCoordOf(GoalLoc);
  }

  /** A present pillar appears twice with the same id, name, colour and
      position: on the ring around the goal, and mirrored at the centre of its
      own block. */
  lemma PillarPlacement(chart: Chart, p: int)
    requires ValidPosition(p) && p in PillarsByPos(chart)
    ensures var pillar := PillarsByPos(chart)[p];
      GridCell(chart, CenterRing(p).0, CenterRing(p).1) ==
        Some(PillarCell(pillar.id, pillar.name, pillar.color, p, false)) &&
      GridCell(chart, OuterCenter(p).0, OuterCenter(p).1) ==
        Some(PillarCell(pillar.id, pillar.name, pillar.color, p, true))
  {
    LocateCoordOf(RingLoc(p));
    LocateCoordOf(OuterLoc(p));
  }

  /** Slot `t` of a present pillar holds the pillar's task at `t` when there
      is one and a "+ Add" placeholder otherwise, in the pillar's colour and
      tagged with both positions. */
  lemma TaskPlacement(chart: Chart, p: int, t: int)
    requires ValidPosition(p) && p in PillarsByPos(chart) && ValidPosition(t)
    ensures var pillar := PillarsByPos(chart)[p];
      var tasks := TasksByPos(chart, pillar);
      var cell := GridCell(chart, TaskCoord(p, t).0, TaskCoord(p, t).1);
      cell.Some? &&
      cell.value.Kind() == (if t in tasks then "task" else "task_empty") &&
      cell.value.Content() == (if t in tasks then tasks[t].title else "+ Add") &&
      (t in tasks ==> cell.value == TaskCell(tasks[t].id, tasks[t].title, tasks[t].status,
                                             tasks[t].frequency, pillar.color, pillar.id, p, t)) &&
      (t !in tasks ==> cell.value == TaskEmpty(pillar.color, pillar.id, p, t))
  {
    LocateCoordOf(TaskLoc(p, t));
  }

  /** A vacant pillar position leaves its ring cell, its outer centre and all
      eight of its slots empty. */
  lemma VacantPillar(chart: Chart, p: int)
    requires ValidPosition(p) && p !in PillarsByPos(chart)
    ensures GridCell(chart, CenterRing(p).0, CenterRing(p).1) == None
    ensures GridCell(chart, OuterCenter(p).0, OuterCenter(p).1) == None
    ensures forall t | ValidPosition(t) :: GridCell(chart, TaskCoord(p, t).0, TaskCoord(p, t).1) == None
  {
    LocateCoordOf(RingLoc(p));
    LocateCoordOf(OuterLoc(p));
    forall t | ValidPosition(t) ensures GridCell(chart, TaskCoord(p, t).0, TaskCoord(p, t).1) == None {
      LocateCoordOf(TaskLoc(p, t));
    }
  }

  /** In a chart that keeps its invariants, the lookup finds every pillar at
      its own position. */
  lemma PillarsByPosFinds(chart: Chart, x: Pillar)
    requires ValidChart(chart) && x in chart.pillars
    ensures x.position in PillarsByPos(chart) && PillarsByPos(chart)[x.position] == x
  {
    IndexByDistinct(chart.pillars, PillarPosition);
    var i :| 0 <= i < |chart.pillars| && chart.pillars[i] == x;
  }

  /** ... and every task at its own position within its own pillar. */
  lemma TasksByPosFinds(chart: Chart, x: Pillar, y: Task)
    requires ValidChart(chart) && y in chart.tasks && y.pillarId == x.id
    ensures y.position in TasksByPos(chart, x) && TasksByPos(chart, x)[y.position] == y
  {
    var own := TasksOf(chart.tasks, x.id);
    TasksOfDistinct(chart.tasks, x.id);
    IndexByDistinct(own, TaskPosition);
    var k :| 0 <= k < |own| && own[k] == y;
  }

  /** For a chart that keeps its declared invariants, every pillar is drawn at
      its own position on the ring and at its own outer centre. */
  lemma ValidChartPillarPlacement(chart: Chart)
    requires ValidChart(chart)
    ensures forall x | x in chart.pillars ::
      GridCell(chart, CenterRing(x.position).0, CenterRing(x.position).1) ==
        Some(PillarCell(x.id, x.name, x.color, x.position, false)) &&
      GridCell(chart, OuterCenter(x.position).0, OuterCenter(x.position).1) ==
        Some(PillarCell(x.id, x.name, x.color, x.position, true))
  {
    forall x | x in chart.pillars
      ensures GridCell(chart, CenterRing(x.position).0, CenterRing(x.position).1) ==
        Some(PillarCell(x.id, x.name, x.color, x.position, false))
      ensures GridCell(chart, OuterCenter(x.position).0, OuterCenter(x.position).1) ==
        Some(PillarCell(x.id, x.name, x.color, x.position, true))
    {
      PillarsByPosFinds(chart, x);
      PillarPlacement(chart, x.position);
    }
  }

  /** For a chart that keeps its declared invariants, every task is drawn in
      its own pillar's block, in its own slot. */
  lemma ValidChartTaskPlacement(chart: Chart)
    requires ValidChart(chart)
    ensures forall x, y | x in chart.pillars && y in chart.tasks && y.pillarId == x.id ::
      GridCell(chart, TaskCoord(x.position, y.position).0, TaskCoord(x.position, y.position).1) ==
        Some(TaskCell(y.id, y.title, y.status, y.frequency, x.color, x.id, x.position, y.position))
  {
    forall x, y | x in chart.pillars && y in chart.tasks && y.pillarId == x.id
      ensures GridCell(chart, TaskCoord(x.position, y.position).0, TaskCoord(x.position, y.position).1) ==
        Some(TaskCell(y.id, y.title, y.status, y.frequency, x.color, x.id, x.position, y.position))
    {
      PillarsByPosFinds(chart, x);
      TasksByPosFinds(chart, x, y);
      TaskPlacement(chart, x.position, y.position);
    }
  }

  /** The positions 1..8 that hold a pillar. */
  ghost function Present(chart: Chart): set<int>
  {
    set p | p in POSITIONS && p in PillarsByPos(chart)
  }

  /** The cells of the grid that are not empty. */
  ghost function FilledCells(chart: Chart): set<(int, int)>
  {
    set r, c | 0 <= r < SIZE && 0 <= c < SIZE && GridCell(chart, r, c).Some? :: (r, c)
  }

  function RingLocOf(p: int): Loc { RingLoc(p) }

  function OuterLocOf(p: int): Loc { OuterLoc(p) }

  function TaskLocOf(p: int, t: int): Loc { TaskLoc(p, t) }

  /** The ring cells of the positions in `k`. */
  ghost function RingPart(k: set<int>): set<Loc>
  {
    Counting.Image(k, RingLocOf)
  }

  /** The outer centres of the positions in `k`. */
  ghost function OuterPart(k: set<int>): set<Loc>
  {
    Counting.Image(k, OuterLocOf)
  }

  /** The eight task slots of every position in `k`. */
  ghost function SlotPart(k: set<int>): set<Loc>
  {
    Counting.Pairs(k, POSITIONS, TaskLocOf)
  }

  lemma InParts(k: set<int>, loc: Loc)
    ensures loc in RingPart(k) <==> loc.RingLoc? && loc.p in k
    ensures loc in OuterPart(k) <==> loc.OuterLoc? && loc.p in k
    ensures loc in SlotPart(k) <==> loc.TaskLoc? && loc.p in k && loc.t in POSITIONS
  {
    match loc
    case GoalLoc =>
    case RingLoc(p) => assert RingLocOf(p) == loc;
    case OuterLoc(p) => assert OuterLocOf(p) == loc;
    case TaskLoc(p, t) => assert TaskLocOf(p, t) == loc;
  }

  /** Each present position contributes one ring cell, one outer centre and
      eight slots. */
  lemma PartsCard(k: set<int>)
    ensures |RingPart(k)| == |k| && |OuterPart(k)| == |k| && |SlotPart(k)| == 8 * |k|
  {
    PositionsCard();
    Counting.InjectiveImageCard(k, RingLocOf);
    Counting.InjectiveImageCard(k, OuterLocOf);
    Counting.PairsCard(k, POSITIONS, TaskLocOf);
  }

  /** The locations whose cells are written: the goal, and the ring cell,
      the outer centre and the eight slots of every present pillar. */
  ghost function FilledLocs(chart: Chart): set<Loc>
  {
    var k := Present(chart);
    {GoalLoc} + RingPart(k) + OuterPart(k) + SlotPart(k)
  }

  /** A location is written exactly when its cell is not empty. */
  lemma InFilledLocs(chart: Chart, loc: Loc)
    ensures loc in FilledLocs(chart) <==> ValidLoc(loc) && CellAt(chart, loc).Some?
  {
    var k := Present(chart);
    InParts(k, loc);
    PositionsCard();
  }

  /** `CoordOf` made total, for counting. */
  ghost function Place(loc: Loc): (int, int)
  {
    if ValidLoc(loc) then CoordOf(loc) else (-1, -1)
  }

  /** The written cells are exactly the cells of the written locations. */
  lemma FilledCellsAreFilledLocs(chart: Chart)
    ensures FilledCells(chart) == Counting.Image(FilledLocs(chart), Place)
  {
    forall rc | rc in FilledCells(chart) ensures rc in Counting.Image(FilledLocs(chart), Place) {
      var loc := Locate(rc.0, rc.1);
      InFilledLocs(chart, loc);
      assert Place(loc) == rc;
    }
    forall loc | loc in FilledLocs(chart) ensures Place(loc) in FilledCells(chart) {
      InFilledLocs(chart, loc);
      LocateCoordOf(loc);
      var rc := CoordOf(loc);
      assert GridCell(chart, rc.0, rc.1).Some?;
    }
  }

  /** One written cell for the goal and ten for every present pillar. */
  lemma FilledLocsCard(chart: Chart)
    ensures |FilledLocs(chart)| == 1 + 10 * |Present(chart)|
  {
    PartsUnionCard(Present(chart));
  }

  /** The goal and the three parts are pairwise disjoint, so their sizes add up. */
  lemma PartsUnionCard(k: set<int>)
    ensures |{GoalLoc} + RingPart(k) + OuterPart(k) + SlotPart(k)| == 1 + 10 * |k|
  {
    var ring, outer, slots := RingPart(k), OuterPart(k), SlotPart(k);
    PartsCard(k);
    forall loc | loc in ring + outer + slots ensures loc != GoalLoc { InParts(k, loc); }
    forall loc | loc in outer + slots ensures loc !in ring { InParts(k, loc); }
    forall loc | loc in slots ensures loc !in outer { InParts(k, loc); }
    assert |ring + outer + slots| == |ring| + |outer + slots| by {
      assert ring * (outer + slots) == {};
    }
    assert |outer + slots| == |outer| + |slots| by {
      assert outer * slots == {};
    }
    assert {GoalLoc} + ring + outer + slots == {GoalLoc} + (ring + outer + slots);
  }

  /** No two written locations share a cell. */
  lemma PlaceInjective(chart: Chart)
    ensures forall l1, l2 | l1 in FilledLocs(chart) && l2 in FilledLocs(chart) && Place(l1) == Place(l2) :: l1 == l2
  {
    forall l1, l2 | l1 in FilledLocs(chart) && l2 in FilledLocs(chart) && Place(l1) == Place(l2)
      ensures l1 == l2
    {
      InFilledLocs(chart, l1);
      InFilledLocs(chart, l2);
      CoordOfInjective(l1, l2);
    }
  }

  /** The grid has exactly 1 + 10k non-empty cells, where k counts the
      positions 1..8 that hold a pillar: the goal, two pillar copies and
      eight task slots per pillar, with no cell written twice. */
  lemma FilledCount(chart: Chart)
    ensures |FilledCells(chart)| == 1 + 10 * |Present(chart)|
  {
    FilledCellsAreFilledLocs(chart);
    PlaceInjective(chart);
    Counting.InjectiveImageCard(FilledLocs(chart), Place);
    FilledLocsCard(chart);
  }

  /** A chart that keeps its invariants has one present position per pillar,
      so its grid has 1 + 10 * (number of pillars) non-empty cells. */
  lemma ValidChartFilledCount(chart: Chart)
    requires ValidChart(chart)
    ensures |FilledCells(chart)| == 1 + 10 * |chart.pillars|
  {
    FilledCount(chart);
    IndexByDistinct(chart.pillars, PillarPosition);
    assert Present(chart) == PillarsByPos(chart).Keys by {
      PositionsCard();
      forall p | p in PillarsByPos(chart) ensures ValidPosition(p) {
        var i :| 0 <= i < |chart.pillars| && chart.pillars[i] == PillarsByPos(chart)[p];
      }
    }
  }
}
