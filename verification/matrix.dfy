/** The grid builder: lays a chart's goal, pillars and tasks onto the 9x9
    Harada grid. The cells are filled in place, as the builder does, and the
    result is specified cell by cell by `CellAt`, which reads each cell's
    content off the location the cell is reserved for. */
module Matrix {
  import opened Optional
  import opened Charts
  import opened Layout

  const GOAL_TITLE: string := "Core Goal"
  const EMPTY_TASK_CONTENT: string := "+ Add"

  /** A cell descriptor. An empty cell is `None` in the grid. */
  datatype Cell =
    | CoreGoal(goal: string)
    | PillarCell(id: int, name: string, color: string, position: int, mirrored: bool)
    | TaskCell(id: int, title: string, status: string, frequency: string,
               color: string, pillarId: int, pillarPosition: int, position: int)
    | TaskEmpty(color: string, pillarId: int, pillarPosition: int, position: int)
  {
    /** The `type` tag of the descriptor. */
    function Kind(): string
    {
      match this
      case CoreGoal(_) => "core_goal"
      case PillarCell(_, _, _, _, _) => "pillar"
      case TaskCell(_, _, _, _, _, _, _, _) => "task"
      case TaskEmpty(_, _, _, _) => "task_empty"
    }

    /** The text shown in the cell. */
    function Content(): string
    {
      match this
      case CoreGoal(goal) => goal
      case PillarCell(_, name, _, _, _) => name
      case TaskCell(_, title, _, _, _, _, _, _) => title
      case TaskEmpty(_, _, _, _) => EMPTY_TASK_CONTENT
    }

    /** The `title` entry; a placeholder has none. */
    function Title(): Option<string>
    {
      match this
      case CoreGoal(_) => Some(GOAL_TITLE)
      case PillarCell(_, name, _, _, _) => Some(name)
      case TaskCell(_, title, _, _, _, _, _, _) => Some(title)
      case TaskEmpty(_, _, _, _) => None
    }
  }

  /** The chart's pillars by position, later ones replacing earlier ones. */
  function PillarsByPos(chart: Chart): map<int, Pillar>
  {
    IndexBy(chart.pillars, PillarPosition)
  }

  /** One pillar's tasks by position, later ones replacing earlier ones. */
  function TasksByPos(chart: Chart, pillar: Pillar): map<int, Task>
  {
    IndexBy(TasksOf(chart.tasks, pillar.id), TaskPosition)
  }

  function PillarCellOf(pillar: Pillar, pos: int, mirrored: bool): Cell
  {
    PillarCell(pillar.id, pillar.name, pillar.color, pos, mirrored)
  }

  /** Slot `taskPos` of the pillar at `pos`: its task if there is one, a
      placeholder otherwise; either way in the pillar's colour. */
  function TaskSlotOf(pillar: Pillar, pos: int, tasksByPos: map<int, Task>, taskPos: int): Cell
  {
    if taskPos in tasksByPos then
      var task := tasksByPos[taskPos];
      TaskCell(task.id, task.title, task.status, task.frequency, pillar.color, pillar.id, pos, taskPos)
    else
      TaskEmpty(pillar.color, pillar.id, pos, taskPos)
  }

  /** What the finished grid holds at a location: the goal at the centre; a
      present pillar on the ring and, mirrored, at its outer centre; its eight
      task slots around that; nothing where the pillar is vacant. */
  function CellAt(chart: Chart, loc: Loc): Option<Cell>
  {
    var pillarsByPos := PillarsByPos(chart);
    match loc
    case GoalLoc => Some(CoreGoal(chart.coreGoal))
    case RingLoc(p) =>
      if p in pillarsByPos then Some(PillarCellOf(pillarsByPos[p], p, false)) else None
    case OuterLoc(p) =>
      if p in pillarsByPos then Some(PillarCellOf(pillarsByPos[p], p, true)) else None
    case TaskLoc(p, t) =>
      if p in pillarsByPos then
        var pillar := pillarsByPos[p];
        Some(TaskSlotOf(pillar, p, TasksByPos(chart, pillar), t))
      else None
  }

  /** Written by the time the pillar pass reaches position `pos`. */
  predicate PillarPassDone(loc: Loc, pos: int)
  {
    match loc
    case GoalLoc => true
    case RingLoc(p) => p < pos
    case OuterLoc(p) => p < pos
    case TaskLoc(_, _) => false
  }

  /** Written by the time the task pass reaches slot `taskPos` of position `pos`. */
  predicate TaskPassDone(loc: Loc, pos: int, taskPos: int)
  {
    match loc
    case TaskLoc(p, t) => p < pos || (p == pos && t < taskPos)
    case _ => true
  }

  /** The pillar pass has written every pillar position below `pos`. */
  ghost predicate PillarsPlaced(grid: array2<Option<Cell>>, chart: Chart, pos: int)
    reads grid
    requires grid.Length0 == SIZE && grid.Length1 == SIZE
  {
    forall r, c | InGrid(r, c) ::
      grid[r, c] == if PillarPassDone(Locate(r, c), pos) then CellAt(chart, Locate(r, c)) else None
  }

  /** The task pass has written every slot before slot `taskPos` of position `pos`. */
  ghost predicate TasksPlaced(grid: array2<Option<Cell>>, chart: Chart, pos: int, taskPos: int)
    reads grid
    requires grid.Length0 == SIZE && grid.Length1 == SIZE
  {
    forall r, c | InGrid(r, c) ::
      grid[r, c] == if TaskPassDone(Locate(r, c), pos, taskPos) then CellAt(chart, Locate(r, c)) else None
  }

  /** Builds the 9x9 grid of a chart: every cell holds what `CellAt` says
      its location holds. */
  method BuildMatrixGrid(chart: Chart) returns (grid: array2<Option<Cell>>)
    ensures fresh(grid)
    ensures grid.Length0 == SIZE && grid.Length1 == SIZE
    ensures forall r, c | InGrid(r, c) :: grid[r, c] == CellAt(chart, Locate(r, c))
  {
    grid := new Option<Cell>[SIZE, SIZE]((r, c) => None);

    // Core goal at the exact centre.
    LocateCoordOf(GoalLoc);
    grid[CENTER.0, CENTER.1] := Some(CoreGoal(chart.coreGoal));

    var pillarsByPos := PillarsByPos(chart);
    PlacePillars(chart, pillarsByPos, grid);
    PlaceTasks(chart, pillarsByPos, grid);
  }

  /** The pillar pass: each present pillar on the centre ring and, mirrored,
      at its outer centre. */
  method PlacePillars(chart: Chart, pillarsByPos: map<int, Pillar>, grid: array2<Option<Cell>>)
    requires pillarsByPos == PillarsByPos(chart)
    requires grid.Length0 == SIZE && grid.Length1 == SIZE
    requires PillarsPlaced(grid, chart, 1)
    modifies grid
    ensures PillarsPlaced(grid, chart, 9)
  {
    for pos := 1 to 9
      invariant forall r, c | InGrid(r, c) ::
        grid[r, c] == if PillarPassDone(Locate(r, c), pos) then CellAt(chart, Locate(r, c)) else None
    {
      if pos in pillarsByPos {
        var pillar := pillarsByPos[pos];
        LocateCoordOf(RingLoc(pos));
        LocateCoordOf(OuterLoc(pos));
        assert CellAt(chart, RingLoc(pos)) == Some(PillarCellOf(pillar, pos, false));
        assert CellAt(chart, OuterLoc(pos)) == Some(PillarCellOf(pillar, pos, true));

        var (r, c) := CenterRing(pos);
        grid[r, c] := Some(PillarCellOf(pillar, pos, false));
        assert forall r, c | InGrid(r, c) ::
          grid[r, c] == if PillarPassDone(Locate(r, c), pos) || Locate(r, c) == RingLoc(pos)
                        then CellAt(chart, Locate(r, c)) else None;

        var (orow, ocol) := OuterCenter(pos);
        grid[orow, ocol] := Some(PillarCellOf(pillar, pos, true));
      }
    }
  }

  /** The task pass: the eight slots of each present pillar around its outer
      centre, a task where one exists and a placeholder otherwise. */
  method PlaceTasks(chart: Chart, pillarsByPos: map<int, Pillar>, grid: array2<Option<Cell>>)
    requires pillarsByPos == PillarsByPos(chart)
    requires grid.Length0 == SIZE && grid.Length1 == SIZE
    requires TasksPlaced(grid, chart, 1, 1)
    modifies grid
    ensures TasksPlaced(grid, chart, 9, 1)
  {
    for pos := 1 to 9
      invariant TasksPlaced(grid, chart, pos, 1)
    {
      if pos in pillarsByPos {
        PlaceTaskSlots(chart, pos, pillarsByPos[pos], grid);
      }
    }
  }

  /** The eight slots of the present pillar at `pos`. */
  method PlaceTaskSlots(chart: Chart, pos: int, pillar: Pillar, grid: array2<Option<Cell>>)
    requires ValidPosition(pos)
    requires pos in PillarsByPos(chart) && pillar == PillarsByPos(chart)[pos]
    requires grid.Length0 == SIZE && grid.Length1 == SIZE
    requires TasksPlaced(grid, chart, pos, 1)
    modifies grid
    ensures TasksPlaced(grid, chart, pos + 1, 1)
  {
    var tasksByPos := TasksByPos(chart, pillar);
    var (centerR, centerC) := OuterCenter(pos);

    for taskPos := 1 to 9
      invariant forall r, c | InGrid(r, c) ::
        grid[r, c] == if TaskPassDone(Locate(r, c), pos, taskPos) then CellAt(chart, Locate(r, c)) else None
    {
      var (dr, dc) := RingOffset(taskPos);
      var (r, c) := (centerR + dr, centerC + dc);
      LocateCoordOf(TaskLoc(pos, taskPos));
      assert (r, c) == CoordOf(TaskLoc(pos, taskPos));
      assert CellAt(chart, TaskLoc(pos, taskPos)) == Some(TaskSlotOf(pillar, pos, tasksByPos, taskPos));
      grid[r, c] := Some(TaskSlotOf(pillar, pos, tasksByPos, taskPos));
    }
  }
}
