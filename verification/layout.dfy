/** The fixed geometry of the 9x9 Harada grid: the centre cell, the ring
    offsets around a cell, and the two pillar placement tables. Rows and
    columns are 0-based. The grid is nine 3x3 blocks: the centre block holds
    the goal and the pillar ring, and each outer block holds one pillar's
    mirrored copy at its centre with that pillar's eight task slots around it. */
module Layout {
  import opened Charts

  const SIZE: int := 9

  /** The goal's cell. */
  const CENTER: (int, int) := (4, 4)

  predicate InGrid(r: int, c: int)
  {
    0 <= r < SIZE && 0 <= c < SIZE
  }

  /** Offset from a centre cell to ring position `p`, clockwise from the
      upper left:
        1 2 3
        8   4
        7 6 5  */
  function RingOffset(p: int): (d: (int, int))
    requires ValidPosition(p)
    ensures -1 <= d.0 <= 1 && -1 <= d.1 <= 1 && d != (0, 0)
  {
    match p
    case 1 => (-1, -1)
    case 2 => (-1, 0)
    case 3 => (-1, 1)
    case 4 => (0, 1)
    case 5 => (1, 1)
    case 6 => (1, 0)
    case 7 => (1, -1)
    case _ => (0, -1)
  }

  /** The ring position of a non-zero offset: the table read backwards. */
  function RingPositionOf(dr: int, dc: int): (p: int)
    requires -1 <= dr <= 1 && -1 <= dc <= 1 && (dr, dc) != (0, 0)
    ensures ValidPosition(p) && RingOffset(p) == (dr, dc)
  {
    if dr == -1 then (if dc == -1 then 1 else if dc == 0 then 2 else 3)
    else if dr == 0 then (if dc == 1 then 4 else 8)
    else (if dc == 1 then 5 else if dc == 0 then 6 else 7)
  }

  /** Distinct ring positions have distinct offsets. */
  lemma RingOffsetInjective(p: int)
    requires ValidPosition(p)
    ensures RingPositionOf(RingOffset(p).0, RingOffset(p).1) == p
  {
  }

  /** Where pillar `p` sits on the ring around the goal: one step from the
      centre in the direction of ring position `p`. */
  function CenterRing(p: int): (rc: (int, int))
    requires ValidPosition(p)
    ensures rc == (CENTER.0 + RingOffset(p).0, CENTER.1 + RingOffset(p).1)
  {
    match p
    case 1 => (3, 3)
    case 2 => (3, 4)
    case 3 => (3, 5)
    case 4 => (4, 5)
    case 5 => (5, 5)
    case 6 => (5, 4)
    case 7 => (5, 3)
    case _ => (4, 3)
  }

  /** The centre of pillar `p`'s own outer block: three steps from the centre
      in the direction of ring position `p`. */
  function OuterCenter(p: int): (rc: (int, int))
    requires ValidPosition(p)
    ensures rc == (CENTER.0 + 3 * RingOffset(p).0, CENTER.1 + 3 * RingOffset(p).1)
  {
    match p
    case 1 => (1, 1)
    case 2 => (1, 4)
    case 3 => (1, 7)
    case 4 => (4, 7)
    case 5 => (7, 7)
    case 6 => (7, 4)
    case 7 => (7, 1)
    case _ => (4, 1)
  }

  /** The cell of task slot `t` of pillar `p`: the outer centre moved by the
      ring offset of `t`. */
  function TaskCoord(p: int, t: int): (rc: (int, int))
    requires ValidPosition(p) && ValidPosition(t)
    ensures InGrid(rc.0, rc.1)
  {
    var (centerR, centerC) := OuterCenter(p);
    var (dr, dc) := RingOffset(t);
    (centerR + dr, centerC + dc)
  }

  /** What a cell of the grid is reserved for. */
  datatype Loc =
    | GoalLoc
    | RingLoc(p: int)
    | OuterLoc(p: int)
    | TaskLoc(p: int, t: int)

  predicate ValidLoc(loc: Loc)
  {
    match loc
    case GoalLoc => true
    case RingLoc(p) => ValidPosition(p)
    case OuterLoc(p) => ValidPosition(p)
    case TaskLoc(p, t) => ValidPosition(p) && ValidPosition(t)
  }

  /** The cell the placement tables assign to a location. */
  function CoordOf(loc: Loc): (rc: (int, int))
    requires ValidLoc(loc)
    ensures InGrid(rc.0, rc.1)
  {
    match loc
    case GoalLoc => CENTER
    case RingLoc(p) => CenterRing(p)
    case OuterLoc(p) => OuterCenter(p)
    case TaskLoc(p, t) => TaskCoord(p, t)
  }

  /** Index 0, 1 or 2 of the block row (or column) holding `x`. */
  function BlockOf(x: int): (b: int)
    requires 0 <= x < SIZE
    ensures 0 <= b <= 2 && 3 * b <= x < 3 * b + 3
  {
    if x < 3 then 0 else if x < 6 then 1 else 2
  }

  /** The location a cell is reserved for: every cell of the grid is the
      placement of exactly one location. */
  function Locate(r: int, c: int): (loc: Loc)
    requires InGrid(r, c)
    ensures ValidLoc(loc) && CoordOf(loc) == (r, c)
  {
    var br, bc := BlockOf(r), BlockOf(c);
    var dr, dc := r - (3 * br + 1), c - (3 * bc + 1);
    if br == 1 && bc == 1 then
      if dr == 0 && dc == 0 then GoalLoc else RingLoc(RingPositionOf(dr, dc))
    else
      var p := RingPositionOf(br - 1, bc - 1);
      if dr == 0 && dc == 0 then OuterLoc(p) else TaskLoc(p, RingPositionOf(dr, dc))
  }

  /** Locating a location's cell gives the location back, so no two locations
      share a cell. */
  lemma LocateCoordOf(loc: Loc)
    requires ValidLoc(loc)
    ensures Locate(CoordOf(loc).0, CoordOf(loc).1) == loc
  {
    match loc
    case GoalLoc =>
    case RingLoc(p) =>
      RingOffsetInjective(p);
    case OuterLoc(p) =>
      RingOffsetInjective(p);
    case TaskLoc(p, t) =>
      RingOffsetInjective(p);
      RingOffsetInjective(t);
  }

  /** The placement tables never send two locations to one cell. */
  lemma CoordOfInjective(l1: Loc, l2: Loc)
    requires ValidLoc(l1) && ValidLoc(l2) && CoordOf(l1) == CoordOf(l2)
    ensures l1 == l2
  {
    LocateCoordOf(l1);
    LocateCoordOf(l2);
  }

  /** No task slot lands on the goal, on the pillar ring or on an outer
      centre, and different slots land on different cells. */
  lemma TaskSlotsDisjoint(p: int, t: int)
    requires ValidPosition(p) && ValidPosition(t)
    ensures TaskCoord(p, t) != CENTER
    ensures forall q | ValidPosition(q) :: TaskCoord(p, t) != CenterRing(q) && TaskCoord(p, t) != OuterCenter(q)
    ensures forall p', t' | ValidPosition(p') && ValidPosition(t') && (p', t') != (p, t) ::
      TaskCoord(p, t) != TaskCoord(p', t')
  {
    LocateCoordOf(TaskLoc(p, t));
    LocateCoordOf(GoalLoc);
    forall q | ValidPosition(q)
      ensures TaskCoord(p, t) != CenterRing(q) && TaskCoord(p, t) != OuterCenter(q)
    {
      LocateCoordOf(RingLoc(q));
      LocateCoordOf(OuterLoc(q));
    }
    forall p', t' | ValidPosition(p') && ValidPosition(t') && (p', t') != (p, t)
      ensures TaskCoord(p, t) != TaskCoord(p', t')
    {
      LocateCoordOf(TaskLoc(p', t'));
    }
  }

  /** The two pillar tables are disjoint from each other and from the goal,
      and each of them is injective. */
  lemma PillarCellsDisjoint(p: int, q: int)
    requires ValidPosition(p) && ValidPosition(q)
    ensures CenterRing(p) != CENTER && OuterCenter(p) != CENTER
    ensures CenterRing(p) != OuterCenter(q)
    ensures p != q ==> CenterRing(p) != CenterRing(q) && OuterCenter(p) != OuterCenter(q)
  {
    LocateCoordOf(GoalLoc);
    LocateCoordOf(RingLoc(p));
    LocateCoordOf(RingLoc(q));
    LocateCoordOf(OuterLoc(p));
    LocateCoordOf(OuterLoc(q));
  }
}
