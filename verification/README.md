# Harada chart grid, in Dafny

A Harada chart has one core goal, up to eight pillars (themes) and up to
eight tasks per pillar. The matrix page shows the chart as a 9x9 grid of
nine 3x3 blocks:

- the goal sits in the centre cell (4, 4);
- the pillars sit in the ring around it, at positions 1..8 numbered
  clockwise from the upper left;
- each pillar is mirrored at the centre of the outer block in its own
  direction;
- the pillar's eight task slots surround that mirrored copy, holding a task
  where one exists and a "+ Add" placeholder otherwise.

This project models that grid builder (`matrix/services.py`) and the parts of
the chart records it depends on (`charts/models.py`), and proves what they
promise.

- `optional.dfy`, module `Optional`: the `Option` type. It stands for
  Python's `None` and for `dict.get`.
- `charts.dfy`, module `Charts`:
  - pillars, tasks and charts as values, with colour, status and
    frequency kept as the stored strings;
  - the colour, status and frequency choices as datatypes, their stored
    keys, defaults (`blue`, `todo`, `one_time`) and parsers that accept
    exactly the stored keys;
  - the declared constraints, collected in `ValidChart`: colour, status and
    frequency among the choices, positions in 1..8 (`MIN_POSITION` and
    `MAX_POSITION`, the one definition the grid's ring positions also
    use), unique `(chart, position)` for pillars and unique
    `(pillar, position)` for tasks;
  - the dictionary comprehension `{key(x): x for x in xs}` as `IndexBy`,
    where a later element replaces an earlier one;
  - `completion_percentage` as exact round-half-to-even in integers.
- `layout.dfy`, module `Layout`:
  - the constants `CENTER`, `RING_OFFSETS`, `PILLAR_POS_TO_CENTER_RING`
    and `PILLAR_POS_TO_OUTER_CENTER`;
  - the `Loc` datatype, which names what each cell is reserved for;
  - the proof that `CoordOf` (location to cell) and `Locate` (cell to
    location) are inverse bijections between the 1 + 8 + 8 + 64 locations
    and the 81 cells.
- `matrix.dfy`, module `Matrix`: `build_matrix_grid`, written imperatively.
  - It allocates a fresh 9x9 `array2<Option<Cell>>` and writes the goal.
  - It then runs the pillar pass and the task pass with the source's loops,
    each pass a method with its loop invariants.
  - Its postcondition fixes every cell: `grid[r, c] == CellAt(chart,
    Locate(r, c))`. `CellAt` is a reference definition that reads each
    cell's content off its location instead of following the write order.
- `matrix_properties.dfy`, module `MatrixProperties`: what the finished grid
  holds.
  - The goal is at the centre.
  - Each present pillar appears twice and its eight slots are filled.
  - A vacant position leaves ten empty cells.
  - In a valid chart, every pillar and task is drawn at its own place.
  - The grid has exactly 1 + 10k non-empty cells, where k is the number of
    occupied pillar positions.
- `counting.dfy`, module `Counting`: cardinality lemmas about images and
  products of finite sets, used for the bounds and the cell count.

The builder has no precondition, like the source. It accepts any chart:

- pillar or task positions outside 1..8 are never looked up;
- duplicate positions collapse in the dictionaries, and the last one wins.

The declared model constraints appear only as hypotheses of the lemmas
about valid charts.

## Model

| member | source | states |
|---|---|---|
| Layout.RingOffset | matrix/services.py:14-23 | every ring offset is one of the eight neighbours of a cell: each component in -1..1, never (0, 0) |
| Layout.RingPositionOf | matrix/services.py:10-23 | the offset table read backwards: every neighbour offset is the offset of a ring position |
| Layout.RingOffsetInjective | matrix/services.py:14-23 | distinct ring positions have distinct offsets, so the table is a bijection onto the eight neighbours |
| Layout.CenterRing | matrix/services.py:25-35 | the ring cell of pillar p is one step from `CENTER` in the direction of ring position p |
| Layout.OuterCenter | matrix/services.py:37-47 | the outer centre of pillar p is three steps from `CENTER` in the direction of ring position p, i.e. the centre of p's own 3x3 block |
| Layout.TaskCoord | matrix/services.py:108-112 | the cell of task slot t of pillar p (outer centre plus `RING_OFFSETS[t]`) lies inside the 9x9 grid |
| Layout.CoordOf | matrix/services.py:63-112 | every cell the builder writes (goal, ring cell, outer centre, task slot) is inside the grid |
| Layout.Locate | matrix/services.py:8-47 | every one of the 81 cells is the placement of some location |
| Layout.LocateCoordOf | matrix/services.py:8-47 | `Locate` inverts `CoordOf`, so the placement tables are a bijection between locations and cells |
| Layout.CoordOfInjective | matrix/services.py:8-47 | no two locations are placed on the same cell |
| Layout.TaskSlotsDisjoint | matrix/services.py:108-136 | a task slot never lands on the goal, on a ring cell or on an outer centre, and different slots land on different cells, so no write overwrites another |
| Layout.PillarCellsDisjoint | matrix/services.py:26-47 | the two pillar tables avoid the centre and each other, and each is injective |
| Matrix.BuildMatrixGrid | matrix/services.py:50-138 | returns a fresh 9x9 grid in which every cell holds exactly `CellAt(chart, Locate(r, c))`: the goal, the pillar copies, the task or placeholder slots, and `None` everywhere else |
| Matrix.PlacePillars | matrix/services.py:73-98 | the pillar pass writes, for each position 1..8 holding a pillar, its ring cell and its mirrored outer centre, and changes nothing else |
| Matrix.PlaceTasks | matrix/services.py:100-104 | the task pass fills the slots of every present pillar, in position order, and skips vacant positions |
| Matrix.PlaceTaskSlots | matrix/services.py:106-136 | the inner loop writes the eight slots of one pillar: the pillar's task at that position if there is one, else the "+ Add" placeholder, and nothing else |
| MatrixProperties.GoalAtCenter | matrix/services.py:63-68 | the centre cell holds a `core_goal` cell whose content is the full goal text |
| MatrixProperties.PillarPlacement | matrix/services.py:79-98 | a present pillar appears on its ring cell and, mirrored, at its outer centre, with its id, name, colour and position |
| MatrixProperties.TaskPlacement | matrix/services.py:110-136 | slot t of a present pillar holds a `task` cell with the task's fields when the pillar has a task at t, else a `task_empty` cell with content "+ Add"; both carry the pillar's colour, id and position |
| MatrixProperties.VacantPillar | matrix/services.py:74-104 | a position without a pillar leaves its ring cell, its outer centre and all eight of its slots empty |
| MatrixProperties.PillarsByPosFinds | matrix/services.py:70-71 | with unique pillar positions, the by-position dictionary finds every pillar at its own position |
| MatrixProperties.TasksByPosFinds | matrix/services.py:106-107 | with unique task positions per pillar, the by-position dictionary finds every task of the pillar at its own position |
| MatrixProperties.ValidChartPillarPlacement | matrix/services.py:73-98 | in a valid chart, every pillar is drawn on the ring cell and at the outer centre of its own position |
| MatrixProperties.ValidChartTaskPlacement | matrix/services.py:100-136 | in a valid chart, every task is drawn in its own pillar's block, in the slot of its own position |
| MatrixProperties.InFilledLocs | matrix/services.py:61-136 | a location's cell is non-empty exactly when it is the goal or belongs to an occupied pillar position |
| MatrixProperties.PlaceInjective | matrix/services.py:61-136 | no two written locations share a cell |
| MatrixProperties.FilledCount | matrix/services.py:61-136 | the grid has exactly 1 + 10k non-empty cells, k being the number of positions 1..8 holding a pillar |
| MatrixProperties.ValidChartFilledCount | matrix/services.py:61-136 | for a valid chart the grid has exactly 1 + 10 * (number of pillars) non-empty cells |
| Charts.ParseColor | charts/models.py:49-67 | a stored colour value is accepted exactly when it is the key of one of the eight colour choices, and then maps to that choice |
| Charts.ParseStatus | charts/models.py:86-104 | a stored status is accepted exactly when it is `todo`, `in_progress` or `done`, and then maps to that choice |
| Charts.ParseFrequency | charts/models.py:92-103 | a stored frequency is accepted exactly when it is `one_time` or `routine`, and then maps to that choice |
| Charts.PositionsCard | charts/models.py:68-71 | the position set holds exactly the positions the validators accept, and there are eight of them |
| Charts.TasksOf | matrix/services.py:106 | a pillar's tasks are exactly the chart's tasks that belong to it, and no more of them than the chart has |
| Charts.IndexBy | matrix/services.py:71 | the dictionary comprehension has an entry for every key that occurs, and each entry holds an element with that key |
| Charts.IndexByLastWins | matrix/services.py:71 | when keys repeat, the entry holds the last element with that key |
| Charts.IndexByDistinct | matrix/services.py:107 | with distinct keys, every element is found under its own key and there is one entry per element |
| Charts.TasksOfDistinct | charts/models.py:112-113 | unique `(pillar, position)` means one pillar's tasks have pairwise distinct positions |
| Charts.ValidChartBounds | charts/models.py:68-113 | the position range and the uniqueness constraints allow at most eight pillars per chart and at most eight tasks per pillar |
| Charts.TasksOfAppend | matrix/services.py:106 | filtering a pillar's tasks keeps their order: the tasks of a concatenation are those of the first part followed by those of the second |
| Charts.CountDone | charts/models.py:40 | the number of tasks whose stored status is `done` is at most the number of tasks; it is 0 exactly when none is done and equals the total exactly when all are done |
| Charts.RoundHalfEven | charts/models.py:41 | the result is num / den rounded to nearest, ties to even, as Python's `round` does |
| Charts.NearestHalfEvenUnique | charts/models.py:41 | that rounding has a single possible result |
| Charts.CompletionPercentage | charts/models.py:34-41 | 0 without tasks, otherwise 100 * done / total rounded half to even, and never above 100 |
| Charts.CompletionExtremes | charts/models.py:34-41 | no task done gives 0 %, all tasks done gives 100 % |
| Charts.RoundingMonotonic | charts/models.py:41 | the rounding is monotonic in the numerator |
| Charts.CompletionMonotonic | charts/models.py:40-41 | marking more of the same number of tasks done never lowers the percentage |
| Charts.CompletionSamples | Tests/unit/charts/test_models.py:19-36 | 32 of 64 done is 50 %, 16 of 64 is 25 %; the ties 1 of 8 and 3 of 8 round to 12 and 38 |

## Left out

- Charts.CompletionPercentage: computed exactly in integers. The source
  divides and multiplies in IEEE binary64 before rounding, and that can fall
  just below an exact tie. With 23 of 40 tasks done, the exact value 57.5
  rounds to 58, but the double-precision product 23/40*100 is slightly
  below 57.5, so the source returns 57.
- The database queries are not modelled:
  - the caller passes the chart's pillars and tasks as sequences, standing
    for the result of `order_by("position")`;
  - the sort itself is not modelled; among equal positions the sequence
    order decides, and the last element wins (`Charts.IndexByLastWins`).
- `completion_percentage` reads the chart's own `task_set`, while the grid
  reads each pillar's `task_set`. The model uses one task sequence for
  both. That is the same set only when every task's chart is its pillar's
  chart, which the source does not enforce.
- Enforcement of the choices, the validators and `unique_together` is not
  modelled:
  - choices and validators run only in Django's `full_clean`, not on
    `save`. For instance, the task update view (matrix/views.py:39-41)
    saves any posted status or frequency. The model therefore keeps those
    fields as plain strings: a value outside the choices is copied into
    its cell unchanged and counts as not done;
  - `unique_together` is enforced by the database;
  - the model states all of these constraints as `ValidChart` and uses
    them only as hypotheses of the lemmas about valid charts.
- A grid cell is a dictionary in the source. The model uses the `Cell`
  datatype instead:
  - `Kind`, `Content` and `Title` give its `type`, `content` and `title`
    entries;
  - `mirrored` is true exactly on the outer copy of a pillar;
  - the `task_obj` entry (matrix/services.py:126), which hands the ORM
    object to the template, is not modelled.
- The grid is a fresh `array2` rather than a list of row lists.
- `if not pillar` and `if task` are modelled as "the key is present", since
  model instances are always truthy.
- Chart, pillar and task fields the builder does not read are not
  modelled: the chart's user, title, target date, draft flag and
  perspectives, the task's description, and the timestamps.
  Neither are the string length limits or the `__str__` methods.
- matrix/views.py:47-115 holds a second, older grid builder with its own
  task coordinate table, a truncated goal text and a `completion` entry. It
  is not part of this model. Neither are the views, URL routing, the wizard,
  accounts, middleware and templates.
