/** The entities of a Harada chart: a chart holds one core goal, up to eight
    pillars and up to eight tasks per pillar. Pillars and tasks are read-only
    records here; the database that owns them is not part of this model. */
module Charts {
  import opened Optional
  import Counting

  /** The eight pillar colours, in the order of the choices list. */
  datatype Color = Blue | Red | Green | Purple | Yellow | Pink | Indigo | Orange
  {
    /** The value stored in the `color` column. */
    function Key(): string
    {
      match this
      case Blue => "blue"
      case Red => "red"
      case Green => "green"
      case Purple => "purple"
      case Yellow => "yellow"
      case Pink => "pink"
      case Indigo => "indigo"
      case Orange => "orange"
    }
  }

  datatype Status = Todo | InProgress | Done
  {
    /** The value stored in the `status` column. */
    function Key(): string
    {
      match this
      case Todo => "todo"
      case InProgress => "in_progress"
      case Done => "done"
    }
  }

  datatype Frequency = OneTime | Routine
  {
    /** The value stored in the `frequency` column. */
    function Key(): string
    {
      match this
      case OneTime => "one_time"
      case Routine => "routine"
    }
  }

  const DEFAULT_COLOR: Color := Blue
  const DEFAULT_STATUS: Status := Todo
  const DEFAULT_FREQUENCY: Frequency := OneTime

  /** The stored colour values form a closed set: a string is a colour exactly
      when it is the key of one of the eight choices. */
  function ParseColor(key: string): (c: Option<Color>)
    ensures forall col: Color :: c == Some(col) <==> key == col.Key()
  {
    if key == "blue" then Some(Blue)
    else if key == "red" then Some(Red)
    else if key == "green" then Some(Green)
    else if key == "purple" then Some(Purple)
    else if key == "yellow" then Some(Yellow)
    else if key == "pink" then Some(Pink)
    else if key == "indigo" then Some(Indigo)
    else if key == "orange" then Some(Orange)
    else None
  }

  function ParseStatus(key: string): (s: Option<Status>)
    ensures forall st: Status :: s == Some(st) <==> key == st.Key()
  {
    if key == "todo" then Some(Todo)
    else if key == "in_progress" then Some(InProgress)
    else if key == "done" then Some(Done)
    else None
  }

  function ParseFrequency(key: string): (f: Option<Frequency>)
    ensures forall fr: Frequency :: f == Some(fr) <==> key == fr.Key()
  {
    if key == "one_time" then Some(OneTime)
    else if key == "routine" then Some(Routine)
    else None
  }

  /** A pillar as stored: the colour is the stored string, which nothing
      forces to be one of the choices. */
  datatype Pillar = Pillar(id: int, name: string, color: string, position: int)

  /** A task refers to its owning pillar by the pillar's id. Status and
      frequency are the stored strings, like the pillar's colour. */
  datatype Task = Task(id: int, pillarId: int, title: string,
                       frequency: string, status: string, position: int)

  /** A chart as the grid builder sees it: the goal text, the chart's pillars
      and the chart's tasks, each collection in the order the caller gives. */
  datatype Chart = Chart(coreGoal: string, pillars: seq<Pillar>, tasks: seq<Task>)

  /** The bounds of the position validators, for pillars and tasks alike. */
  const MIN_POSITION: int := 1
  const MAX_POSITION: int := 8

  /** A position the validators accept; also a ring position of the grid. */
  predicate ValidPosition(p: int)
  {
    MIN_POSITION <= p <= MAX_POSITION
  }

  /** The eight valid positions as a set. */
  const POSITIONS: set<int> := set p: int | MIN_POSITION <= p <= MAX_POSITION

  lemma PositionsCard()
    ensures |POSITIONS| == 8
    ensures forall p :: p in POSITIONS <==> ValidPosition(p)
  {
    assert POSITIONS == {1, 2, 3, 4, 5, 6, 7, 8};
  }

  /** Colours among the choices, positions in [1, 8], unique per chart, and
      distinct primary keys. */
  predicate ValidPillars(ps: seq<Pillar>)
  {
    (forall i | 0 <= i < |ps| :: ParseColor(ps[i].color).Some? && ValidPosition(ps[i].position)) &&
    (forall i, j | 0 <= i < j < |ps| :: ps[i].position != ps[j].position && ps[i].id != ps[j].id)
  }

  /** Status and frequency among the choices, and position in [1, 8]. */
  predicate ValidTask(t: Task)
  {
    ParseStatus(t.status).Some? && ParseFrequency(t.frequency).Some? && ValidPosition(t.position)
  }

  /** Every task valid, and positions unique per pillar. */
  predicate ValidTasks(ts: seq<Task>)
  {
    (forall i | 0 <= i < |ts| :: ValidTask(ts[i])) &&
    (forall i, j | 0 <= i < j < |ts| && ts[i].pillarId == ts[j].pillarId :: ts[i].position != ts[j].position)
  }

  /** The chart's declared invariants, with every task owned by one of the
      chart's pillars. */
  predicate ValidChart(chart: Chart)
  {
    ValidPillars(chart.pillars) && ValidTasks(chart.tasks) &&
    forall t | t in chart.tasks :: exists p | p in chart.pillars :: p.id == t.pillarId
  }

  /** The tasks of one pillar (its reverse relation), in their original order
      (`TasksOfAppend`). */
  function TasksOf(ts: seq<Task>, pillarId: int): (r: seq<Task>)
    ensures |r| <= |ts|
    ensures forall t :: t in r <==> t in ts && t.pillarId == pillarId
  {
    if ts == [] then []
    else if ts[0].pillarId == pillarId then [ts[0]] + TasksOf(ts[1..], pillarId)
    else TasksOf(ts[1..], pillarId)
  }

  /** Filtering keeps the order: the tasks of a concatenation are the tasks of
      its first part followed by those of its second part. */
  lemma {:induction false} TasksOfAppend(a: seq<Task>, b: seq<Task>, pillarId: int)
    ensures TasksOf(a + b, pillarId) == TasksOf(a, pillarId) + TasksOf(b, pillarId)
  {
    if a != [] {
      assert (a + b)[1..] == a[1..] + b;
      TasksOfAppend(a[1..], b, pillarId);
    } else {
      assert a + b == b;
    }
  }

  /** No two entries of `xs` share a key. */
  predicate DistinctKeys<T>(xs: seq<T>, key: T -> int)
  {
    forall i, j | 0 <= i < j < |xs| :: key(xs[i]) != key(xs[j])
  }

  /** The dictionary `{key(x): x for x in xs}`: one entry per key that occurs,
      each holding an element with that key. */
  function IndexBy<T>(xs: seq<T>, key: T -> int): (m: map<int, T>)
    ensures forall i | 0 <= i < |xs| :: key(xs[i]) in m
    ensures forall k | k in m :: m[k] in xs && key(m[k]) == k
  {
    if xs == [] then map[]
    else
      var last := xs[|xs| - 1];
      IndexBy(xs[..|xs| - 1], key)[key(last) := last]
  }

  /** `xs[i]` is the last element of `xs` with its key. */
  predicate LastWithKey<T>(xs: seq<T>, key: T -> int, i: int)
    requires 0 <= i < |xs|
  {
    forall j | i < j < |xs| :: key(xs[j]) != key(xs[i])
  }

  /** As in a Python dictionary comprehension, a later element replaces an
      earlier one with the same key: the entry is the last such element. */
  lemma {:induction false} IndexByLastWins<T>(xs: seq<T>, key: T -> int, i: int)
    requires 0 <= i < |xs| && LastWithKey(xs, key, i)
    ensures IndexBy(xs, key)[key(xs[i])] == xs[i]
  {
    var n := |xs|;
    if i < n - 1 {
      var prefix := xs[..n - 1];
      assert prefix[i] == xs[i];
      assert LastWithKey(prefix, key, i) by {
        forall j | i < j < |prefix| ensures key(prefix[j]) != key(prefix[i]) {
          assert prefix[j] == xs[j];
        }
      }
      IndexByLastWins(prefix, key, i);
      assert key(xs[n - 1]) != key(xs[i]);
    }
  }

  /** With no repeated key, every element is found under its own key and the
      dictionary has exactly one entry per element. */
  lemma IndexByDistinct<T>(xs: seq<T>, key: T -> int)
    requires DistinctKeys(xs, key)
    ensures forall i | 0 <= i < |xs| :: IndexBy(xs, key)[key(xs[i])] == xs[i]
    ensures IndexBy(xs, key).Keys == set i | 0 <= i < |xs| :: key(xs[i])
    ensures |IndexBy(xs, key)| == |xs|
  {
    forall i | 0 <= i < |xs| ensures IndexBy(xs, key)[key(xs[i])] == xs[i] {
      IndexByLastWins(xs, key, i);
    }
    IndexByKeys(xs, key);
    KeysCard(xs, key);
  }

  /** The dictionary's keys are the keys that occur. */
  lemma IndexByKeys<T>(xs: seq<T>, key: T -> int)
    ensures IndexBy(xs, key).Keys == set i | 0 <= i < |xs| :: key(xs[i])
  {
    var m := IndexBy(xs, key);
    forall k | k in m ensures k in set i | 0 <= i < |xs| :: key(xs[i]) {
      var i :| 0 <= i < |xs| && xs[i] == m[k];
    }
  }

  /** Distinct keys are as many as the elements. */
  lemma KeysCard<T>(xs: seq<T>, key: T -> int)
    requires DistinctKeys(xs, key)
    ensures |set i | 0 <= i < |xs| :: key(xs[i])| == |xs|
  {
    var ks := seq(|xs|, i requires 0 <= i < |xs| => key(xs[i]));
    assert (set k | k in ks) == set i | 0 <= i < |xs| :: key(xs[i]) by {
      forall k | k in ks ensures k in set i | 0 <= i < |xs| :: key(xs[i]) {
        var i :| 0 <= i < |ks| && ks[i] == k;
      }
      forall i | 0 <= i < |xs| ensures key(xs[i]) in ks {
        assert ks[i] == key(xs[i]);
      }
    }
    Counting.DistinctCard(ks);
  }

  function PillarPosition(p: Pillar): int { p.position }

  function TaskPosition(t: Task): int { t.position }

  /** A valid chart has at most eight pillars, and each of them at most eight tasks. */
  lemma ValidChartBounds(chart: Chart)
    requires ValidChart(chart)
    ensures |chart.pillars| <= 8
    ensures forall p | p in chart.pillars :: |TasksOf(chart.tasks, p.id)| <= 8
  {
    PositionsBound(chart.pillars, PillarPosition);
    forall p | p in chart.pillars ensures |TasksOf(chart.tasks, p.id)| <= 8 {
      TasksOfDistinct(chart.tasks, p.id);
      assert forall t | t in TasksOf(chart.tasks, p.id) :: t in chart.tasks;
      PositionsBound(TasksOf(chart.tasks, p.id), TaskPosition);
    }
  }

  /** Distinct keys, all of them positions, allow at most eight entries. */
  lemma PositionsBound<T>(xs: seq<T>, key: T -> int)
    requires forall i | 0 <= i < |xs| :: ValidPosition(key(xs[i]))
    requires DistinctKeys(xs, key)
    ensures |xs| <= 8
  {
    IndexByDistinct(xs, key);
    PositionsCard();
    Counting.SubsetCard(IndexBy(xs, key).Keys, POSITIONS);
  }

  /** Dropping the first task keeps the invariants. */
  lemma ValidTasksTail(ts: seq<Task>)
    requires ts != [] && ValidTasks(ts)
    ensures ValidTasks(ts[1..])
  {
    var tail := ts[1..];
    forall i | 0 <= i < |tail| ensures ValidTask(tail[i]) {
      assert tail[i] == ts[i + 1];
    }
    forall i, j | 0 <= i < j < |tail| && tail[i].pillarId == tail[j].pillarId
      ensures tail[i].position != tail[j].position
    {
      assert tail[i] == ts[i + 1] && tail[j] == ts[j + 1];
    }
  }

  /** The first task's position is not reused by a later task of its pillar. */
  lemma HeadPositionUnique(ts: seq<Task>)
    requires ts != [] && ValidTasks(ts)
    ensures forall t | t in TasksOf(ts[1..], ts[0].pillarId) :: t.position != ts[0].position
  {
    var tail := ts[1..];
    forall t | t in TasksOf(tail, ts[0].pillarId) ensures t.position != ts[0].position {
      var j :| 0 <= j < |tail| && tail[j] == t;
      assert ts[j + 1] == t;
    }
  }

  /** Within one pillar, unique task positions survive the filtering. */
  lemma {:induction false} TasksOfDistinct(ts: seq<Task>, pillarId: int)
    requires ValidTasks(ts)
    ensures DistinctKeys(TasksOf(ts, pillarId), TaskPosition)
  {
    if ts != [] {
      var tail := ts[1..];
      ValidTasksTail(ts);
      TasksOfDistinct(tail, pillarId);
      if ts[0].pillarId == pillarId {
        HeadPositionUnique(ts);
        DistinctKeysCons(ts[0], TasksOf(tail, pillarId));
      }
    }
  }

  /** A task whose position no other task has can go in front. */
  lemma DistinctKeysCons(x: Task, rest: seq<Task>)
    requires DistinctKeys(rest, TaskPosition)
    requires forall t | t in rest :: t.position != x.position
    ensures DistinctKeys([x] + rest, TaskPosition)
  {
    var r := [x] + rest;
    forall i, j | 0 <= i < j < |r| ensures TaskPosition(r[i]) != TaskPosition(r[j]) {
      assert r[j] == rest[j - 1] && r[j] in rest;
      if i > 0 { assert r[i] == rest[i - 1]; }
    }
  }

  /** The number of tasks whose status is `done`. */
  function CountDone(ts: seq<Task>): (n: nat)
    ensures n <= |ts|
    ensures n == 0 <==> forall t | t in ts :: t.status != Done.Key()
    ensures n == |ts| <==> forall t | t in ts :: t.status == Done.Key()
  {
    if ts == [] then 0
    else (if ts[0].status == Done.Key() then 1 else 0) + CountDone(ts[1..])
  }

  /** `r` is `num / den` rounded to the nearest integer, ties to the even
      neighbour (Python's `round`): twice the error is below `den`, or equals
      it and `r` is even. */
  ghost predicate NearestHalfEven(r: int, num: int, den: int)
  {
    var err := 2 * (num - r * den);
    (-den < err < den) || ((err == den || err == -den) && r % 2 == 0)
  }

  /** Round-half-to-even of the fraction num / den, in integers. */
  function RoundHalfEven(num: nat, den: nat): (r: nat)
    requires den > 0
    ensures NearestHalfEven(r, num, den)
  {
    var q, m := num / den, num % den;
    assert num == q * den + m && (q + 1) * den == q * den + den;
    if 2 * m < den then q
    else if 2 * m > den then q + 1
    else if q % 2 == 0 then q
    else q + 1
  }

  /** There is only one nearest-half-even integer, so `RoundHalfEven` is the
      rounding and not one of several candidates. */
  lemma NearestHalfEvenUnique(r1: int, r2: int, num: int, den: int)
    requires den > 0
    requires NearestHalfEven(r1, num, den) && NearestHalfEven(r2, num, den)
    ensures r1 == r2
  {
    // Neighbours at distance one cannot both be even; farther ones are more
    // than `den` apart once doubled.
    MulStep(r1, r2, den);
    MulStep(r2, r1, den);
    MulStep(r1 + 1, r2, den);
    MulStep(r2 + 1, r1, den);
  }

  /** A larger factor gives a product larger by at least one multiple of `den`. */
  lemma {:induction false} MulStep(lo: int, hi: int, den: int)
    requires den > 0
    ensures lo < hi ==> hi * den >= lo * den + den
    decreases if lo < hi then hi - lo else 0
  {
    if lo < hi {
      assert hi * den == (hi - 1) * den + den;
      MulStep(lo, hi - 1, den);
    }
  }

  /** The chart's completion percentage: 0 for a chart without tasks, otherwise
      the share of done tasks in percent, rounded half to even. */
  function CompletionPercentage(tasks: seq<Task>): (pct: nat)
    ensures pct <= 100
    ensures |tasks| == 0 ==> pct == 0
    ensures |tasks| > 0 ==> NearestHalfEven(pct, 100 * CountDone(tasks), |tasks|)
  {
    if |tasks| == 0 then 0
    else
      var pct := RoundHalfEven(100 * CountDone(tasks), |tasks|);
      MulStep(100, pct, |tasks|);
      pct
  }

  /** All tasks done gives 100; none done gives 0. */
  lemma CompletionExtremes(tasks: seq<Task>)
    ensures (forall t | t in tasks :: t.status != Done.Key()) ==> CompletionPercentage(tasks) == 0
    ensures |tasks| > 0 && (forall t | t in tasks :: t.status == Done.Key()) ==> CompletionPercentage(tasks) == 100
  {
    if |tasks| > 0 && forall t | t in tasks :: t.status == Done.Key() {
      NearestHalfEvenUnique(CompletionPercentage(tasks), 100, 100 * |tasks|, |tasks|);
    }
    if forall t | t in tasks :: t.status != Done.Key() {
      if |tasks| > 0 {
        NearestHalfEvenUnique(CompletionPercentage(tasks), 0, 0, |tasks|);
      }
    }
  }

  /** Rounding half to even is monotonic in the numerator. */
  lemma RoundingMonotonic(r1: int, r2: int, num1: int, num2: int, den: int)
    requires den > 0 && num1 <= num2
    requires NearestHalfEven(r1, num1, den) && NearestHalfEven(r2, num2, den)
    ensures r1 <= r2
  {
    // A higher r1 would put num1 half a step below r1 and num2 half a step
    // above r2, with r1 == r2 + 1 and both even.
    MulStep(r2, r1, den);
    MulStep(r2 + 1, r1, den);
  }

  /** Marking more tasks done never lowers the percentage. */
  lemma CompletionMonotonic(a: seq<Task>, b: seq<Task>)
    requires |a| == |b| && CountDone(a) <= CountDone(b)
    ensures CompletionPercentage(a) <= CompletionPercentage(b)
  {
    if |a| > 0 {
      RoundingMonotonic(CompletionPercentage(a), CompletionPercentage(b),
                        100 * CountDone(a), 100 * CountDone(b), |a|);
    }
  }

  /** Sample figures: 32 of 64 done is 50 %, 16 of 64
      is 25 %, and the tie 1 of 8 (12.5 %) rounds to the even 12. */
  lemma CompletionSamples(tasks: seq<Task>)
    ensures |tasks| == 64 && CountDone(tasks) == 32 ==> CompletionPercentage(tasks) == 50
    ensures |tasks| == 64 && CountDone(tasks) == 16 ==> CompletionPercentage(tasks) == 25
    ensures |tasks| == 8 && CountDone(tasks) == 1 ==> CompletionPercentage(tasks) == 12
    ensures |tasks| == 8 && CountDone(tasks) == 3 ==> CompletionPercentage(tasks) == 38
  {
  }
}
