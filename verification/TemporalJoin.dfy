/** The query `@temporal_join` generates, clause by clause. */
module TemporalJoin {
  import opened Prelude
  import opened Sorting
  import opened Relational

  /** One call of the macro together with the two tables it reads. */
  datatype Query = Query(
    lhs: seq<Row>, rhs: seq<Row>,
    lhsColumns: set<string>, rhsColumns: set<string>,
    lhsTs: string, rhsTs: string, key: string, on: Expr)

  datatype Tick = Tick(key: Cell, time: int)

  /** One row of the generated FROM clause: the aliases tck, lhs and rhs. */
  datatype Joined = Joined(tick: Tick, lhs: Option<Row>, rhs: Option<Row>)

  datatype Plan = Asof | Lateral

  datatype MacroError = TimestampNotQualified(argument: string) | KeyQualified | DialectNotDuckdb

  /** The argument checks and the choice of plan. */
  function ChoosePlan(lhsTsQualified: bool, rhsTsQualified: bool, keyQualified: bool,
                      gateway: string, dialect: string): Result<Plan, MacroError> {
    if !lhsTsQualified then Err(TimestampNotQualified("lhs_ts"))
    else if !rhsTsQualified then Err(TimestampNotQualified("rhs_ts"))
    else if keyQualified then Err(KeyQualified)
    else if gateway == "duckdb" && dialect != "duckdb" then Err(DialectNotDuckdb)
    else Ok(if gateway == "duckdb" then Asof else Lateral)
  }

  /** What the engine behind a gateway makes of a plan: ASOF JOIN is read as a join only by
      DuckDB, from a model that declares its grammar; the written-out lookups are what every
      other gateway's engine has. */
  predicate Accepts(gateway: string, dialect: string, plan: Plan) {
    match plan
    case Asof => gateway == "duckdb" && dialect == "duckdb"
    case Lateral => gateway != "duckdb"
  }

  /** A plan is chosen if and only if the arguments are well formed and the gateway has one,
      and it is then the only one that gateway's engine accepts. */
  lemma PlanChosenIff(lhsTsQualified: bool, rhsTsQualified: bool, keyQualified: bool, gateway: string, dialect: string)
    ensures var plan := ChoosePlan(lhsTsQualified, rhsTsQualified, keyQualified, gateway, dialect);
      && (plan.Ok? <==>
            lhsTsQualified && rhsTsQualified && !keyQualified && (gateway == "duckdb" ==> dialect == "duckdb"))
      && ((gateway == "duckdb" ==> dialect == "duckdb") <==> exists p :: Accepts(gateway, dialect, p))
      && (plan.Ok? ==> forall p :: Accepts(gateway, dialect, p) <==> p == plan.value)
      && (plan.Err? && !plan.error.DialectNotDuckdb? <==> !lhsTsQualified || !rhsTsQualified || keyQualified)
  {
    if gateway != "duckdb" { assert Accepts(gateway, dialect, Lateral); }
    if gateway == "duckdb" && dialect == "duckdb" { assert Accepts(gateway, dialect, Asof); }
  }

  // ----- the tick list -----

  function LeftTicks(q: Query): set<Tick> {
    set l | l in q.lhs :: Tick(At(l, q.key), TimeOf(l, q.lhsTs))
  }

  /** `SELECT DISTINCT` of the key and the left columns the predicate names. */
  function ReachablePairs(q: Query): set<Row> {
    set l | l in q.lhs :: Project(l, {q.key} + LeftColumns(q.on))
  }

  function RightTicks(q: Query): set<Tick> {
    set d, r | d in ReachablePairs(q) && r in q.rhs && Holds(q.on, Some(d), r) ::
      Tick(At(d, q.key), TimeOf(r, q.rhsTs))
  }

  function Ticks(q: Query): set<Tick> {
    LeftTicks(q) + RightTicks(q)
  }

  // ----- LEFT JOIN LATERAL ... ORDER BY ... LIMIT 1 -----

  function OfKey(q: Query, k: Cell): Row -> bool {
    (l: Row) => Equals(At(l, q.key), k) == True
  }

  function ReachedFrom(q: Query, l: Option<Row>): Row -> bool {
    (r: Row) => Holds(q.on, l, r)
  }

  function LateralRow(q: Query, k: Tick): Joined {
    var l := TopByTime(q.lhs, OfKey(q, k.key), q.lhsTs, k.time);
    Joined(k, l, TopByTime(q.rhs, ReachedFrom(q, l), q.rhsTs, k.time))
  }

  function LateralLookups(q: Query, ticks: set<Tick>): set<Joined> {
    set k | k in ticks :: LateralRow(q, k)
  }

  // ----- chained ASOF LEFT JOIN -----

  /** The equalities of a predicate made of equalities between an expression of each side,
      which is the form ASOF JOIN partitions on. */
  function JoinKeys(p: Expr): Option<seq<(Expr, Expr)>> {
    match p
    case Eq(a, b) =>
      if OneSided(a, Lhs) && OneSided(b, Rhs) then Some([(a, b)])
      else if OneSided(a, Rhs) && OneSided(b, Lhs) then Some([(b, a)])
      else None
    case And(x, y) =>
      var xs, ys := JoinKeys(x), JoinKeys(y);
      if xs.Some? && ys.Some? then Some(xs.value + ys.value) else None
    case _ => None
  }

  /** The partition a row belongs to by expressions of its side, none if any of them is NULL. */
  function Partition(r: Option<Row>, keys: seq<Expr>): Option<seq<Datum>> {
    if keys == [] then Some([])
    else
      var head, tail := Eval(keys[0], r, r), Partition(r, keys[1..]);
      if head.Val? && tail.Some? then Some([head.d] + tail.value) else None
  }

  function LeftKeys(pairs: seq<(Expr, Expr)>): seq<Expr> {
    seq(|pairs|, i requires 0 <= i < |pairs| => pairs[i].0)
  }

  function RightKeys(pairs: seq<(Expr, Expr)>): seq<Expr> {
    seq(|pairs|, i requires 0 <= i < |pairs| => pairs[i].1)
  }

  function KeyOf(q: Query): Expr {
    Column(Lhs, q.key, true)
  }

  function ByTime(rows: seq<Row>, ts: string): seq<Row> {
    Sort(rows, (a: Row, b: Row) => TimeOf(a, ts) <= TimeOf(b, ts))
  }

  /** A set listed in some order. */
  ghost function Listing<T(!new)>(s: set<T>): (r: seq<T>)
    ensures forall x :: x in r <==> x in s
  {
    if s == {} then [] else var x :| x in s; [x] + Listing(s - {x})
  }

  function TickPartition(k: Tick): Option<seq<Datum>> {
    if k.key.Val? then Some([k.key.d]) else None
  }

  /** The ticks in time order. */
  ghost function Probes(ticks: set<Tick>): seq<Tick> {
    Sort(Listing(ticks), (a: Tick, b: Tick) => a.time <= b.time)
  }

  ghost function AsofLeft(q: Query, ticks: set<Tick>): seq<(Tick, Option<Row>)> {
    Sweep(ByTime(q.lhs, q.lhsTs), q.lhsTs, (l: Row) => Partition(Some(l), [KeyOf(q)]),
          Probes(ticks), (k: Tick) => k.time, TickPartition, map[])
  }

  ghost function AsofBoth(q: Query, pairs: seq<(Expr, Expr)>, ticks: set<Tick>)
    : seq<((Tick, Option<Row>), Option<Row>)> {
    Sweep(ByTime(q.rhs, q.rhsTs), q.rhsTs, (r: Row) => Partition(Some(r), RightKeys(pairs)),
          AsofLeft(q, ticks), (p: (Tick, Option<Row>)) => p.0.time,
          (p: (Tick, Option<Row>)) => Partition(p.1, LeftKeys(pairs)), map[])
  }

  ghost function AsofLookups(q: Query, pairs: seq<(Expr, Expr)>, ticks: set<Tick>): set<Joined> {
    set p | p in AsofBoth(q, pairs, ticks) :: Joined(p.0.0, p.0.1, p.1)
  }

  // ----- the comparison with the tick before -----

  ghost function Lookups(q: Query, plan: Plan, ticks: set<Tick>): set<Joined>
    requires plan.Asof? ==> JoinKeys(q.on).Some?
  {
    if plan.Asof? then AsofLookups(q, JoinKeys(q.on).value, ticks) else LateralLookups(q, ticks)
  }

  /** `WHERE NOT lhs.ts IS NULL` runs before the window functions. */
  ghost function WithLeft(q: Query, joined: set<Joined>): set<Joined> {
    set o | o in joined && !OuterAt(o.lhs, q.lhsTs).Null?
  }

  /** `PARTITION BY key ORDER BY time`. */
  ghost function Window(rows: set<Joined>, k: Cell): seq<Joined> {
    Sort(Listing(set o | o in rows && o.tick.key == k), (a: Joined, b: Joined) => a.tick.time <= b.tick.time)
  }

  /** The row before `o` in its partition; LAG reads NULL where there is none. */
  ghost function Lag(window: seq<Joined>, o: Joined): Option<Joined> {
    if |window| < 2 then None
    else if window[1] == o then Some(window[0])
    else Lag(window[1..], o)
  }

  ghost predicate Changed(q: Query, previous: Option<Joined>, o: Joined) {
    || (previous.None? || OuterAt(previous.value.lhs, q.lhsTs).Null?)
    || (exists c | c in q.lhsColumns - {q.lhsTs} :: IsDistinct(OuterAt(o.lhs, c), OuterAt(previous.value.lhs, c)))
    || (exists c | c in q.rhsColumns - {q.rhsTs} :: IsDistinct(OuterAt(o.rhs, c), OuterAt(previous.value.rhs, c)))
  }

  /** A row survives if it differs from the row before it in its window. */
  ghost predicate Kept(q: Query, rows: set<Joined>, o: Joined) {
    o in rows && Changed(q, Lag(Window(rows, o.tick.key), o), o)
  }

  ghost function Changes(q: Query, plan: Plan): set<Tick>
    requires plan.Asof? ==> JoinKeys(q.on).Some?
  {
    var rows := WithLeft(q, Lookups(q, plan, Ticks(q)));
    set o {:trigger Kept(q, rows, o)} | o in rows && Kept(q, rows, o) :: o.tick
  }

  /** The rows the FROM clause yields: the lookups, run again over the surviving ticks. */
  ghost function Output(q: Query, plan: Plan): set<Joined>
    requires plan.Asof? ==> JoinKeys(q.on).Some?
  {
    Lookups(q, plan, Changes(q, plan))
  }
}
