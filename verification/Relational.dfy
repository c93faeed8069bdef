/** The slice of SQL the generated query uses: NULL-able cells, three-valued
    predicates, projections and latest-row lookups. */
module Relational {
  import opened Prelude
  import opened Sorting

  datatype Datum = Number(n: int) | Text(s: string) | Truth(b: bool)

  datatype Cell = Null | Val(d: Datum)

  /** A row by column name; a column the row lacks reads as NULL. */
  type Row = map<string, Cell>

  function At(r: Row, c: string): Cell {
    if c in r then r[c] else Null
  }

  /** A row of an outer join: the missing row is NULL in every column. */
  function OuterAt(r: Option<Row>, c: string): Cell {
    match r case None => Null case Some(row) => At(row, c)
  }

  /** The timestamp of a row whose timestamp column holds an integer. */
  function TimeOf(r: Row, ts: string): int {
    match At(r, ts) case Val(Number(n)) => n case _ => 0
  }

  ghost predicate Timed(rows: seq<Row>, ts: string) {
    forall r | r in rows :: At(r, ts).Val? && At(r, ts).d.Number?
  }

  function Project(r: Row, columns: set<string>): Row {
    map c | c in columns && c in r :: r[c]
  }

  // ----- predicates -----

  datatype Side = Lhs | Rhs

  /** A join predicate after name resolution. `qualified` records whether the column was
      written with its alias; `Call` stands for every other deterministic operator. */
  datatype Expr =
    | Column(side: Side, name: string, qualified: bool)
    | Literal(value: Cell)
    | Eq(l: Expr, r: Expr)
    | And(l: Expr, r: Expr)
    | Or(l: Expr, r: Expr)
    | Not(e: Expr)
    | IsNull(e: Expr)
    | Call(f: (Cell, Cell) -> Cell, l: Expr, r: Expr)

  const True := Val(Truth(true))
  const False := Val(Truth(false))

  function Equals(a: Cell, b: Cell): Cell {
    if a.Null? || b.Null? then Null else Val(Truth(a.d == b.d))
  }

  function Conjoin(a: Cell, b: Cell): Cell {
    if a == False || b == False then False
    else if a == True && b == True then True
    else Null
  }

  function Negate(a: Cell): Cell {
    if a == True then False else if a == False then True else Null
  }

  function Eval(e: Expr, l: Option<Row>, r: Option<Row>): Cell {
    match e
    case Column(side, name, _) => OuterAt(if side.Lhs? then l else r, name)
    case Literal(value) => value
    case Eq(a, b) => Equals(Eval(a, l, r), Eval(b, l, r))
    case And(a, b) => Conjoin(Eval(a, l, r), Eval(b, l, r))
    case Or(a, b) => Negate(Conjoin(Negate(Eval(a, l, r)), Negate(Eval(b, l, r))))
    case Not(a) => Negate(Eval(a, l, r))
    case IsNull(a) => Val(Truth(Eval(a, l, r).Null?))
    case Call(f, a, b) => f(Eval(a, l, r), Eval(b, l, r))
  }

  lemma EvalAnd(a: Expr, b: Expr, l: Option<Row>, r: Option<Row>)
    ensures Eval(And(a, b), l, r) == Conjoin(Eval(a, l, r), Eval(b, l, r))
  {
  }

  lemma EvalOr(a: Expr, b: Expr, l: Option<Row>, r: Option<Row>)
    ensures Eval(Or(a, b), l, r) == Negate(Conjoin(Negate(Eval(a, l, r)), Negate(Eval(b, l, r))))
  {
  }

  lemma EvalNot(a: Expr, l: Option<Row>, r: Option<Row>)
    ensures Eval(Not(a), l, r) == Negate(Eval(a, l, r)) && Eval(IsNull(a), l, r) == Val(Truth(Eval(a, l, r).Null?))
  {
  }

  lemma EvalEq(a: Expr, b: Expr, l: Option<Row>, r: Option<Row>)
    ensures Eval(Eq(a, b), l, r) == Equals(Eval(a, l, r), Eval(b, l, r))
  {
  }

  /** Three-valued logic: when each connective is true and when it is false; otherwise NULL. */
  lemma ConnectivesAreKleene(a: Expr, b: Expr, l: Option<Row>, r: Option<Row>)
    ensures var x, y := Eval(a, l, r), Eval(b, l, r);
      && (Eval(And(a, b), l, r) == True <==> x == True && y == True)
      && (Eval(And(a, b), l, r) == False <==> x == False || y == False)
      && (Eval(Or(a, b), l, r) == True <==> x == True || y == True)
      && (Eval(Or(a, b), l, r) == False <==> x == False && y == False)
      && (Eval(Not(a), l, r) == True <==> x == False) && (Eval(Not(a), l, r) == False <==> x == True)
      && (Eval(IsNull(a), l, r) == True <==> x == Null) && (Eval(IsNull(a), l, r) == False <==> x != Null)
      && (Eval(Eq(a, b), l, r) == True <==> x == y && x != Null)
      && (Eval(Eq(a, b), l, r) == False <==> x != y && x != Null && y != Null)
      && True != False && Null != True && Null != False
  {
    hide Eval;
    EvalAnd(a, b, l, r);
    EvalOr(a, b, l, r);
    EvalNot(a, l, r);
    EvalEq(a, b, l, r);
  }

  /** A join keeps a pair only when its predicate is true, not when it is NULL. */
  predicate Holds(p: Expr, l: Option<Row>, r: Row) {
    Eval(p, l, Some(r)) == True
  }

  /** `a IS DISTINCT FROM b`: two NULLs are alike. */
  predicate IsDistinct(a: Cell, b: Cell) {
    a != b
  }

  /** Every column an expression names is of one side. */
  predicate OneSided(e: Expr, side: Side) {
    match e
    case Column(s, _, _) => s == side
    case Literal(_) => true
    case Eq(a, b) => OneSided(a, side) && OneSided(b, side)
    case And(a, b) => OneSided(a, side) && OneSided(b, side)
    case Or(a, b) => OneSided(a, side) && OneSided(b, side)
    case Not(a) => OneSided(a, side)
    case IsNull(a) => OneSided(a, side)
    case Call(_, a, b) => OneSided(a, side) && OneSided(b, side)
  }

  /** An expression of one side sees no row of the other. */
  lemma {:induction false} EvalOneSided(e: Expr, side: Side, l: Option<Row>, r: Option<Row>)
    requires OneSided(e, side)
    ensures var own := if side.Lhs? then l else r; Eval(e, l, r) == Eval(e, own, own)
  {
    match e
    case Column(_, _, _) =>
    case Literal(_) =>
    case Eq(a, b) => EvalOneSided(a, side, l, r); EvalOneSided(b, side, l, r);
    case And(a, b) => EvalOneSided(a, side, l, r); EvalOneSided(b, side, l, r);
    case Or(a, b) => EvalOneSided(a, side, l, r); EvalOneSided(b, side, l, r);
    case Not(a) => EvalOneSided(a, side, l, r);
    case IsNull(a) => EvalOneSided(a, side, l, r);
    case Call(_, a, b) => EvalOneSided(a, side, l, r); EvalOneSided(b, side, l, r);
  }

  /** The left columns a textual search for the `lhs` alias finds in a predicate. */
  function LeftColumns(e: Expr): set<string> {
    match e
    case Column(side, name, qualified) => if side.Lhs? && qualified then {name} else {}
    case Literal(_) => {}
    case Eq(a, b) => LeftColumns(a) + LeftColumns(b)
    case And(a, b) => LeftColumns(a) + LeftColumns(b)
    case Or(a, b) => LeftColumns(a) + LeftColumns(b)
    case Not(a) => LeftColumns(a)
    case IsNull(a) => LeftColumns(a)
    case Call(_, a, b) => LeftColumns(a) + LeftColumns(b)
  }

  predicate LeftQualified(e: Expr) {
    match e
    case Column(side, _, qualified) => side.Lhs? ==> qualified
    case Literal(_) => true
    case Eq(a, b) => LeftQualified(a) && LeftQualified(b)
    case And(a, b) => LeftQualified(a) && LeftQualified(b)
    case Or(a, b) => LeftQualified(a) && LeftQualified(b)
    case Not(a) => LeftQualified(a)
    case IsNull(a) => LeftQualified(a)
    case Call(_, a, b) => LeftQualified(a) && LeftQualified(b)
  }

  /** A predicate sees no difference between a left row and its projection onto any
      columns that include the ones it names. */
  lemma {:induction false} EvalOfProjection(e: Expr, l: Row, columns: set<string>, r: Option<Row>)
    requires LeftQualified(e) && LeftColumns(e) <= columns
    ensures Eval(e, Some(Project(l, columns)), r) == Eval(e, Some(l), r)
  {
    match e
    case Column(_, _, _) =>
    case Literal(_) =>
    case Eq(a, b) => EvalOfProjection(a, l, columns, r); EvalOfProjection(b, l, columns, r);
    case And(a, b) => EvalOfProjection(a, l, columns, r); EvalOfProjection(b, l, columns, r);
    case Or(a, b) => EvalOfProjection(a, l, columns, r); EvalOfProjection(b, l, columns, r);
    case Not(a) => EvalOfProjection(a, l, columns, r);
    case IsNull(a) => EvalOfProjection(a, l, columns, r);
    case Call(_, a, b) => EvalOfProjection(a, l, columns, r); EvalOfProjection(b, l, columns, r);
  }

  // ----- the latest matching row -----

  /** `row` is a latest row among the `matches` no later than `t`, None if there is none. */
  ghost predicate Latest(rows: seq<Row>, matches: Row -> bool, ts: string, t: int, row: Option<Row>) {
    && (row.Some? ==> row.value in rows && matches(row.value) && TimeOf(row.value, ts) <= t)
    && (forall x | x in rows && matches(x) && TimeOf(x, ts) <= t ::
          row.Some? && TimeOf(x, ts) <= TimeOf(row.value, ts))
  }

  ghost predicate UniqueTimes(rows: seq<Row>, matches: Row -> bool, ts: string) {
    forall a, b | a in rows && b in rows && matches(a) && matches(b) && TimeOf(a, ts) == TimeOf(b, ts) :: a == b
  }

  lemma LatestUnique(rows: seq<Row>, m1: Row -> bool, m2: Row -> bool, ts: string, t: int,
                     a: Option<Row>, b: Option<Row>)
    requires forall x | x in rows :: m1(x) == m2(x)
    requires UniqueTimes(rows, m1, ts)
    requires Latest(rows, m1, ts, t, a) && Latest(rows, m2, ts, t, b)
    ensures a == b
  {
  }

  /** `ORDER BY ts DESC LIMIT 1` over the matching rows no later than `t`. */
  function TopByTime(rows: seq<Row>, matches: Row -> bool, ts: string, t: int): Option<Row> {
    var sorted := Sort(Filter(rows, (x: Row) => matches(x) && TimeOf(x, ts) <= t),
                       (a: Row, b: Row) => TimeOf(a, ts) >= TimeOf(b, ts));
    if sorted == [] then None else Some(sorted[0])
  }

  lemma TopByTimeIsLatest(rows: seq<Row>, matches: Row -> bool, ts: string, t: int)
    ensures Latest(rows, matches, ts, t, TopByTime(rows, matches, ts, t))
  {
    var kept := Filter(rows, (x: Row) => matches(x) && TimeOf(x, ts) <= t);
    var desc := (a: Row, b: Row) => TimeOf(a, ts) >= TimeOf(b, ts);
    SortCorrect(kept, desc);
    var sorted := Sort(kept, desc);
    forall x | x in rows && matches(x) && TimeOf(x, ts) <= t
      ensures sorted != [] && TimeOf(x, ts) <= TimeOf(sorted[0], ts)
    {
      assert x in kept;
      assert x in sorted;
      var i :| 0 <= i < |sorted| && sorted[i] == x;
      if i > 0 { assert desc(sorted[0], sorted[i]); }
    }
    if sorted != [] { assert sorted[0] in sorted; }
  }

  // ----- ASOF JOIN -----

  /** One pass over both inputs in time order, remembering the last build row of every
      partition. A NULL partition key neither enters a partition nor finds one. */
  function Sweep<P>(build: seq<Row>, ts: string, partition: Row -> Option<seq<Datum>>,
                    probes: seq<P>, time: P -> int, key: P -> Option<seq<Datum>>,
                    last: map<seq<Datum>, Row>): seq<(P, Option<Row>)>
    decreases |build| + |probes|
  {
    if probes == [] then []
    else if build != [] && TimeOf(build[0], ts) <= time(probes[0]) then
      var k := partition(build[0]);
      Sweep(build[1..], ts, partition, probes, time, key, if k.Some? then last[k.value := build[0]] else last)
    else
      var k := key(probes[0]);
      [(probes[0], if k.Some? && k.value in last then Some(last[k.value]) else None)]
      + Sweep(build, ts, partition, probes[1..], time, key, last)
  }

  /** A build row matches a probe when both have the same, non-NULL partition key. */
  function InPartition(k: Option<seq<Datum>>, partition: Row -> Option<seq<Datum>>): Row -> bool {
    (x: Row) => k.Some? && partition(x) == k
  }

  /** `last` is the sweep's memory after passing the rows `past`. */
  ghost predicate Remembers(last: map<seq<Datum>, Row>, past: seq<Row>, ts: string,
                            partition: Row -> Option<seq<Datum>>) {
    && (forall k | k in last :: last[k] in past && partition(last[k]) == Some(k))
    && (forall x | x in past && partition(x).Some? ::
          partition(x).value in last && TimeOf(x, ts) <= TimeOf(last[partition(x).value], ts))
  }

  ghost predicate NoneLater(past: seq<Row>, build: seq<Row>, ts: string) {
    forall x, y | x in past && y in build :: TimeOf(x, ts) <= TimeOf(y, ts)
  }

  ghost predicate Due<P>(past: seq<Row>, ts: string, probes: seq<P>, time: P -> int) {
    forall x, p | x in past && p in probes :: TimeOf(x, ts) <= time(p)
  }

  ghost predicate InTimeOrder<T>(s: seq<T>, time: T -> int) {
    forall i, j | 0 <= i < j < |s| :: time(s[i]) <= time(s[j])
  }

  lemma HeadIsFirst<T>(s: seq<T>, time: T -> int, x: T)
    requires InTimeOrder(s, time) && x in s
    ensures time(s[0]) <= time(x)
  {
    var i :| 0 <= i < |s| && s[i] == x;
  }

  /** What a probe finds in the sweep's memory once every later build row is too late. */
  lemma ProbeFindsLatest(past: seq<Row>, build: seq<Row>, ts: string, partition: Row -> Option<seq<Datum>>,
                         t: int, k: Option<seq<Datum>>, last: map<seq<Datum>, Row>)
    requires Remembers(last, past, ts, partition)
    requires forall x | x in past :: TimeOf(x, ts) <= t
    requires forall x | x in build :: t < TimeOf(x, ts)
    ensures Latest(past + build, InPartition(k, partition), ts, t,
                   if k.Some? && k.value in last then Some(last[k.value]) else None)
  {
  }

  /** Passing a build row keeps the memory right. */
  lemma RememberNext(past: seq<Row>, next: Row, build: seq<Row>, ts: string,
                     partition: Row -> Option<seq<Datum>>, last: map<seq<Datum>, Row>)
    requires Remembers(last, past, ts, partition)
    requires NoneLater(past, [next] + build, ts)
    ensures var k := partition(next);
      Remembers(if k.Some? then last[k.value := next] else last, past + [next], ts, partition)
  {
    assert next in [next] + build;
  }

  /** The sweep returns the latest matching row of every probe. */
  lemma {:induction false} SweepFindsLatest<P(!new)>(
      past: seq<Row>, build: seq<Row>, ts: string, partition: Row -> Option<seq<Datum>>,
      probes: seq<P>, time: P -> int, key: P -> Option<seq<Datum>>, last: map<seq<Datum>, Row>, i: nat)
    requires InTimeOrder(build, (x: Row) => TimeOf(x, ts)) && InTimeOrder(probes, time)
    requires NoneLater(past, build, ts) && Due(past, ts, probes, time)
    requires Remembers(last, past, ts, partition)
    requires i < |probes|
    ensures var out := Sweep(build, ts, partition, probes, time, key, last);
      && |out| == |probes|
      && out[i].0 == probes[i]
      && Latest(past + build, InPartition(key(probes[i]), partition), ts, time(probes[i]), out[i].1)
    decreases |build| + |probes|
  {
    hide Remembers, Latest, TimeOf;
    var stamp := (x: Row) => TimeOf(x, ts);
    if build != [] && TimeOf(build[0], ts) <= time(probes[0]) {
      var k := partition(build[0]);
      assert past + [build[0]] + build[1..] == past + build;
      assert build == [build[0]] + build[1..];
      RememberNext(past, build[0], build[1..], ts, partition, last);
      forall y | y in build[1..] ensures TimeOf(build[0], ts) <= TimeOf(y, ts) { HeadIsFirst(build, stamp, y); }
      forall p | p in probes ensures TimeOf(build[0], ts) <= time(p) { HeadIsFirst(probes, time, p); }
      SweepFindsLatest(past + [build[0]], build[1..], ts, partition, probes, time, key,
                       if k.Some? then last[k.value := build[0]] else last, i);
    } else if i == 0 {
      forall x | x in build ensures time(probes[0]) < TimeOf(x, ts) { HeadIsFirst(build, stamp, x); }
      ProbeFindsLatest(past, build, ts, partition, time(probes[0]), key(probes[0]), last);
      if |probes| > 1 { SweepFindsLatest(past, build, ts, partition, probes[1..], time, key, last, 0); }
    } else {
      SweepFindsLatest(past, build, ts, partition, probes[1..], time, key, last, i - 1);
    }
  }
}
