/** What `@temporal_join` is for: the state in effect at every point in time, and the
    proofs that the generated query records exactly its changes. */
module History {
  import opened Prelude
  import opened Sorting
  import opened Relational
  import opened TemporalJoin

  // ----- what the sources promise -----

  /** Unique on (key, timestamp). */
  ghost predicate UniqueLeft(q: Query) {
    forall a, b | a in q.lhs && b in q.lhs && At(a, q.key).Val? && At(a, q.key) == At(b, q.key)
      && TimeOf(a, q.lhsTs) == TimeOf(b, q.lhsTs) :: a == b
  }

  /** No left row reaches two right rows of the same timestamp. */
  ghost predicate UniqueReach(q: Query) {
    forall l {:trigger ReachedFrom(q, Some(l))} | l in q.lhs :: UniqueTimes(q.rhs, ReachedFrom(q, Some(l)), q.rhsTs)
  }

  ghost predicate WellFormed(q: Query) {
    Timed(q.lhs, q.lhsTs) && Timed(q.rhs, q.rhsTs) && LeftQualified(q.on) && UniqueLeft(q) && UniqueReach(q)
  }

  /** Unique on (join columns, timestamp), as the documentation asks of the right table. */
  ghost predicate UniqueRight(q: Query, pairs: seq<(Expr, Expr)>) {
    forall a, b | a in q.rhs && b in q.rhs
      && Partition(Some(a), RightKeys(pairs)).Some?
      && Partition(Some(a), RightKeys(pairs)) == Partition(Some(b), RightKeys(pairs))
      && TimeOf(a, q.rhsTs) == TimeOf(b, q.rhsTs) :: a == b
  }

  // ----- the state in effect -----

  datatype State = State(lhs: Option<Row>, rhs: Option<Row>)

  /** The latest left row of item `k` by `t`, and the latest right row by `t` that this
      left row reaches; without a left row there is no right row either. */
  ghost predicate InEffect(q: Query, k: Datum, t: int, s: State) {
    && Latest(q.lhs, (l: Row) => At(l, q.key) == Val(k), q.lhsTs, t, s.lhs)
    && (if s.lhs.None? then s.rhs.None?
        else Latest(q.rhs, (r: Row) => Holds(q.on, s.lhs, r), q.rhsTs, t, s.rhs))
  }

  /** The state in effect, `H(k, t)`. */
  ghost function H(q: Query, k: Datum, t: int): (s: State)
    ensures InEffect(q, k, t, s)
  {
    StateExists(q, k, t);
    var s :| InEffect(q, k, t, s);
    s
  }

  lemma StateExists(q: Query, k: Datum, t: int)
    ensures exists s :: InEffect(q, k, t, s)
  {
    var ofKey := (l: Row) => At(l, q.key) == Val(k);
    TopByTimeIsLatest(q.lhs, ofKey, q.lhsTs, t);
    var l := TopByTime(q.lhs, ofKey, q.lhsTs, t);
    var reached := (r: Row) => Holds(q.on, l, r);
    TopByTimeIsLatest(q.rhs, reached, q.rhsTs, t);
    var r := TopByTime(q.rhs, reached, q.rhsTs, t);
    assert InEffect(q, k, t, State(l, if l.None? then None else r));
  }

  lemma StateUnique(q: Query, k: Datum, t: int, a: State, b: State)
    requires UniqueLeft(q) && UniqueReach(q)
    requires InEffect(q, k, t, a) && InEffect(q, k, t, b)
    ensures a == b
  {
    var ofKey := (l: Row) => At(l, q.key) == Val(k);
    LatestUnique(q.lhs, ofKey, ofKey, q.lhsTs, t, a.lhs, b.lhs);
    if a.lhs.Some? {
      var reached := (r: Row) => Holds(q.on, a.lhs, r);
      LatestUnique(q.rhs, ReachedFrom(q, a.lhs), reached, q.rhsTs, t, a.rhs, b.rhs);
    }
  }

  /** The value columns of a state, every column of both sources but the timestamps. */
  ghost function Values(q: Query, s: State): (map<string, Cell>, map<string, Cell>) {
    (map c | c in q.lhsColumns - {q.lhsTs} :: OuterAt(s.lhs, c),
     map c | c in q.rhsColumns - {q.rhsTs} :: OuterAt(s.rhs, c))
  }

  /** Two states agree on every value column. */
  ghost predicate Alike(q: Query, a: State, b: State) {
    Values(q, a) == Values(q, b)
  }

  /** The states of an item over time. */
  ghost function Timeline(q: Query, k: Datum): int -> State {
    t => H(q, k, t)
  }

  /** At `t` the item appears or takes other values than the instant before. */
  ghost predicate ChangesAt(q: Query, h: int -> State, t: int) {
    h(t).lhs.Some? && (h(t - 1).lhs.Some? ==> !Alike(q, h(t - 1), h(t)))
  }

  // ----- the tick list is sound and complete -----

  /** Joining the distinct pairs of key and join columns reaches the same ticks as joining
      every version row. */
  lemma ProjectionSound(q: Query)
    requires LeftQualified(q.on)
    ensures RightTicks(q) == set l, r | l in q.lhs && r in q.rhs && Holds(q.on, Some(l), r) ::
                               Tick(At(l, q.key), TimeOf(r, q.rhsTs))
  {
    var columns := {q.key} + LeftColumns(q.on);
    forall l, r | l in q.lhs && r in q.rhs
      ensures Holds(q.on, Some(Project(l, columns)), r) == Holds(q.on, Some(l), r)
      ensures At(Project(l, columns), q.key) == At(l, q.key)
    {
      EvalOfProjection(q.on, l, columns, Some(r));
    }
    var all := set l, r | l in q.lhs && r in q.rhs && Holds(q.on, Some(l), r) :: Tick(At(l, q.key), TimeOf(r, q.rhsTs));
    forall k ensures k in RightTicks(q) <==> k in all {
      if k in RightTicks(q) {
        var d, r :| d in ReachablePairs(q) && r in q.rhs && Holds(q.on, Some(d), r)
          && k == Tick(At(d, q.key), TimeOf(r, q.rhsTs));
        var l :| l in q.lhs && d == Project(l, columns);
        assert Holds(q.on, Some(l), r);
      }
      if k in all {
        var l, r :| l in q.lhs && r in q.rhs && Holds(q.on, Some(l), r) && k == Tick(At(l, q.key), TimeOf(r, q.rhsTs));
        assert Project(l, columns) in ReachablePairs(q);
      }
    }
  }

  /** Without a tick of `k` in (u, t] the state in effect at `t` is the one at `u`. */
  lemma StableBetweenTicks(q: Query, k: Datum, u: int, t: int)
    requires WellFormed(q) && u <= t
    requires forall v | u < v <= t :: Tick(Val(k), v) !in Ticks(q)
    ensures H(q, k, t) == H(q, k, u)
  {
    var s := H(q, k, t);
    ProjectionSound(q);
    forall l | l in q.lhs && At(l, q.key) == Val(k) && TimeOf(l, q.lhsTs) <= t ensures TimeOf(l, q.lhsTs) <= u {
      assert Tick(Val(k), TimeOf(l, q.lhsTs)) in LeftTicks(q);
    }
    if s.lhs.Some? {
      forall r | r in q.rhs && Holds(q.on, s.lhs, r) && TimeOf(r, q.rhsTs) <= t ensures TimeOf(r, q.rhsTs) <= u {
        assert Tick(Val(k), TimeOf(r, q.rhsTs)) in RightTicks(q);
      }
    }
    assert InEffect(q, k, u, s);
    StateUnique(q, k, u, s, H(q, k, u));
  }

  // ----- the lookups return the state in effect -----

  /** The lateral lookups at a tick of an item with a left row return the state in effect. */
  lemma LateralIsState(q: Query, k: Datum, t: int)
    requires WellFormed(q)
    ensures LateralRow(q, Tick(Val(k), t)).lhs == H(q, k, t).lhs
    ensures H(q, k, t).lhs.Some? ==> LateralRow(q, Tick(Val(k), t)).rhs == H(q, k, t).rhs
    ensures OuterAt(LateralRow(q, Tick(Val(k), t)).lhs, q.lhsTs).Null? <==> H(q, k, t).lhs.None?
  {
    var o := LateralRow(q, Tick(Val(k), t));
    var s := H(q, k, t);
    TopByTimeIsLatest(q.lhs, OfKey(q, Val(k)), q.lhsTs, t);
    var ofKey := (l: Row) => At(l, q.key) == Val(k);
    LatestUnique(q.lhs, ofKey, OfKey(q, Val(k)), q.lhsTs, t, s.lhs, o.lhs);
    TopByTimeIsLatest(q.rhs, ReachedFrom(q, o.lhs), q.rhsTs, t);
    if o.lhs.Some? {
      LatestUnique(q.rhs, ReachedFrom(q, o.lhs), (r: Row) => Holds(q.on, s.lhs, r), q.rhsTs, t, o.rhs, s.rhs);
    }
  }

  /** A NULL key finds no left row. */
  lemma NullKeyFindsNothing(q: Query, t: int)
    ensures LateralRow(q, Tick(Null, t)).lhs == None
  {
    TopByTimeIsLatest(q.lhs, OfKey(q, Null), q.lhsTs, t);
  }

  // ----- the window over the ticks -----

  ghost function Spine(q: Query): set<Joined> {
    WithLeft(q, LateralLookups(q, Ticks(q)))
  }

  /** The rows compared are the ticks at which the item exists, with the state in effect. */
  lemma SpineIsStates(q: Query, o: Joined)
    requires WellFormed(q)
    ensures o in Spine(q) <==>
      (o.tick in Ticks(q) && o.tick.key.Val?
       && State(o.lhs, o.rhs) == H(q, o.tick.key.d, o.tick.time) && o.lhs.Some?)
  {
    if o.tick.key.Val? { LateralIsState(q, o.tick.key.d, o.tick.time); } else { NullKeyFindsNothing(q, o.tick.time); }
    if o in Spine(q) {
      assert o == LateralRow(q, o.tick);
    }
    if o.tick in Ticks(q) { assert LateralRow(q, o.tick) in LateralLookups(q, Ticks(q)); }
  }

  ghost predicate OnePerTick(rows: set<Joined>) {
    forall a, b | a in rows && b in rows && a.tick == b.tick :: a == b
  }

  ghost predicate IsPrevious(rows: set<Joined>, o: Joined, p: Option<Joined>) {
    && (p.Some? ==> p.value in rows && p.value.tick.key == o.tick.key && p.value.tick.time < o.tick.time)
    && (forall x | x in rows && x.tick.key == o.tick.key && x.tick.time < o.tick.time ::
          p.Some? && x.tick.time <= p.value.tick.time)
  }

  lemma {:induction false} LagInOrder(window: seq<Joined>, o: Joined, i: nat)
    requires i < |window| && window[i] == o
    requires forall a, b | 0 <= a < b < |window| :: window[a].tick.time < window[b].tick.time
    ensures Lag(window, o) == if i == 0 then None else Some(window[i - 1])
  {
    if |window| >= 2 {
      if i == 0 {
        LagOfEarlier(window, o);
      } else if i > 1 {
        LagInOrder(window[1..], o, i - 1);
      }
    }
  }

  lemma {:induction false} LagOfEarlier(window: seq<Joined>, o: Joined)
    requires forall a | 1 <= a < |window| :: o.tick.time < window[a].tick.time
    ensures Lag(window, o) == None
  {
    if |window| >= 2 { LagOfEarlier(window[1..], o); }
  }

  /** Listing a set repeats nothing. */
  lemma {:induction false} ListingCounts<T(!new)>(s: set<T>)
    ensures multiset(Listing(s)) == multiset(s)
  {
    if s != {} {
      var r := Listing(s);
      var x := r[0];
      assert r == [x] + r[1..];
      assert r[1..] == Listing(s - {x});
      ListingCounts(s - {x});
      assert s == (s - {x}) + {x};
    }
  }

  /** The window of an item lists its rows by strictly increasing time. */
  lemma WindowInOrder(rows: set<Joined>, k: Cell)
    requires OnePerTick(rows)
    ensures forall x :: x in Window(rows, k) <==> x in rows && x.tick.key == k
    ensures forall a, b | 0 <= a < b < |Window(rows, k)| :: Window(rows, k)[a].tick.time < Window(rows, k)[b].tick.time
  {
    hide Sort, Listing;
    var part := set x | x in rows && x.tick.key == k;
    var leq := (a: Joined, b: Joined) => a.tick.time <= b.tick.time;
    var w := Sort(Listing(part), leq);
    SortCorrect(Listing(part), leq);
    ListingCounts(part);
    DistinctCounts(w);
    forall a, b | 0 <= a < b < |w| ensures w[a].tick.time < w[b].tick.time {
      assert leq(w[a], w[b]);
      assert w[a] in part && w[b] in part && w[a] != w[b];
    }
  }

  /** LAG over the window finds the item's previous tick. */
  lemma LagIsPrevious(rows: set<Joined>, o: Joined)
    requires OnePerTick(rows) && o in rows
    ensures IsPrevious(rows, o, Lag(Window(rows, o.tick.key), o))
  {
    WindowInOrder(rows, o.tick.key);
    PreviousInWindow(rows, Window(rows, o.tick.key), o);
  }

  lemma PreviousInWindow(rows: set<Joined>, w: seq<Joined>, o: Joined)
    requires o in rows
    requires forall x :: x in w <==> x in rows && x.tick.key == o.tick.key
    requires forall a, b | 0 <= a < b < |w| :: w[a].tick.time < w[b].tick.time
    ensures IsPrevious(rows, o, Lag(w, o))
  {
    var i :| 0 <= i < |w| && w[i] == o;
    LagInOrder(w, o, i);
    forall x | x in rows && x.tick.key == o.tick.key && x.tick.time < o.tick.time
      ensures i > 0 && x.tick.time <= w[i - 1].tick.time
    {
      var j :| 0 <= j < |w| && w[j] == x;
      assert j < i;
    }
    if i > 0 { assert w[i - 1] in w; }
  }

  /** The comparison of every value column is the comparison of the value maps. */
  lemma ChangedIsValues(q: Query, previous: Joined, o: Joined)
    requires !OuterAt(previous.lhs, q.lhsTs).Null?
    ensures Changed(q, Some(previous), o)
       <==> !Alike(q, State(o.lhs, o.rhs), State(previous.lhs, previous.rhs))
  {
    var a, b := Values(q, State(o.lhs, o.rhs)), Values(q, State(previous.lhs, previous.rhs));
    if a.0 == b.0 {
      forall c | c in q.lhsColumns - {q.lhsTs} ensures OuterAt(o.lhs, c) == OuterAt(previous.lhs, c) {
        assert a.0[c] == b.0[c];
      }
    }
    if a.1 == b.1 {
      forall c | c in q.rhsColumns - {q.rhsTs} ensures OuterAt(o.rhs, c) == OuterAt(previous.rhs, c) {
        assert a.1[c] == b.1[c];
      }
    }
  }

  // ----- the output -----

  ghost function LateralOutput(q: Query): set<Joined> {
    Output(q, Lateral)
  }

  lemma OutputIsKept(q: Query, o: Joined)
    requires WellFormed(q)
    ensures o in LateralOutput(q) <==> Kept(q, Spine(q), o)
  {
    LookupOfTick(q, Changes(q, Lateral), o);
    forall x | x in Spine(q) ensures x == LateralRow(q, x.tick) { LookupOfTick(q, Ticks(q), x); }
    SurvivingTicks(q, o.tick);
  }

  lemma LookupOfTick(q: Query, ticks: set<Tick>, o: Joined)
    ensures o in LateralLookups(q, ticks) <==> o.tick in ticks && o == LateralRow(q, o.tick)
  {
  }

  lemma SurvivingTicks(q: Query, k: Tick)
    ensures k in Changes(q, Lateral) <==> exists o :: Kept(q, Spine(q), o) && o.tick == k
  {
    if k in Changes(q, Lateral) {
      var o :| Kept(q, Spine(q), o) && o.tick == k;
    }
  }

  ghost predicate IsLast(rows: set<Joined>, k: Datum, t: int, o: Joined) {
    && o in rows && o.tick.key == Val(k) && o.tick.time <= t
    && forall x | x in rows && x.tick.key == Val(k) && x.tick.time <= t :: x.tick.time <= o.tick.time
  }

  /** Rows as WHERE leaves them to the window: one per tick, each with a left row. */
  ghost predicate Comparable(q: Query, rows: set<Joined>) {
    OnePerTick(rows) && forall o | o in rows :: !OuterAt(o.lhs, q.lhsTs).Null?
  }

  lemma SpineComparable(q: Query)
    requires WellFormed(q)
    ensures Comparable(q, Spine(q))
  {
  }

  /** Compression carries every compared row's values forward: they are those of the last
      kept row of the item. */
  lemma {:induction false} CompressionCarries(q: Query, rows: set<Joined>, u: Joined) returns (o: Joined)
    requires Comparable(q, rows) && u in rows
    ensures Kept(q, rows, o) && o.tick.key == u.tick.key && o.tick.time <= u.tick.time
    ensures forall x | Kept(q, rows, x) && x.tick.key == u.tick.key && x.tick.time <= u.tick.time ::
      x.tick.time <= o.tick.time
    ensures Alike(q, State(o.lhs, o.rhs), State(u.lhs, u.rhs))
    decreases set x | x in rows && x.tick.time < u.tick.time
  {
    LagIsPrevious(rows, u);
    var previous := Lag(Window(rows, u.tick.key), u);
    if Changed(q, previous, u) {
      o := u;
    } else {
      var p := previous.value;
      ChangedIsValues(q, p, u);
      EarlierShrinks(rows, p, u);
      o := CompressionCarries(q, rows, p);
      forall x | Kept(q, rows, x) && x.tick.key == u.tick.key && x.tick.time <= u.tick.time
        ensures x.tick.time <= o.tick.time
      {
        if x.tick.time == u.tick.time { }
      }
    }
  }

  lemma EarlierShrinks(rows: set<Joined>, p: Joined, u: Joined)
    requires p in rows && p.tick.time < u.tick.time
    ensures (set x | x in rows && x.tick.time < p.tick.time) < (set x | x in rows && x.tick.time < u.tick.time)
  {
    var before, until := set x | x in rows && x.tick.time < p.tick.time, set x | x in rows && x.tick.time < u.tick.time;
    assert before <= until && p in until && p !in before;
  }

  lemma GreatestTick(q: Query, k: Datum, v: int, t: int) returns (u: int)
    requires v <= t && Tick(Val(k), v) in Ticks(q)
    ensures v <= u <= t && Tick(Val(k), u) in Ticks(q)
    ensures forall w | u < w <= t :: Tick(Val(k), w) !in Ticks(q)
    decreases t - v
  {
    if w :| v < w <= t && Tick(Val(k), w) in Ticks(q) {
      u := GreatestTick(q, k, w, t);
    } else {
      u := v;
    }
  }

  /** The latest tick of an item that exists at `t`, with the state in effect at `t`. */
  lemma LastTick(q: Query, k: Datum, t: int) returns (o: Joined)
    requires WellFormed(q) && H(q, k, t).lhs.Some?
    ensures IsLast(Spine(q), k, t, o)
    ensures State(o.lhs, o.rhs) == H(q, k, t)
  {
    var s := H(q, k, t);
    assert Tick(Val(k), TimeOf(s.lhs.value, q.lhsTs)) in LeftTicks(q);
    var u := GreatestTick(q, k, TimeOf(s.lhs.value, q.lhsTs), t);
    StableBetweenTicks(q, k, u, t);
    o := Joined(Tick(Val(k), u), s.lhs, s.rhs);
    SpineIsStates(q, o);
    forall x | x in Spine(q) && x.tick.key == Val(k) && x.tick.time <= t ensures x.tick.time <= u {
      SpineIsStates(q, x);
    }
  }

  /** Pointwise correctness: by `t` the output of an item ends with a row that carries the
      value columns of the state in effect at `t`, or holds nothing if there is none. */
  lemma PointwiseCorrect(q: Query, k: Datum, t: int)
    requires WellFormed(q)
    ensures H(q, k, t).lhs.Some? ==>
      exists o :: IsLast(LateralOutput(q), k, t, o) && Alike(q, State(o.lhs, o.rhs), H(q, k, t))
    ensures H(q, k, t).lhs.None? ==>
      forall o | o in LateralOutput(q) && o.tick.key == Val(k) :: t < o.tick.time
  {
    if H(q, k, t).lhs.Some? {
      var u := LastTick(q, k, t);
      SpineComparable(q);
      var o := CompressionCarries(q, Spine(q), u);
      OutputIsKept(q, o);
      forall x | x in LateralOutput(q) && x.tick.key == Val(k) && x.tick.time <= t ensures x.tick.time <= o.tick.time {
        OutputIsKept(q, x);
      }
      assert IsLast(LateralOutput(q), k, t, o);
    } else {
      forall o | o in LateralOutput(q) && o.tick.key == Val(k) ensures t < o.tick.time {
        OutputIsKept(q, o);
        SpineIsStates(q, o);
      }
    }
  }

  /** Every output row is an item's state in effect at its tick, and no item is NULL. */
  lemma OutputIsStates(q: Query, o: Joined)
    requires WellFormed(q)
    ensures o in LateralOutput(q) ==>
      && o.tick in Ticks(q) && o.tick.key.Val? && o.lhs.Some?
      && State(o.lhs, o.rhs) == H(q, o.tick.key.d, o.tick.time)
  {
    OutputIsKept(q, o);
    SpineIsStates(q, o);
  }

  /** The instant before an output row the item did not exist or had other values. */
  lemma OutputIsAChange(q: Query, k: Datum, o: Joined)
    requires WellFormed(q) && o.tick.key == Val(k)
    ensures o in LateralOutput(q) ==>
      ChangesAt(q, Timeline(q, k), o.tick.time) && H(q, k, o.tick.time) == State(o.lhs, o.rhs)
  {
    if o in LateralOutput(q) {
      OutputIsStates(q, o);
      OutputIsKept(q, o);
      var s := H(q, k, o.tick.time - 1);
      if s.lhs.Some? {
        var u := LastTick(q, k, o.tick.time - 1);
        SpineComparable(q);
        KeptDiffersFromLast(q, Spine(q), k, o, u);
        assert Alike(q, s, State(u.lhs, u.rhs));
      }
    }
  }

  lemma KeptDiffersFromLast(q: Query, rows: set<Joined>, k: Datum, o: Joined, u: Joined)
    requires Comparable(q, rows) && Kept(q, rows, o) && o.tick.key == Val(k)
    requires IsLast(rows, k, o.tick.time - 1, u)
    ensures !Alike(q, State(u.lhs, u.rhs), State(o.lhs, o.rhs))
  {
    LagIsPrevious(rows, o);
    var p := Lag(Window(rows, o.tick.key), o).value;
    assert p.tick == u.tick;
    ChangedIsValues(q, p, o);
  }

  /** The values of `s` are those in effect at `t`. */
  ghost predicate CarriedTo(q: Query, h: int -> State, t: int, s: State) {
    h(t).lhs.Some? && Alike(q, s, h(t))
  }

  /** The last output row by `t` carries the values in effect at `t`. */
  lemma LastOutputCarries(q: Query, k: Datum, t: int, a: Joined)
    requires WellFormed(q)
    ensures IsLast(LateralOutput(q), k, t, a) ==> CarriedTo(q, Timeline(q, k), t, State(a.lhs, a.rhs))
  {
    if IsLast(LateralOutput(q), k, t, a) {
      PointwiseCorrect(q, k, t);
      var o :| IsLast(LateralOutput(q), k, t, o) && Alike(q, State(o.lhs, o.rhs), H(q, k, t));
      assert o.tick == a.tick;
      LookupOfTick(q, Changes(q, Lateral), o);
      LookupOfTick(q, Changes(q, Lateral), a);
    }
  }

  /** Consecutive output rows of an item always differ in some value column. */
  lemma ConsecutiveRowsDiffer(q: Query, k: Datum, a: Joined, b: Joined)
    requires WellFormed(q) && b.tick.key == Val(k)
    ensures b in LateralOutput(q) && IsLast(LateralOutput(q), k, b.tick.time - 1, a) ==>
      !Alike(q, State(a.lhs, a.rhs), State(b.lhs, b.rhs))
  {
    hide WellFormed, LateralOutput, H, IsLast;
    if b in LateralOutput(q) && IsLast(LateralOutput(q), k, b.tick.time - 1, a) {
      LastOutputCarries(q, k, b.tick.time - 1, a);
      OutputIsAChange(q, k, b);
      OlderStateDiffers(q, Timeline(q, k), b.tick.time, State(a.lhs, a.rhs), State(b.lhs, b.rhs));
    }
  }

  lemma OlderStateDiffers(q: Query, h: int -> State, t: int, older: State, s: State)
    requires ChangesAt(q, h, t) && CarriedTo(q, h, t - 1, older) && s == h(t)
    ensures !Alike(q, older, s)
  {
  }

  // ----- no smaller history says the same -----

  ghost predicate IsLastSample(samples: set<int>, t: int, s: int) {
    s in samples && s <= t && forall x | x in samples && x <= t :: x <= s
  }

  /** Carrying the sampled states of a timeline forward reproduces its values at `t`. */
  ghost predicate Reproduces(q: Query, h: int -> State, samples: set<int>, t: int) {
    if h(t).lhs.None? then forall s | s in samples :: t < s
    else exists s :: IsLastSample(samples, t, s) && Alike(q, h(s), h(t))
  }

  lemma ChangesAreSampled(q: Query, h: int -> State, samples: set<int>, t: int)
    requires Reproduces(q, h, samples, t) && Reproduces(q, h, samples, t - 1)
    requires ChangesAt(q, h, t)
    ensures t in samples
  {
    var s :| IsLastSample(samples, t, s) && Alike(q, h(s), h(t));
    if h(t - 1).lhs.Some? {
      var s' :| IsLastSample(samples, t - 1, s') && Alike(q, h(s'), h(t - 1));
      assert s != t ==> s == s';
    }
  }

  /** Minimality: any samples of an item that reproduce its values at all times include
      every output row, a return to an earlier state among them. */
  lemma SamplesIncludeOutput(q: Query, k: Datum, samples: set<int>, o: Joined)
    requires WellFormed(q) && o.tick.key == Val(k)
    requires forall t :: Reproduces(q, Timeline(q, k), samples, t)
    ensures o in LateralOutput(q) ==> o.tick.time in samples
  {
    hide LateralOutput;
    if o in LateralOutput(q) {
      OutputIsAChange(q, k, o);
      ChangesAreSampled(q, Timeline(q, k), samples, o.tick.time);
    }
  }

  /** And the output rows themselves are such samples, so they are the least ones. */
  lemma OutputReproduces(q: Query, k: Datum, t: int)
    requires WellFormed(q)
    ensures Reproduces(q, Timeline(q, k), set o | o in LateralOutput(q) && o.tick.key == Val(k) :: o.tick.time, t)
  {
    hide WellFormed, LateralOutput, Alike;
    var samples := set o | o in LateralOutput(q) && o.tick.key == Val(k) :: o.tick.time;
    PointwiseCorrect(q, k, t);
    if H(q, k, t).lhs.Some? {
      var o :| IsLast(LateralOutput(q), k, t, o) && Alike(q, State(o.lhs, o.rhs), H(q, k, t));
      OutputIsStates(q, o);
      assert IsLastSample(samples, t, o.tick.time);
    }
  }

  // ----- the two plans mean the same -----

  ghost predicate MatchesPartition(p: Expr, l: Option<Row>, r: Row)
    requires JoinKeys(p).Some?
  {
    var pairs := JoinKeys(p).value;
    var left, right := Partition(l, LeftKeys(pairs)), Partition(Some(r), RightKeys(pairs));
    left.Some? && right == left
  }

  /** For an equality predicate, a right row matches exactly when its partition is the
      left row's; NULL join columns match nothing on either side. */
  lemma {:induction false} HoldsIsSamePartition(p: Expr, l: Option<Row>, r: Row)
    requires JoinKeys(p).Some?
    ensures Holds(p, l, r) <==> MatchesPartition(p, l, r)
  {
    match p
    case And(x, y) =>
      HoldsIsSamePartition(x, l, r);
      HoldsIsSamePartition(y, l, r);
      BothPartitions(x, y, l, r);
    case Eq(a, b) =>
      hide Partition, LeftKeys, RightKeys;
      if OneSided(a, Lhs) && OneSided(b, Rhs) {
        EqualKeys(a, b, l, r);
      } else {
        EqualKeys(b, a, l, r);
      }
  }

  /** One equality between expressions of the two sides, written either way round. */
  lemma EqualKeys(a: Expr, b: Expr, l: Option<Row>, r: Row)
    requires OneSided(a, Lhs) && OneSided(b, Rhs)
    ensures var left, right := Partition(l, LeftKeys([(a, b)])), Partition(Some(r), RightKeys([(a, b)]));
      && (Holds(Eq(a, b), l, r) <==> left.Some? && right == left)
      && (Holds(Eq(b, a), l, r) <==> left.Some? && right == left)
  {
    hide Partition, OneSided;
    SingleKeys(l, r, a, b);
    EvalOneSided(a, Lhs, l, Some(r));
    EvalOneSided(b, Rhs, l, Some(r));
  }

  lemma KeysAppend(xs: seq<(Expr, Expr)>, ys: seq<(Expr, Expr)>)
    ensures LeftKeys(xs + ys) == LeftKeys(xs) + LeftKeys(ys)
    ensures RightKeys(xs + ys) == RightKeys(xs) + RightKeys(ys)
    ensures |LeftKeys(xs)| == |RightKeys(xs)|
  {
  }

  lemma BothPartitions(x: Expr, y: Expr, l: Option<Row>, r: Row)
    requires JoinKeys(x).Some? && JoinKeys(y).Some?
    ensures MatchesPartition(And(x, y), l, r) <==> MatchesPartition(x, l, r) && MatchesPartition(y, l, r)
  {
    hide Partition, LeftKeys, RightKeys;
    var xs, ys := JoinKeys(x).value, JoinKeys(y).value;
    KeysAppend(xs, ys);
    PartitionAppend(l, LeftKeys(xs), LeftKeys(ys));
    PartitionAppend(Some(r), RightKeys(xs), RightKeys(ys));
    SplitEqual(Partition(l, LeftKeys(xs)), Partition(l, LeftKeys(ys)),
               Partition(Some(r), RightKeys(xs)), Partition(Some(r), RightKeys(ys)));
  }

  /** Concatenations whose first parts are equally long are equal part by part. */
  lemma SplitEqual(a: Option<seq<Datum>>, b: Option<seq<Datum>>, c: Option<seq<Datum>>, d: Option<seq<Datum>>)
    requires a.Some? && c.Some? ==> |a.value| == |c.value|
    ensures a.Some? && b.Some? && c.Some? && d.Some? ==>
      (a.value + b.value == c.value + d.value <==> a == c && b == d)
  {
    if a.Some? && b.Some? && c.Some? && d.Some? && a.value + b.value == c.value + d.value {
      assert a.value == (a.value + b.value)[..|a.value|] && b.value == (a.value + b.value)[|a.value|..];
      assert c.value == (c.value + d.value)[..|c.value|] && d.value == (c.value + d.value)[|c.value|..];
    }
  }

  lemma SingleKeys(l: Option<Row>, r: Row, a: Expr, b: Expr)
    ensures LeftKeys([(a, b)]) == [a] && RightKeys([(a, b)]) == [b]
    ensures Partition(l, [a]).Some? && Partition(Some(r), [b]) == Partition(l, [a])
       <==> Equals(Eval(a, l, l), Eval(b, Some(r), Some(r))) == True
  {
    hide Eval;
    SingleKey(l, a);
    SingleKey(Some(r), b);
    var x, y := Eval(a, l, l), Eval(b, Some(r), Some(r));
    if x.Val? && y.Val? { assert [x.d] == [y.d] ==> [x.d][0] == [y.d][0]; }
  }

  lemma SingleKey(r: Option<Row>, e: Expr)
    ensures Partition(r, [e]) == if Eval(e, r, r).Val? then Some([Eval(e, r, r).d]) else None
  {
    hide Eval;
    assert Partition(r, [e][1..]) == Some([]);
    if Eval(e, r, r).Val? { assert [Eval(e, r, r).d] + [] == [Eval(e, r, r).d]; }
  }

  /** Concatenated key lists partition by both parts, whose lengths are fixed. */
  lemma {:induction false} PartitionAppend(r: Option<Row>, a: seq<Expr>, b: seq<Expr>)
    ensures Partition(r, a + b) ==
      if Partition(r, a).Some? && Partition(r, b).Some?
      then Some(Partition(r, a).value + Partition(r, b).value) else None
    ensures Partition(r, a).Some? ==> |Partition(r, a).value| == |a|
  {
    if a == [] {
      assert a + b == b;
      assert Partition(r, b).Some? ==> [] + Partition(r, b).value == Partition(r, b).value;
    } else {
      assert (a + b)[1..] == a[1..] + b;
      PartitionAppend(r, a[1..], b);
      if Eval(a[0], r, r).Val? && Partition(r, a[1..]).Some? && Partition(r, b).Some? {
        var d, x, y := Eval(a[0], r, r).d, Partition(r, a[1..]).value, Partition(r, b).value;
        assert [d] + (x + y) == ([d] + x) + y;
      }
    }
  }

  /** Uniqueness on (join columns, timestamp) makes every right lookup unambiguous. */
  lemma UniqueRightGivesUniqueReach(q: Query, pairs: seq<(Expr, Expr)>, l: Option<Row>)
    requires JoinKeys(q.on) == Some(pairs) && UniqueRight(q, pairs)
    ensures UniqueTimes(q.rhs, ReachedFrom(q, l), q.rhsTs)
  {
    forall a, b | a in q.rhs && b in q.rhs && ReachedFrom(q, l)(a) && ReachedFrom(q, l)(b)
      && TimeOf(a, q.rhsTs) == TimeOf(b, q.rhsTs) ensures a == b
    {
      HoldsIsSamePartition(q.on, l, a);
      HoldsIsSamePartition(q.on, l, b);
    }
  }

  lemma SortedByTime(rows: seq<Row>, ts: string)
    ensures InTimeOrder(ByTime(rows, ts), (x: Row) => TimeOf(x, ts))
    ensures forall x :: x in ByTime(rows, ts) <==> x in rows
  {
    var leq := (a: Row, b: Row) => TimeOf(a, ts) <= TimeOf(b, ts);
    SortCorrect(rows, leq);
    forall i, j | 0 <= i < j < |ByTime(rows, ts)|
      ensures TimeOf(ByTime(rows, ts)[i], ts) <= TimeOf(ByTime(rows, ts)[j], ts)
    {
      assert leq(ByTime(rows, ts)[i], ByTime(rows, ts)[j]);
    }
  }

  lemma ProbesInOrder(ticks: set<Tick>)
    ensures InTimeOrder(Probes(ticks), (k: Tick) => k.time)
    ensures forall k :: k in Probes(ticks) <==> k in ticks
  {
    var before := (a: Tick, b: Tick) => a.time <= b.time;
    SortCorrect(Listing(ticks), before);
    var probes := Probes(ticks);
    forall i, j | 0 <= i < j < |probes| ensures probes[i].time <= probes[j].time {
      assert before(probes[i], probes[j]);
    }
  }

  lemma AsofLeftLength(q: Query, ticks: set<Tick>)
    ensures |AsofLeft(q, ticks)| == |Probes(ticks)|
  {
    var partition := (l: Row) => Partition(Some(l), [KeyOf(q)]);
    SweepLength(ByTime(q.lhs, q.lhsTs), q.lhsTs, partition, Probes(ticks), (k: Tick) => k.time, TickPartition, map[]);
  }

  lemma AsofLeftAt(q: Query, ticks: set<Tick>, i: nat)
    requires UniqueLeft(q) && i < |Probes(ticks)|
    ensures var k := Probes(ticks)[i];
      && |AsofLeft(q, ticks)| == |Probes(ticks)|
      && AsofLeft(q, ticks)[i] == (k, TopByTime(q.lhs, OfKey(q, k.key), q.lhsTs, k.time))
  {
    hide Sweep, TopByTime, Partition, Probes, OfKey, Latest;
    var partition := (l: Row) => Partition(Some(l), [KeyOf(q)]);
    var time := (k: Tick) => k.time;
    var probes, build := Probes(ticks), ByTime(q.lhs, q.lhsTs);
    ProbesInOrder(ticks);
    SortedByTime(q.lhs, q.lhsTs);
    AsofLeftLength(q, ticks);
    SweepFindsLatest([], build, q.lhsTs, partition, probes, time, TickPartition, map[], i);
    assert [] + build == build;
    LeftLookupsAgree(q, build, probes[i], AsofLeft(q, ticks)[i].1);
  }

  /** The first ASOF join pairs every tick with its lateral left row, in time order. */
  lemma AsofLeftAgrees(q: Query, ticks: set<Tick>)
    requires UniqueLeft(q)
    ensures var out := AsofLeft(q, ticks);
      && InTimeOrder(out, (p: (Tick, Option<Row>)) => p.0.time)
      && (forall k :: k in ticks <==> exists p :: p in out && p.0 == k)
      && (forall p | p in out :: p.1 == TopByTime(q.lhs, OfKey(q, p.0.key), q.lhsTs, p.0.time))
  {
    hide AsofLeft, Probes, TopByTime, OfKey, UniqueLeft;
    var probes, out := Probes(ticks), AsofLeft(q, ticks);
    ProbesInOrder(ticks);
    AsofLeftLength(q, ticks);
    forall i: nat | i < |probes|
      ensures out[i].0 == probes[i]
      ensures out[i].1 == TopByTime(q.lhs, OfKey(q, probes[i].key), q.lhsTs, probes[i].time)
    {
      AsofLeftAt(q, ticks, i);
    }
    forall k ensures k in ticks <==> exists p :: p in out && p.0 == k {
      if k in ticks {
        assert k in probes;
        var i :| 0 <= i < |probes| && probes[i] == k;
        assert out[i] in out;
      }
    }
  }

  lemma {:induction false} SweepLength<P>(build: seq<Row>, ts: string, partition: Row -> Option<seq<Datum>>,
      probes: seq<P>, time: P -> int, key: P -> Option<seq<Datum>>, last: map<seq<Datum>, Row>)
    ensures |Sweep(build, ts, partition, probes, time, key, last)| == |probes|
    decreases |build| + |probes|
  {
    if probes != [] {
      if build != [] && TimeOf(build[0], ts) <= time(probes[0]) {
        var k := partition(build[0]);
        SweepLength(build[1..], ts, partition, probes, time, key, if k.Some? then last[k.value := build[0]] else last);
      } else {
        SweepLength(build, ts, partition, probes[1..], time, key, last);
      }
    }
  }

  lemma LeftLookupsAgree(q: Query, build: seq<Row>, k: Tick, found: Option<Row>)
    requires UniqueLeft(q) && (forall x :: x in build <==> x in q.lhs)
    requires Latest(build, InPartition(TickPartition(k), (l: Row) => Partition(Some(l), [KeyOf(q)])),
                    q.lhsTs, k.time, found)
    ensures found == TopByTime(q.lhs, OfKey(q, k.key), q.lhsTs, k.time)
  {
    var m1, m2 := InPartition(TickPartition(k), (l: Row) => Partition(Some(l), [KeyOf(q)])), OfKey(q, k.key);
    forall x | x in q.lhs ensures m1(x) == m2(x) {
      SingleKey(Some(x), KeyOf(q));
      assert Eval(KeyOf(q), Some(x), Some(x)) == At(x, q.key);
      if At(x, q.key).Val? && k.key.Val? {
        assert [At(x, q.key).d] == [k.key.d] ==> [At(x, q.key).d][0] == [k.key.d][0];
      }
    }
    TopByTimeIsLatest(q.lhs, m2, q.lhsTs, k.time);
    assert Latest(q.lhs, m1, q.lhsTs, k.time, found);
    LatestUnique(q.lhs, m2, m1, q.lhsTs, k.time, TopByTime(q.lhs, m2, q.lhsTs, k.time), found);
  }

  lemma RightLookupsAgree(q: Query, pairs: seq<(Expr, Expr)>, build: seq<Row>,
                          l: Option<Row>, t: int, found: Option<Row>)
    requires JoinKeys(q.on) == Some(pairs) && UniqueRight(q, pairs) && (forall x :: x in build <==> x in q.rhs)
    requires Latest(build, InPartition(Partition(l, LeftKeys(pairs)), (r: Row) => Partition(Some(r), RightKeys(pairs))),
                    q.rhsTs, t, found)
    ensures found == TopByTime(q.rhs, ReachedFrom(q, l), q.rhsTs, t)
  {
    var m1 := InPartition(Partition(l, LeftKeys(pairs)), (r: Row) => Partition(Some(r), RightKeys(pairs)));
    var m2 := ReachedFrom(q, l);
    forall x | x in q.rhs ensures m1(x) == m2(x) { HoldsIsSamePartition(q.on, l, x); }
    TopByTimeIsLatest(q.rhs, m2, q.rhsTs, t);
    UniqueRightGivesUniqueReach(q, pairs, l);
    assert Latest(q.rhs, m1, q.rhsTs, t, found);
    LatestUnique(q.rhs, m2, m1, q.rhsTs, t, TopByTime(q.rhs, m2, q.rhsTs, t), found);
  }

  lemma AsofBothLength(q: Query, pairs: seq<(Expr, Expr)>, ticks: set<Tick>)
    ensures |AsofBoth(q, pairs, ticks)| == |AsofLeft(q, ticks)|
  {
    var partition := (r: Row) => Partition(Some(r), RightKeys(pairs));
    var time := (p: (Tick, Option<Row>)) => p.0.time;
    var key := (p: (Tick, Option<Row>)) => Partition(p.1, LeftKeys(pairs));
    SweepLength(ByTime(q.rhs, q.rhsTs), q.rhsTs, partition, AsofLeft(q, ticks), time, key, map[]);
  }

  lemma AsofBothAt(q: Query, pairs: seq<(Expr, Expr)>, ticks: set<Tick>, i: nat)
    requires JoinKeys(q.on) == Some(pairs) && UniqueLeft(q) && UniqueRight(q, pairs) && i < |AsofLeft(q, ticks)|
    ensures |AsofBoth(q, pairs, ticks)| == |AsofLeft(q, ticks)|
    ensures var probe, found := AsofLeft(q, ticks)[i], AsofBoth(q, pairs, ticks)[i];
      found.0 == probe && Joined(found.0.0, found.0.1, found.1) == LateralRow(q, probe.0)
  {
    hide Sweep, TopByTime, Partition, UniqueLeft, UniqueRight, AsofLeft, LeftKeys, RightKeys, OfKey, ReachedFrom;
    hide JoinKeys, Latest;
    AsofLeftAgrees(q, ticks);
    SortedByTime(q.rhs, q.rhsTs);
    AsofBothLength(q, pairs, ticks);
    var probes, build := AsofLeft(q, ticks), ByTime(q.rhs, q.rhsTs);
    var partition := (r: Row) => Partition(Some(r), RightKeys(pairs));
    var time := (p: (Tick, Option<Row>)) => p.0.time;
    var key := (p: (Tick, Option<Row>)) => Partition(p.1, LeftKeys(pairs));
    SweepFindsLatest([], build, q.rhsTs, partition, probes, time, key, map[], i);
    assert [] + build == build;
    RightLookupsAgree(q, pairs, build, probes[i].1, probes[i].0.time, AsofBoth(q, pairs, ticks)[i].1);
    assert probes[i] in probes;
  }

  /** Plan equivalence: under the documented uniqueness the chained ASOF joins and the
      chained lateral lookups pair every tick with the same two rows, missing ones included. */
  lemma PlansAgree(q: Query, pairs: seq<(Expr, Expr)>, ticks: set<Tick>)
    requires JoinKeys(q.on) == Some(pairs) && UniqueLeft(q) && UniqueRight(q, pairs)
    ensures AsofLookups(q, pairs, ticks) == LateralLookups(q, ticks)
  {
    hide AsofLeft, AsofBoth, LateralRow, UniqueLeft, UniqueRight, TopByTime, JoinKeys;
    AsofLeftAgrees(q, ticks);
    AsofBothLength(q, pairs, ticks);
    var probes, out := AsofLeft(q, ticks), AsofBoth(q, pairs, ticks);
    forall i: nat | i < |probes|
      ensures out[i].0 == probes[i] && Joined(out[i].0.0, out[i].0.1, out[i].1) == LateralRow(q, probes[i].0)
    {
      AsofBothAt(q, pairs, ticks, i);
    }
    forall o ensures o in AsofLookups(q, pairs, ticks) <==> o in LateralLookups(q, ticks) {
      if o in AsofLookups(q, pairs, ticks) {
        var i :| 0 <= i < |out| && o == Joined(out[i].0.0, out[i].0.1, out[i].1);
        assert probes[i] in probes;
      }
      if o in LateralLookups(q, ticks) {
        var k :| k in ticks && o == LateralRow(q, k);
        var p :| p in probes && p.0 == k;
        var i :| 0 <= i < |probes| && probes[i] == p;
        assert out[i] in out;
      }
    }
  }

  /** Whatever the gateway, the macro yields the same history. */
  lemma GatewaysAgree(q: Query, pairs: seq<(Expr, Expr)>, plan: Plan)
    requires JoinKeys(q.on) == Some(pairs) && UniqueLeft(q) && UniqueRight(q, pairs)
    ensures Output(q, plan) == LateralOutput(q)
  {
    PlansAgree(q, pairs, Ticks(q));
    PlansAgree(q, pairs, Changes(q, Lateral));
  }

  /** What the documentation asks of a call: integer timestamps, left columns qualified with
      their alias, both sources unique on their key or join columns and the timestamp. */
  ghost predicate DocumentedCall(q: Query, pairs: seq<(Expr, Expr)>) {
    && JoinKeys(q.on) == Some(pairs) && LeftQualified(q.on)
    && Timed(q.lhs, q.lhsTs) && Timed(q.rhs, q.rhsTs) && UniqueLeft(q) && UniqueRight(q, pairs)
  }

  lemma DocumentedIsWellFormed(q: Query, pairs: seq<(Expr, Expr)>)
    requires DocumentedCall(q, pairs)
    ensures WellFormed(q)
  {
    hide LeftQualified;
    forall l | l in q.lhs ensures UniqueTimes(q.rhs, ReachedFrom(q, Some(l)), q.rhsTs) {
      UniqueRightGivesUniqueReach(q, pairs, Some(l));
    }
  }

  /** Rows of both tables with the same cell in every column but the timestamps. */
  ghost predicate SameCells(q: Query, o: Joined, s: State) {
    && (forall c | c in q.lhsColumns && c != q.lhsTs :: OuterAt(o.lhs, c) == OuterAt(s.lhs, c))
    && (forall c | c in q.rhsColumns && c != q.rhsTs :: OuterAt(o.rhs, c) == OuterAt(s.rhs, c))
  }

  lemma AlikeIsSameCells(q: Query, o: Joined, s: State)
    ensures Alike(q, State(o.lhs, o.rhs), s) <==> SameCells(q, o, s)
  {
    var a, b := Values(q, State(o.lhs, o.rhs)), Values(q, s);
    if a == b {
      forall c | c in q.lhsColumns && c != q.lhsTs ensures OuterAt(o.lhs, c) == OuterAt(s.lhs, c) {
        assert c in a.0 && a.0[c] == b.0[c];
      }
      forall c | c in q.rhsColumns && c != q.rhsTs ensures OuterAt(o.rhs, c) == OuterAt(s.rhs, c) {
        assert c in a.1 && a.1[c] == b.1[c];
      }
    }
    if SameCells(q, o, s) { assert a.0 == b.0 && a.1 == b.1; }
  }

  /** The state in effect in plain columns: among the left rows that hold `k` in the key
      column and a time up to `t`, one with the greatest time; among the right rows it
      reaches with a time up to `t`, likewise. */
  lemma InEffectInColumns(q: Query, k: Datum, t: int)
    requires Timed(q.lhs, q.lhsTs) && Timed(q.rhs, q.rhsTs)
    ensures var s := H(q, k, t);
      && (s.lhs.None? <==>
            forall l, n | l in q.lhs && At(l, q.key) == Val(k) && At(l, q.lhsTs) == Val(Number(n)) :: t < n)
      && (s.lhs.Some? ==>
            && s.lhs.value in q.lhs && At(s.lhs.value, q.key) == Val(k)
            && IsGreatestTime(q.lhs, (l: Row) => At(l, q.key) == Val(k), q.lhsTs, t, s.lhs.value))
      && (s.rhs.Some? ==>
            && s.lhs.Some? && s.rhs.value in q.rhs && Eval(q.on, s.lhs, s.rhs) == Val(Truth(true))
            && IsGreatestTime(q.rhs, (r: Row) => Eval(q.on, s.lhs, Some(r)) == Val(Truth(true)), q.rhsTs, t,
                              s.rhs.value))
      && (s.lhs.Some? && s.rhs.None? ==>
            forall r, n | r in q.rhs && At(r, q.rhsTs) == Val(Number(n))
              && Eval(q.on, s.lhs, Some(r)) == Val(Truth(true)) :: t < n)
  {
    var s := H(q, k, t);
    forall r, n | r in q.lhs && At(r, q.lhsTs) == Val(Number(n)) ensures TimeOf(r, q.lhsTs) == n { }
    forall r, n | r in q.rhs && At(r, q.rhsTs) == Val(Number(n)) ensures TimeOf(r, q.rhsTs) == n { }
    if s.lhs.None? {
      forall l, n | l in q.lhs && At(l, q.key) == Val(k) && At(l, q.lhsTs) == Val(Number(n)) ensures t < n { }
    } else {
      assert At(s.lhs.value, q.lhsTs) == Val(Number(TimeOf(s.lhs.value, q.lhsTs)));
    }
  }

  /** The row's own timestamp is a number up to `t`, and no other matching one's is between. */
  ghost predicate IsGreatestTime(rows: seq<Row>, matches: Row -> bool, ts: string, t: int, row: Row) {
    exists m :: At(row, ts) == Val(Number(m)) && m <= t
      && forall x, n | x in rows && matches(x) && At(x, ts) == Val(Number(n)) && n <= t :: n <= m
  }

  /** The macro, whatever its arguments, on every gateway: if it yields a query at all, that
      is one the gateway's engine accepts, and by `t` its output for an item ends with the
      cells of the state in effect at `t`, or is empty if there is none. */
  lemma MacroCorrect(q: Query, pairs: seq<(Expr, Expr)>, lhsTsQualified: bool, rhsTsQualified: bool, keyQualified: bool,
                     gateway: string, dialect: string, k: Datum, t: int)
    requires DocumentedCall(q, pairs)
    requires ChoosePlan(lhsTsQualified, rhsTsQualified, keyQualified, gateway, dialect).Ok?
    ensures JoinKeys(q.on).Some?
    ensures var plan := ChoosePlan(lhsTsQualified, rhsTsQualified, keyQualified, gateway, dialect).value;
      var out := Output(q, plan);
      && Accepts(gateway, dialect, plan)
      && if H(q, k, t).lhs.Some? then exists o :: IsLast(out, k, t, o) && SameCells(q, o, H(q, k, t))
         else forall o | o in out && o.tick.key == Val(k) :: t < o.tick.time
  {
    var plan := ChoosePlan(lhsTsQualified, rhsTsQualified, keyQualified, gateway, dialect).value;
    PlanChosenIff(lhsTsQualified, rhsTsQualified, keyQualified, gateway, dialect);
    DocumentedIsWellFormed(q, pairs);
    GatewaysAgree(q, pairs, plan);
    hide DocumentedCall, WellFormed, Output, LateralOutput, H, Alike, ChoosePlan, Accepts, SameCells, IsLast;
    PointwiseCorrect(q, k, t);
    if H(q, k, t).lhs.Some? {
      var o :| IsLast(LateralOutput(q), k, t, o) && Alike(q, State(o.lhs, o.rhs), H(q, k, t));
      AlikeIsSameCells(q, o, H(q, k, t));
      assert IsLast(Output(q, plan), k, t, o) && SameCells(q, o, H(q, k, t));
    }
  }

  // ----- a documented call -----

  const ISSUE: Row :=
    map["issue_id" := Val(Number(1)), "changed_at" := Val(Number(10)), "component_id" := Val(Number(7))]
  const COMPONENT: Row := map["component_id" := Val(Number(7)), "changed_at" := Val(Number(20))]

  /** The call of the module's own example, over one row of each table. */
  const EXAMPLE := Query([ISSUE], [COMPONENT],
                         {"issue_id", "changed_at", "component_id"}, {"component_id", "changed_at"},
                         "changed_at", "changed_at", "issue_id",
                         Eq(Column(Rhs, "component_id", true), Column(Lhs, "component_id", true)))

  /** It is documented, and its item has no state before its row, no component before the
      component's row, and both from then on. */
  lemma ExampleIsDocumented(t: int)
    ensures DocumentedCall(EXAMPLE, [(Column(Lhs, "component_id", true), Column(Rhs, "component_id", true))])
    ensures H(EXAMPLE, Number(1), t) ==
      if t < 10 then State(None, None) else if t < 20 then State(Some(ISSUE), None)
      else State(Some(ISSUE), Some(COMPONENT))
  {
    var q := EXAMPLE;
    assert TimeOf(ISSUE, "changed_at") == 10 && TimeOf(COMPONENT, "changed_at") == 20;
    assert Holds(q.on, Some(ISSUE), COMPONENT);
    assert forall x | x in q.lhs :: x == ISSUE;
    assert forall x | x in q.rhs :: x == COMPONENT;
    assert ISSUE in q.lhs && COMPONENT in q.rhs;
    var s := if t < 10 then State(None, None) else if t < 20 then State(Some(ISSUE), None)
             else State(Some(ISSUE), Some(COMPONENT));
    assert InEffect(q, Number(1), t, s);
    assert UniqueLeft(q) && UniqueReach(q);
    StateUnique(q, Number(1), t, s, H(q, Number(1), t));
  }
}
