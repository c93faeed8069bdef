/** The validity periods of a dropzone's uploads: incremental clipping, its closed form,
    and what the newest-wins query makes of it. */
module Validity {
  import opened Prelude
  import opened Sorting

  /** One row of the upload table; later uploads have greater keys, with gaps where a failed
      upload drew one. */
  datatype Upload = Upload(
    pk: nat, dropzone: nat, uploadedAt: int, uploadedBy: Option<nat>,
    validFrom: Option<int>, validUntil: Option<int>, directory: string, sha256: string)

  /** `_clip_replaced`: whether storing `new` ends the period of `row`. */
  predicate Clips(new_: Upload, row: Upload) {
    && new_.validFrom.Some?
    && row.dropzone == new_.dropzone && row.pk != new_.pk
    && row.validFrom.Some? && row.validUntil.None? && row.validFrom.value < new_.validFrom.value
  }

  function Clip(row: Upload, new_: Upload): Upload {
    if Clips(new_, row) then row.(validUntil := new_.validFrom) else row
  }

  function ClipAll(rows: seq<Upload>, new_: Upload): (r: seq<Upload>)
    ensures |r| == |rows|
    ensures forall i | 0 <= i < |rows| :: r[i] == Clip(rows[i], new_)
  {
    seq(|rows|, i requires 0 <= i < |rows| => Clip(rows[i], new_))
  }

  /** The table after storing the uploads of `history` one after the other. */
  function Run(history: seq<Upload>): (rows: seq<Upload>)
    ensures |rows| == |history|
  {
    if history == [] then []
    else
      var last := history[|history| - 1];
      ClipAll(Run(history[..|history| - 1]), last) + [last]
  }

  // ----- the closed form -----

  /** A history stores its uploads under increasing keys at strictly increasing times. */
  ghost predicate Chronological(history: seq<Upload>) {
    forall i, j | 0 <= i < j < |history| ::
      history[i].pk < history[j].pk && history[i].uploadedAt < history[j].uploadedAt
  }

  predicate Dated(u: Upload, dropzone: nat) {
    u.dropzone == dropzone && u.validFrom.Some?
  }

  /** Upload `j` came after `i` in the same dropzone, with a strictly greater start. */
  predicate Replaces(history: seq<Upload>, i: nat, j: nat) {
    && i < j < |history|
    && Dated(history[i], history[j].dropzone) && history[j].validFrom.Some?
    && history[i].validFrom.value < history[j].validFrom.value
  }

  ghost predicate IsNextGreater(history: seq<Upload>, i: nat, j: nat) {
    Replaces(history, i, j) && forall k: nat | k < j :: !Replaces(history, i, k)
  }

  /** What upload `i` looks like after the whole history: an open-ended dated upload ends
      where the next greater start begins, every other upload is as it was stored. */
  ghost predicate ClosedForm(history: seq<Upload>, i: nat, row: Upload)
    requires i < |history|
  {
    if history[i].validFrom.None? || history[i].validUntil.Some? then row == history[i]
    else
      && row == history[i].(validUntil := row.validUntil)
      && (row.validUntil.None? ==> forall j: nat :: !Replaces(history, i, j))
      && (row.validUntil.Some? ==>
            exists j: nat :: IsNextGreater(history, i, j) && row.validUntil == history[j].validFrom)
  }

  lemma ClosedFormUnique(history: seq<Upload>, i: nat, a: Upload, b: Upload)
    requires i < |history| && ClosedForm(history, i, a) && ClosedForm(history, i, b)
    ensures a == b
  {
    if a.validUntil.Some? && b.validUntil.Some? && history[i].validUntil.None? && history[i].validFrom.Some? {
      var j: nat :| IsNextGreater(history, i, j) && a.validUntil == history[j].validFrom;
      var k: nat :| IsNextGreater(history, i, k) && b.validUntil == history[k].validFrom;
      assert j == k;
    }
  }

  /** One more upload keeps every earlier row in closed form. */
  lemma ClipKeepsClosedForm(history: seq<Upload>, i: nat, row: Upload, new_: Upload)
    requires i < |history| && ClosedForm(history, i, row) && history[i].pk < new_.pk
    ensures ClosedForm(history + [new_], i, Clip(row, new_))
  {
    var longer := history + [new_];
    forall j: nat | j < |history| ensures Replaces(longer, i, j) == Replaces(history, i, j) { }
    assert Replaces(longer, i, |history|) <==>
      (history[i].validFrom.Some? && new_.validFrom.Some? && history[i].dropzone == new_.dropzone
       && history[i].validFrom.value < new_.validFrom.value);
    if history[i].validFrom.Some? && history[i].validUntil.None? {
      if row.validUntil.Some? {
        var j: nat :| IsNextGreater(history, i, j) && row.validUntil == history[j].validFrom;
        assert IsNextGreater(longer, i, j);
      } else if Clips(new_, row) {
        assert IsNextGreater(longer, i, |history|);
      }
    }
  }

  lemma NewestInClosedForm(history: seq<Upload>, new_: Upload)
    ensures ClosedForm(history + [new_], |history|, new_)
  {
  }

  /** Clipping upload by upload computes the next greater start, over every run. */
  lemma {:induction false} RunInClosedForm(history: seq<Upload>, i: nat)
    requires i < |history| && Chronological(history)
    ensures ClosedForm(history, i, Run(history)[i])
  {
    var n := |history| - 1;
    assert history == history[..n] + [history[n]];
    if i < n {
      RunInClosedForm(history[..n], i);
      ClipKeepsClosedForm(history[..n], i, Run(history[..n])[i], history[n]);
    } else {
      NewestInClosedForm(history[..n], history[n]);
    }
  }

  /** Upload `j` is the first after `i` in its dropzone to start later than it, at `end`. */
  ghost predicate IsFirstLaterStart(history: seq<Upload>, i: nat, j: nat, end: int)
    requires i < |history| && history[i].validFrom.Some?
  {
    && i < j < |history| && history[j].dropzone == history[i].dropzone
    && history[j].validFrom == Some(end) && history[i].validFrom.value < end
    && forall m | i < m < j && history[m].dropzone == history[i].dropzone && history[m].validFrom.Some? ::
         history[m].validFrom.value <= history[i].validFrom.value
  }

  /** The closed form in plain fields: what has no start, or an end of its own, stays as it was
      stored; any other upload ends where the first later upload of its dropzone with a
      strictly greater start begins, and stays open if there is none. */
  lemma PeriodsInFields(history: seq<Upload>, i: nat, end: int)
    requires i < |history| && Chronological(history)
    ensures var stored, row := history[i], Run(history)[i];
      && row == stored.(validUntil := row.validUntil)
      && (stored.validFrom == None || stored.validUntil != None ==> row == stored)
      && (stored.validFrom != None && stored.validUntil == None ==>
            (row.validUntil == Some(end) <==> exists j: nat :: IsFirstLaterStart(history, i, j, end)))
      && (stored.validFrom != None && stored.validUntil == None ==>
            (row.validUntil == None <==>
               forall j | i < j < |history| && history[j].dropzone == stored.dropzone && history[j].validFrom != None ::
                 history[j].validFrom.value <= stored.validFrom.value))
  {
    RunInClosedForm(history, i);
    hide Run, ClosedForm;
    var stored, row := history[i], Run(history)[i];
    ClosedFormInFields(history, i, row, end);
  }

  lemma ClosedFormInFields(history: seq<Upload>, i: nat, row: Upload, end: int)
    requires i < |history| && ClosedForm(history, i, row)
    ensures var stored := history[i];
      && row == stored.(validUntil := row.validUntil)
      && (stored.validFrom == None || stored.validUntil != None ==> row == stored)
      && (stored.validFrom != None && stored.validUntil == None ==>
            (row.validUntil == Some(end) <==> exists j: nat :: IsFirstLaterStart(history, i, j, end)))
      && (stored.validFrom != None && stored.validUntil == None ==>
            (row.validUntil == None <==>
               forall j | i < j < |history| && history[j].dropzone == stored.dropzone && history[j].validFrom != None ::
                 history[j].validFrom.value <= stored.validFrom.value))
  {
    var stored := history[i];
    if stored.validFrom.Some? && stored.validUntil.None? {
      forall j: nat | i < j < |history| && history[j].dropzone == stored.dropzone && history[j].validFrom.Some?
        ensures Replaces(history, i, j) <==> stored.validFrom.value < history[j].validFrom.value
      {
      }
      if row.validUntil.Some? {
        var j: nat :| IsNextGreater(history, i, j) && row.validUntil == history[j].validFrom;
        assert Replaces(history, i, j) && stored.validFrom.value < history[j].validFrom.value;
        forall m: nat | i < m < j && history[m].dropzone == stored.dropzone && history[m].validFrom != None
          ensures history[m].validFrom.value <= stored.validFrom.value
        {
          assert !Replaces(history, i, m);
        }
        if row.validUntil == Some(end) { assert IsFirstLaterStart(history, i, j, end); }
      }
      if j: nat :| IsFirstLaterStart(history, i, j, end) {
        assert IsNextGreater(history, i, j);
        assert row.validUntil.Some?;
        var k: nat :| IsNextGreater(history, i, k) && row.validUntil == history[k].validFrom;
        assert j == k;
      }
    }
  }

  /** In upload order the starts of a dropzone's still open dated uploads never increase. */
  lemma OpenStartsNeverIncrease(history: seq<Upload>, i: nat, j: nat)
    requires Chronological(history) && i < j < |history|
    requires var a, b := Run(history)[i], Run(history)[j];
      a.dropzone == b.dropzone && a.validFrom.Some? && b.validFrom.Some? && a.validUntil.None? && b.validUntil.None?
    ensures Run(history)[j].validFrom.value <= Run(history)[i].validFrom.value
  {
    RunInClosedForm(history, i);
    RunInClosedForm(history, j);
    assert !Replaces(history, i, j);
  }

  // ----- the query -----

  predicate Started(u: Upload, dropzone: nat, t: int) {
    u.dropzone == dropzone && (u.validFrom.None? || u.validFrom.value <= t)
  }

  /** An open bound never excludes an upload; the start is inclusive, the end is not. */
  predicate Covers(u: Upload, dropzone: nat, t: int) {
    Started(u, dropzone, t) && (u.validUntil.None? || t < u.validUntil.value)
  }

  function ValidAt(rows: seq<Upload>, dropzone: nat, t: int): seq<Upload> {
    Sort(Filter(rows, (u: Upload) => Covers(u, dropzone, t)), (a: Upload, b: Upload) => a.uploadedAt >= b.uploadedAt)
  }

  /** The query returns exactly the dropzone's uploads whose start is open or has come and
      whose end is open or is still to come, the most recently uploaded first. */
  lemma ValidAtCorrect(rows: seq<Upload>, dropzone: nat, t: int)
    ensures var found := ValidAt(rows, dropzone, t);
      && (forall u :: u in found <==>
            && u in rows && u.dropzone == dropzone
            && (u.validFrom == None || u.validFrom.value <= t) && (u.validUntil == None || t < u.validUntil.value))
      && (forall i, j | 0 <= i < j < |found| :: found[j].uploadedAt <= found[i].uploadedAt)
      && (forall u | u in found :: u.uploadedAt <= found[0].uploadedAt)
      && (found != [] ==> found[0] in found)
  {
    var newest := (a: Upload, b: Upload) => a.uploadedAt >= b.uploadedAt;
    var kept := Filter(rows, (u: Upload) => Covers(u, dropzone, t));
    SortCorrect(kept, newest);
    var found := Sort(kept, newest);
    forall i, j | 0 <= i < j < |found| ensures found[j].uploadedAt <= found[i].uploadedAt {
      assert newest(found[i], found[j]);
    }
    forall u | u in found ensures u.uploadedAt <= found[0].uploadedAt {
      var i :| 0 <= i < |found| && found[i] == u;
    }
  }

  /** A table of surviving rows of a history, every one of them in closed form. */
  ghost predicate Surviving(history: seq<Upload>, rows: seq<Upload>) {
    && (forall u | u in rows :: exists i: nat :: i < |history| && ClosedForm(history, i, u))
    && (forall u, v | u in rows && v in rows && u.pk == v.pk :: u == v)
  }

  ghost predicate IsNewestStarted(rows: seq<Upload>, dropzone: nat, t: int, m: Upload) {
    && m in rows && Started(m, dropzone, t)
    && forall u | u in rows && Started(u, dropzone, t) :: u.pk <= m.pk
  }

  /** Upload `i` was not replaced by a start up to `t`, nor did its own period end by `t`. */
  ghost predicate StillRuns(history: seq<Upload>, i: nat, t: int)
    requires i < |history|
  {
    if history[i].validUntil.Some? then t < history[i].validUntil.value
    else forall j: nat | IsNextGreater(history, i, j) :: t < history[j].validFrom.value
  }

  lemma ClosedFormRuns(history: seq<Upload>, i: nat, row: Upload, t: int)
    requires i < |history| && ClosedForm(history, i, row)
    ensures (row.validUntil.None? || t < row.validUntil.value) <==> StillRuns(history, i, t)
    ensures row.dropzone == history[i].dropzone && row.validFrom == history[i].validFrom
  {
    if history[i].validUntil.None? && row.validUntil.Some? {
      var j: nat :| IsNextGreater(history, i, j) && row.validUntil == history[j].validFrom;
      forall k: nat | IsNextGreater(history, i, k) ensures k == j { }
    }
  }

  /** With any uploads deleted, the query still answers the most recently uploaded one that
      has started, exactly while that one still runs. */
  lemma NewestWinsWhileItRuns(history: seq<Upload>, rows: seq<Upload>, dropzone: nat, t: int, m: Upload, i: nat)
    requires Chronological(history) && Surviving(history, rows) && IsNewestStarted(rows, dropzone, t, m)
    requires i < |history| && history[i].pk == m.pk
    ensures (ValidAt(rows, dropzone, t) != [] && ValidAt(rows, dropzone, t)[0] == m) <==> StillRuns(history, i, t)
  {
    ValidAtCorrect(rows, dropzone, t);
    PlaceOf(history, rows, m, i);
    ClosedFormRuns(history, i, m, t);
    var found := ValidAt(rows, dropzone, t);
    if StillRuns(history, i, t) {
      assert m in found;
      var head := found[0];
      assert head in rows && m.uploadedAt <= head.uploadedAt;
      LaterKeys(history, rows, head, m);
    }
  }

  /** Rows are those of their keys. */
  lemma PlaceOf(history: seq<Upload>, rows: seq<Upload>, row: Upload, i: nat)
    requires Chronological(history) && Surviving(history, rows) && row in rows
    requires i < |history| && history[i].pk == row.pk
    ensures ClosedForm(history, i, row)
  {
    var j: nat :| j < |history| && ClosedForm(history, j, row);
    assert history[j].pk == row.pk;
    assert i == j;
  }

  /** Among surviving rows a later upload time means a greater key. */
  lemma LaterKeys(history: seq<Upload>, rows: seq<Upload>, a: Upload, b: Upload)
    requires Chronological(history) && Surviving(history, rows) && a in rows && b in rows
    requires b.uploadedAt <= a.uploadedAt && a.pk <= b.pk
    ensures a == b
  {
    var i: nat :| i < |history| && ClosedForm(history, i, a);
    var j: nat :| j < |history| && ClosedForm(history, j, b);
    assert history[i].pk == a.pk && history[i].uploadedAt == a.uploadedAt;
    assert history[j].pk == b.pk && history[j].uploadedAt == b.uploadedAt;
    assert i == j;
  }

  lemma RunSurvives(history: seq<Upload>)
    requires Chronological(history)
    ensures Surviving(history, Run(history))
    ensures forall i | 0 <= i < |history| :: Run(history)[i].pk == history[i].pk
  {
    forall i: nat | i < |history| ensures ClosedForm(history, i, Run(history)[i]) { RunInClosedForm(history, i); }
    ClosedRowsSurvive(history, Run(history));
  }

  lemma OneRowPerKey(history: seq<Upload>, rows: seq<Upload>)
    requires Chronological(history)
    requires forall u | u in rows :: exists i: nat :: i < |history| && ClosedForm(history, i, u)
    ensures Surviving(history, rows)
  {
    forall u, v | u in rows && v in rows && u.pk == v.pk ensures u == v {
      var i: nat :| i < |history| && ClosedForm(history, i, u);
      var j: nat :| j < |history| && ClosedForm(history, j, v);
      assert history[i].pk == u.pk && history[j].pk == v.pk;
      assert i == j;
      ClosedFormUnique(history, i, u, v);
    }
  }

  lemma ClosedRowsSurvive(history: seq<Upload>, rows: seq<Upload>)
    requires Chronological(history) && AllClosed(history, rows)
    ensures Surviving(history, rows) && forall i | 0 <= i < |history| :: rows[i].pk == history[i].pk
  {
    forall i: nat | i < |history| ensures rows[i].pk == history[i].pk { assert ClosedForm(history, i, rows[i]); }
    hide ClosedForm, Surviving, Chronological;
    forall u | u in rows ensures exists i: nat :: i < |history| && ClosedForm(history, i, u) {
      var i: nat :| i < |rows| && rows[i] == u;
      assert ClosedForm(history, i, u);
    }
    OneRowPerKey(history, rows);
  }

  /** Clipping is transparent: while no upload is deleted the query answers the most
      recently uploaded one that has started, if and only if that upload's own fixed period
      has not ended. Clipping itself never hides it. */
  lemma ClippingIsTransparent(history: seq<Upload>, dropzone: nat, t: int, i: nat)
    requires Chronological(history) && i < |history| && IsNewestStarted(Run(history), dropzone, t, Run(history)[i])
    ensures (ValidAt(Run(history), dropzone, t) != [] && ValidAt(Run(history), dropzone, t)[0] == Run(history)[i])
       <==> (history[i].validUntil.None? || t < history[i].validUntil.value)
  {
    RunSurvives(history);
    NewestWinsWhileItRuns(history, Run(history), dropzone, t, Run(history)[i], i);
    if history[i].validUntil.None? { NewestIsNotReplaced(history, dropzone, t, i); }
  }

  /** Whatever replaces the newest upload that has started is still to start. */
  lemma NewestIsNotReplaced(history: seq<Upload>, dropzone: nat, t: int, i: nat)
    requires Chronological(history) && i < |history| && IsNewestStarted(Run(history), dropzone, t, Run(history)[i])
    ensures forall j: nat | IsNextGreater(history, i, j) :: t < history[j].validFrom.value
  {
    hide ValidAt, Run, StillRuns;
    RunSurvives(history);
    RunInClosedForm(history, i);
    forall j: nat | IsNextGreater(history, i, j) ensures t < history[j].validFrom.value {
      var later := Run(history)[j];
      RunInClosedForm(history, j);
      ClosedFormRuns(history, i, Run(history)[i], t);
      ClosedFormRuns(history, j, later, t);
      assert later in Run(history);
    }
  }

  lemma {:induction false} OthersFilter(rows: seq<Upload>, new_: Upload, dropzone: nat, t: int)
    requires dropzone != new_.dropzone
    ensures Filter(ClipAll(rows, new_), (u: Upload) => Covers(u, dropzone, t))
         == Filter(rows, (u: Upload) => Covers(u, dropzone, t))
  {
    if rows != [] {
      OthersFilter(rows[1..], new_, dropzone, t);
      assert ClipAll(rows, new_)[1..] == ClipAll(rows[1..], new_);
      assert ClipAll(rows, new_)[0] == Clip(rows[0], new_);
    }
  }

  /** A stored upload is valid exactly within its period. */
  lemma StoredIsValid(rows: seq<Upload>, new_: Upload, t: int)
    ensures new_ in ValidAt(ClipAll(rows, new_) + [new_], new_.dropzone, t)
      <==> (new_.validFrom == None || new_.validFrom.value <= t)
           && (new_.validUntil == None || t < new_.validUntil.value)
  {
    hide ValidAt;
    ValidAtCorrect(ClipAll(rows, new_) + [new_], new_.dropzone, t);
  }

  /** Storing changes no other dropzone's results. */
  lemma OthersUndisturbed(rows: seq<Upload>, new_: Upload, dropzone: nat, t: int)
    requires dropzone != new_.dropzone
    ensures ValidAt(ClipAll(rows, new_) + [new_], dropzone, t) == ValidAt(rows, dropzone, t)
  {
    hide Sort;
    var covers := (u: Upload) => Covers(u, dropzone, t);
    OthersFilter(rows, new_, dropzone, t);
    FilterAppend(ClipAll(rows, new_), [new_], covers);
    assert Filter([new_], covers) == [] by { assert [new_][1..] == []; }
    assert Filter(rows, covers) + [] == Filter(rows, covers);
  }

  /** Nor anybody's before its start. */
  lemma NothingBeforeStart(rows: seq<Upload>, new_: Upload, dropzone: nat, t: int, i: nat)
    requires i < |rows| && new_.validFrom.Some? && t < new_.validFrom.value
    ensures var after := ClipAll(rows, new_) + [new_];
      after[i] in ValidAt(after, dropzone, t) <==> rows[i] in ValidAt(rows, dropzone, t)
  {
    hide ValidAt;
    var after := ClipAll(rows, new_) + [new_];
    ValidAtCorrect(after, dropzone, t);
    ValidAtCorrect(rows, dropzone, t);
    assert after[i] == Clip(rows[i], new_) && after[i] in after && rows[i] in rows;
  }

  /** The fallback: over every run, deletions included, an upload without a start or an end is
      in the query's result at every time, and leads it exactly where no upload that came
      later covers that time. */
  lemma FallbackIsAlwaysValid(history: seq<Upload>, rows: seq<Upload>, i: nat, t: int)
    requires Chronological(history) && Surviving(history, rows) && i < |history|
    requires history[i].validFrom.None? && history[i].validUntil.None? && exists u :: u in rows && u.pk == history[i].pk
    ensures var u, found := history[i], ValidAt(rows, history[i].dropzone, t);
      && u in found
      && (found[0] == u <==> forall v | v in rows && v.dropzone == u.dropzone && u.uploadedAt < v.uploadedAt ::
            (v.validFrom.Some? && t < v.validFrom.value) || (v.validUntil.Some? && v.validUntil.value <= t))
  {
    var u, found := history[i], ValidAt(rows, history[i].dropzone, t);
    var row :| row in rows && row.pk == history[i].pk;
    PlaceOf(history, rows, row, i);
    ValidAtCorrect(rows, u.dropzone, t);
    assert u == row;
    if found[0] != u {
      if found[0].uploadedAt <= u.uploadedAt && found[0].pk >= u.pk { LaterKeys(history, rows, u, found[0]); }
      HeadIsLater(history, rows, u, found[0]);
    }
  }

  /** Among surviving rows upload times differ. */
  lemma HeadIsLater(history: seq<Upload>, rows: seq<Upload>, u: Upload, head: Upload)
    requires Chronological(history) && Surviving(history, rows) && u in rows && head in rows && head != u
    requires u.uploadedAt <= head.uploadedAt
    ensures u.uploadedAt < head.uploadedAt
  {
    if u.uploadedAt == head.uploadedAt {
      if u.pk <= head.pk { LaterKeys(history, rows, u, head); } else { LaterKeys(history, rows, head, u); }
    }
  }

  /** Before anything has started the query answers nothing. */
  lemma NothingStarted(rows: seq<Upload>, dropzone: nat, t: int)
    requires forall u | u in rows :: !Started(u, dropzone, t)
    ensures ValidAt(rows, dropzone, t) == []
  {
    ValidAtCorrect(rows, dropzone, t);
  }

  lemma NothingCovers(rows: seq<Upload>, dropzone: nat, t: int)
    requires forall u | u in rows :: !Covers(u, dropzone, t)
    ensures ValidAt(rows, dropzone, t) == []
  {
    ValidAtCorrect(rows, dropzone, t);
  }

  lemma RunOfTwo(a: Upload, b: Upload)
    ensures Run([a]) == [a] && Run([a, b]) == [Clip(a, b), b]
  {
    assert [a, b][..1] == [a] && [a][..0] == [];
    assert Run([a]) == [a];
  }

  /** A fixed period ends what it replaced and leaves a gap after its own end. */
  lemma FixedPeriodLeavesGap()
    ensures var open := Upload(0, 1, 0, None, Some(0), None, "a/", "");
      var fixed := Upload(1, 1, 1, None, Some(10), Some(20), "b/", "");
      && ValidAt(Run([open]), 1, 25) == [open]
      && ValidAt(Run([open, fixed]), 1, 25) == []
  {
    var open := Upload(0, 1, 0, None, Some(0), None, "a/", "");
    var fixed := Upload(1, 1, 1, None, Some(10), Some(20), "b/", "");
    RunOfTwo(open, fixed);
    hide Run;
    assert Filter([open], (u: Upload) => Covers(u, 1, 25)) == [open];
    NothingCovers([open.(validUntil := Some(10)), fixed], 1, 25);
  }

  // ----- strictly increasing starts tile time -----

  /** Every dated upload of the dropzone is open-ended and starts after the one before. */
  ghost predicate StrictlyIncreasing(history: seq<Upload>, dropzone: nat) {
    && (forall i | 0 <= i < |history| && Dated(history[i], dropzone) :: history[i].validUntil.None?)
    && (forall i, j | 0 <= i < j < |history| && Dated(history[i], dropzone) && Dated(history[j], dropzone) ::
          history[i].validFrom.value < history[j].validFrom.value)
  }

  ghost predicate DatedAndValid(rows: seq<Upload>, dropzone: nat, t: int, i: int) {
    0 <= i < |rows| && Dated(rows[i], dropzone) && Covers(rows[i], dropzone, t)
  }

  ghost predicate HasStarted(history: seq<Upload>, dropzone: nat, t: int, i: int) {
    0 <= i < |history| && Dated(history[i], dropzone) && history[i].validFrom.value <= t
  }

  lemma {:induction false} LastStarted(history: seq<Upload>, dropzone: nat, t: int, n: nat) returns (m: nat)
    requires n <= |history|
    requires exists i :: 0 <= i < n && Dated(history[i], dropzone) && history[i].validFrom.value <= t
    ensures m < n && Dated(history[m], dropzone) && history[m].validFrom.value <= t
    ensures forall j | m < j < n && Dated(history[j], dropzone) :: t < history[j].validFrom.value
  {
    if Dated(history[n - 1], dropzone) && history[n - 1].validFrom.value <= t {
      m := n - 1;
    } else {
      m := LastStarted(history, dropzone, t, n - 1);
    }
  }

  /** The dated periods are not empty and tile the time from the first start on: exactly one
      is valid at every instant from then, none before. */
  lemma PeriodsTile(history: seq<Upload>, dropzone: nat, t: int)
    requires Chronological(history) && StrictlyIncreasing(history, dropzone)
    ensures forall u | u in Run(history) && Dated(u, dropzone) && u.validUntil.Some? ::
      u.validFrom.value < u.validUntil.value
    ensures (exists i: int :: DatedAndValid(Run(history), dropzone, t, i))
       <==> (exists i: int :: HasStarted(history, dropzone, t, i))
    ensures forall i: int, j: int |
      DatedAndValid(Run(history), dropzone, t, i) && DatedAndValid(Run(history), dropzone, t, j) :: i == j
  {
    hide Run, ClosedForm, StrictlyIncreasing;
    forall i | 0 <= i < |history| ensures ClosedForm(history, i, Run(history)[i]) { RunInClosedForm(history, i); }
    SomePeriodCovers(history, Run(history), dropzone, t);
    PeriodsDisjoint(history, Run(history), dropzone, t);
    PeriodsNotEmpty(history, Run(history), dropzone);
  }

  ghost predicate AllClosed(history: seq<Upload>, rows: seq<Upload>) {
    |rows| == |history| && forall i | 0 <= i < |rows| :: ClosedForm(history, i, rows[i])
  }

  lemma PeriodsNotEmpty(history: seq<Upload>, rows: seq<Upload>, dropzone: nat)
    requires StrictlyIncreasing(history, dropzone) && AllClosed(history, rows)
    ensures forall u | u in rows && Dated(u, dropzone) && u.validUntil.Some? :: u.validFrom.value < u.validUntil.value
  {
  }

  lemma SomePeriodCovers(history: seq<Upload>, rows: seq<Upload>, dropzone: nat, t: int)
    requires StrictlyIncreasing(history, dropzone) && AllClosed(history, rows)
    ensures (exists i: int :: DatedAndValid(rows, dropzone, t, i))
       <==> (exists i: int :: HasStarted(history, dropzone, t, i))
  {
    if i: int :| HasStarted(history, dropzone, t, i) {
      var m := LastStarted(history, dropzone, t, |history|);
      assert DatedAndValid(rows, dropzone, t, m);
    }
    if i: int :| DatedAndValid(rows, dropzone, t, i) {
      assert HasStarted(history, dropzone, t, i);
    }
  }

  lemma PeriodsDisjoint(history: seq<Upload>, rows: seq<Upload>, dropzone: nat, t: int)
    requires StrictlyIncreasing(history, dropzone) && AllClosed(history, rows)
    ensures forall i: int, j: int | DatedAndValid(rows, dropzone, t, i) && DatedAndValid(rows, dropzone, t, j) :: i == j
  {
    hide ClosedForm, StrictlyIncreasing;
    forall i: int, j: int | DatedAndValid(rows, dropzone, t, i) && DatedAndValid(rows, dropzone, t, j) ensures i == j {
      if i < j { EarlierHasEnded(history, dropzone, t, i, j, rows[i], rows[j]); }
      if j < i { EarlierHasEnded(history, dropzone, t, j, i, rows[j], rows[i]); }
    }
  }

  lemma EarlierHasEnded(history: seq<Upload>, dropzone: nat, t: int, i: nat, j: nat, a: Upload, b: Upload)
    requires StrictlyIncreasing(history, dropzone) && i < j < |history|
    requires ClosedForm(history, i, a) && ClosedForm(history, j, b)
    requires Dated(a, dropzone) && Dated(b, dropzone) && Covers(b, dropzone, t)
    ensures !Covers(a, dropzone, t)
  {
    assert Replaces(history, i, j);
    var k: nat :| IsNextGreater(history, i, k) && a.validUntil == history[k].validFrom;
    assert k <= j;
  }
}
