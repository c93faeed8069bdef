/** The Arrow Flight upload sessions as a state machine over the steps of concurrent calls. */
module FlightProtocol {
  import opened Prelude
  import opened Text

  type Token = nat

  /** The files of a session directory by name. */
  type Tables = map<string, Bytes>

  datatype Session = Session(dropzone: nat, touched: int, truncated: bool)

  /** A call that has found its session and is still at work. */
  datatype Call = Putting | Committing

  /** `sessions` holds every session ever opened, by the token minted for it; `live` is the
      key set of the shared dictionary, `calls` the calls in progress, `swept` what the
      sweeper has popped but not yet discarded, `disk` the session directories. */
  datatype State = State(
    sessions: map<Token, Session>, live: set<Token>, calls: map<Token, Call>,
    swept: set<Token>, disk: map<Token, Tables>)

  const Initial := State(map[], {}, map[], {}, map[])

  /** `PutAbort` is a put that fails before it writes, `PutTorn` one whose write raises and
      leaves something, or nothing, under the name it was writing to. */
  datatype Event =
    | Login(token: Token, dropzone: nat, now: int)
    | PutBegin(token: Token, now: int)
    | PutEnd(token: Token, path: string, table: Bytes, cancelled: bool)
    | PutAbort(token: Token)
    | PutTorn(token: Token, path: string, left: Option<Bytes>)
    | CommitBegin(token: Token, action: string, now: int)
    | CommitEnd(token: Token, accepted: bool)
    | SweepPop(now: int, timeout: int)
    | SweepDiscard(token: Token)

  /** What the caller of a step sees. `Skipped` marks an event the assumptions rule out: a
      token minted twice, a second call on a busy token, an end without its beginning. */
  datatype Response =
    | Skipped
    | Opened
    | Unauthenticated
    | Began
    | Acknowledged
    | BrokenOff
    | CallFailed
    | Torn
    | UnknownAction
    | Refused
    | Stored(dropzone: nat, tables: Tables)
    | Expired(tokens: set<Token>)
    | Discarded

  function FileName(path: string): string {
    PathName(path) + ".parquet"
  }

  function ExpiredTokens(s: State, now: int, timeout: int): set<Token> {
    set t | t in s.live && t in s.sessions && now - s.sessions[t].touched > timeout
  }

  /** What a failed write leaves of the file of a name. */
  function Leave(tables: Tables, name: string, left: Option<Bytes>): Tables {
    if left.Some? then tables[name := left.value] else tables - {name}
  }

  /** Lookup and touch, one atomic step. */
  function Touch(s: State, t: Token, now: int): State {
    if t in s.sessions then s.(sessions := s.sessions[t := s.sessions[t].(touched := now)]) else s
  }

  function Step(s: State, e: Event): (State, Response) {
    match e
    case Login(t, dropzone, now) =>
      if t in s.sessions then (s, Skipped)
      else
        var opening := s.(sessions := s.sessions[t := Session(dropzone, now, false)]);
        (opening.(live := s.live + {t}, disk := s.disk[t := map[]]), Opened)
    case PutBegin(t, now) =>
      if t in s.calls then (s, Skipped)
      else if t !in s.live then (s, Unauthenticated)
      else (Touch(s, t, now).(calls := s.calls[t := Putting]), Began)
    case PutEnd(t, path, table, cancelled) =>
      if t !in s.calls || s.calls[t] != Putting || t !in s.sessions then (s, Skipped)
      else
        var done := s.(calls := s.calls - {t});
        if cancelled then (done.(sessions := s.sessions[t := s.sessions[t].(truncated := true)]), BrokenOff)
        else if t !in s.disk then (done, CallFailed)
        else (done.(disk := s.disk[t := s.disk[t][FileName(path) := table]]), Acknowledged)
    case PutAbort(t) =>
      if t !in s.calls || s.calls[t] != Putting then (s, Skipped) else (s.(calls := s.calls - {t}), CallFailed)
    case PutTorn(t, path, left) =>
      if t !in s.calls || s.calls[t] != Putting then (s, Skipped)
      else
        var done := s.(calls := s.calls - {t});
        if t !in s.disk then (done, CallFailed)
        else (done.(disk := s.disk[t := Leave(s.disk[t], FileName(path), left)]), Torn)
    case CommitBegin(t, action, now) =>
      if t in s.calls then (s, Skipped)
      else if t !in s.live then (s, Unauthenticated)
      else if action != "commit" then (Touch(s, t, now), UnknownAction)
      else (Touch(s, t, now).(live := s.live - {t}, calls := s.calls[t := Committing]), Began)
    case CommitEnd(t, accepted) =>
      if t !in s.calls || s.calls[t] != Committing || t !in s.sessions || t !in s.disk then (s, Skipped)
      else
        var done := s.(calls := s.calls - {t}, disk := s.disk - {t});
        if s.sessions[t].truncated || s.disk[t] == map[] || !accepted then (done, Refused)
        else (done, Stored(s.sessions[t].dropzone, s.disk[t]))
    case SweepPop(now, timeout) =>
      var expired := ExpiredTokens(s, now, timeout);
      (s.(live := s.live - expired, swept := s.swept + expired), Expired(expired))
    case SweepDiscard(t) =>
      if t !in s.swept then (s, Skipped) else (s.(swept := s.swept - {t}, disk := s.disk - {t}), Discarded)
  }

  // ----- what clients see -----

  type Log = seq<(Event, Response)>

  /** The last table acknowledged under each name, as the clients of `t` saw it. */
  function AckedTables(log: Log, t: Token): Tables {
    if log == [] then map[]
    else
      var before := AckedTables(log[..|log| - 1], t);
      match log[|log| - 1]
      case (PutEnd(u, path, table, _), Acknowledged) => if u == t then before[FileName(path) := table] else before
      case _ => before
  }

  /** The files of the session, failed writes included. */
  function HeldTables(log: Log, t: Token): Tables {
    if log == [] then map[]
    else
      var before := HeldTables(log[..|log| - 1], t);
      match log[|log| - 1]
      case (PutEnd(u, path, table, _), Acknowledged) => if u == t then before[FileName(path) := table] else before
      case (PutTorn(u, path, left), Torn) => if u == t then Leave(before, FileName(path), left) else before
      case _ => before
  }

  /** What the last write under a name left, if that write failed. */
  function LastTorn(log: Log, t: Token, name: string): Option<Option<Bytes>> {
    if log == [] then None
    else
      var before := LastTorn(log[..|log| - 1], t, name);
      match log[|log| - 1]
      case (PutEnd(u, path, _, _), Acknowledged) => if u == t && FileName(path) == name then None else before
      case (PutTorn(u, path, left), Torn) => if u == t && FileName(path) == name then Some(left) else before
      case _ => before
  }

  function TableAt(tables: Tables, name: string): Option<Bytes> {
    if name in tables then Some(tables[name]) else None
  }

  /** Whether a table put under `t` was reported broken off. */
  predicate SawBroken(log: Log, t: Token) {
    log != [] && (SawBroken(log[..|log| - 1], t)
                  || (log[|log| - 1].1.BrokenOff? && log[|log| - 1].0.PutEnd? && log[|log| - 1].0.token == t))
  }

  predicate WasSwept(log: Log, t: Token) {
    log != [] && (WasSwept(log[..|log| - 1], t) || (log[|log| - 1].1.Expired? && t in log[|log| - 1].1.tokens))
  }

  /** What was stored under `t`, the dropzone and the tables, one entry per upload. */
  function StoredUploads(log: Log, t: Token): seq<(nat, Tables)> {
    if log == [] then []
    else
      var before := StoredUploads(log[..|log| - 1], t);
      match log[|log| - 1]
      case (CommitEnd(u, _), Stored(dropzone, tables)) => if u == t then before + [(dropzone, tables)] else before
      case _ => before
  }

  /** The dropzone the login that minted `t` was for. */
  function LoggedInTo(log: Log, t: Token): Option<nat> {
    if log == [] then None
    else match log[|log| - 1]
      case (Login(u, dropzone, _), Opened) => if u == t then Some(dropzone) else LoggedInTo(log[..|log| - 1], t)
      case _ => LoggedInTo(log[..|log| - 1], t)
  }

  /** When a call last presented `t` and was let in. */
  function LastCall(log: Log, t: Token): int {
    if log == [] then 0
    else match log[|log| - 1]
      case (Login(u, _, now), Opened) => if u == t then now else LastCall(log[..|log| - 1], t)
      case (PutBegin(u, now), Began) => if u == t then now else LastCall(log[..|log| - 1], t)
      case (CommitBegin(u, _, now), Began) => if u == t then now else LastCall(log[..|log| - 1], t)
      case (CommitBegin(u, _, now), UnknownAction) => if u == t then now else LastCall(log[..|log| - 1], t)
      case _ => LastCall(log[..|log| - 1], t)
  }

  /** A run from the start, together with everything its callers saw. */
  function Run(events: seq<Event>): (State, Log) {
    if events == [] then (Initial, [])
    else
      var n := |events| - 1;
      var (s, log) := Run(events[..n]);
      var (s', response) := Step(s, events[n]);
      (s', log + [(events[n], response)])
  }

  // ----- safety -----

  predicate IsCommitting(s: State, t: Token) {
    t in s.calls && s.calls[t] == Committing
  }

  /** The token's place in the state: never opened, live, being committed, or gone. */
  predicate Placed(s: State, t: Token) {
    && (t !in s.sessions ==> t !in s.live && t !in s.calls && t !in s.swept && t !in s.disk)
    && (t in s.live ==> t in s.disk && t !in s.swept && !IsCommitting(s, t))
    && (IsCommitting(s, t) ==> t in s.disk && t !in s.swept)
    && (t in s.disk ==> t in s.live || IsCommitting(s, t) || t in s.swept)
  }

  /** Nobody has seen anything of a token not yet minted. */
  predicate NothingSeen(s: State, log: Log, t: Token) {
    t !in s.sessions ==>
      && AckedTables(log, t) == map[] && HeldTables(log, t) == map[]
      && !SawBroken(log, t) && !WasSwept(log, t) && StoredUploads(log, t) == []
  }

  /** What a live or committing session holds is what its puts left. */
  predicate HoldsWhatWasSeen(s: State, log: Log, t: Token) {
    t in s.live || IsCommitting(s, t) ==>
      && t in s.sessions && t in s.disk
      && s.disk[t] == HeldTables(log, t) && s.sessions[t].truncated == SawBroken(log, t)
      && LoggedInTo(log, t) == Some(s.sessions[t].dropzone) && LastCall(log, t) == s.sessions[t].touched
      && !WasSwept(log, t) && StoredUploads(log, t) == []
  }

  /** A token that has stored is gone, and stored exactly what its puts left. */
  predicate StoredWhatWasSeen(s: State, log: Log, t: Token) {
    StoredUploads(log, t) != [] ==>
      && t !in s.live && t !in s.calls && t !in s.swept
      && t in s.sessions && LoggedInTo(log, t).Some?
      && StoredUploads(log, t) == [(LoggedInTo(log, t).value, HeldTables(log, t))]
      && HeldTables(log, t) != map[] && !SawBroken(log, t) && !WasSwept(log, t)
  }

  /** What the state remembers of a token is what its calls did. */
  predicate Remembered(s: State, log: Log, t: Token) {
    NothingSeen(s, log, t) && HoldsWhatWasSeen(s, log, t) && StoredWhatWasSeen(s, log, t)
  }

  lemma StepKeepsPlace(s: State, e: Event, t: Token)
    requires Placed(s, t)
    ensures Placed(Step(s, e).0, t)
  {
  }

  /** A step that finds the session of its token, or opens it. */
  predicate LetIn(e: Event, r: Response) {
    (e.Login? && r.Opened?) || (e.PutBegin? && r.Began?) || (e.CommitBegin? && (r.Began? || r.UnknownAction?))
  }

  /** How one more entry changes what the clients of a token have seen. */
  lemma LogGrows(log: Log, e: Event, r: Response, t: Token)
    ensures var longer := log + [(e, r)];
      && AckedTables(longer, t) == (if e.PutEnd? && e.token == t && r.Acknowledged?
                                    then AckedTables(log, t)[FileName(e.path) := e.table] else AckedTables(log, t))
      && HeldTables(longer, t) == (if e.PutEnd? && e.token == t && r.Acknowledged?
                                   then HeldTables(log, t)[FileName(e.path) := e.table]
                                   else if e.PutTorn? && e.token == t && r.Torn?
                                   then Leave(HeldTables(log, t), FileName(e.path), e.left)
                                   else HeldTables(log, t))
      && SawBroken(longer, t) == (SawBroken(log, t) || (e.PutEnd? && e.token == t && r.BrokenOff?))
      && WasSwept(longer, t) == (WasSwept(log, t) || (r.Expired? && t in r.tokens))
      && StoredUploads(longer, t) == (if e.CommitEnd? && e.token == t && r.Stored?
                                      then StoredUploads(log, t) + [(r.dropzone, r.tables)] else StoredUploads(log, t))
      && LoggedInTo(longer, t) == (if e.Login? && e.token == t && r.Opened?
                                   then Some(e.dropzone) else LoggedInTo(log, t))
      && LastCall(longer, t) == (if LetIn(e, r) && e.token == t then e.now else LastCall(log, t))
  {
    var longer := log + [(e, r)];
    assert longer[..|longer| - 1] == log;
  }

  lemma StepSeesNothing(s: State, log: Log, e: Event, t: Token)
    requires Placed(s, t) && Remembered(s, log, t)
    ensures NothingSeen(Step(s, e).0, log + [(e, Step(s, e).1)], t)
  {
    hide AckedTables, HeldTables, Leave, SawBroken, WasSwept, StoredUploads, LoggedInTo, LastCall, FileName;
    LogGrows(log, e, Step(s, e).1, t);
  }

  lemma StepHolds(s: State, log: Log, e: Event, t: Token)
    requires Placed(s, t) && Remembered(s, log, t)
    ensures HoldsWhatWasSeen(Step(s, e).0, log + [(e, Step(s, e).1)], t)
  {
    hide AckedTables, HeldTables, Leave, SawBroken, WasSwept, StoredUploads, LoggedInTo, LastCall, FileName;
    LogGrows(log, e, Step(s, e).1, t);
  }

  lemma StepStores(s: State, log: Log, e: Event, t: Token)
    requires Placed(s, t) && Remembered(s, log, t)
    ensures StoredWhatWasSeen(Step(s, e).0, log + [(e, Step(s, e).1)], t)
  {
    hide AckedTables, HeldTables, Leave, SawBroken, WasSwept, StoredUploads, LoggedInTo, LastCall, FileName;
    LogGrows(log, e, Step(s, e).1, t);
  }

  /** Every step, of whatever call, keeps what the state remembers of every token. */
  lemma StepRemembers(s: State, log: Log, e: Event, t: Token)
    requires Placed(s, t) && Remembered(s, log, t)
    ensures Remembered(Step(s, e).0, log + [(e, Step(s, e).1)], t)
  {
    StepSeesNothing(s, log, e, t);
    StepHolds(s, log, e, t);
    StepStores(s, log, e, t);
  }

  lemma {:induction false} RunRemembers(events: seq<Event>, t: Token)
    ensures var (s, log) := Run(events); Placed(s, t) && Remembered(s, log, t)
  {
    if events != [] {
      var n := |events| - 1;
      RunRemembers(events[..n], t);
      var (s, log) := Run(events[..n]);
      StepKeepsPlace(s, events[n], t);
      StepRemembers(s, log, events[n], t);
    }
  }

  /** Under each name the session holds what a failed last write left there, and otherwise
      the last table acknowledged. */
  lemma {:induction false} HeldAt(log: Log, t: Token, name: string)
    ensures TableAt(HeldTables(log, t), name) ==
      if LastTorn(log, t, name).Some? then LastTorn(log, t, name).value else TableAt(AckedTables(log, t), name)
  {
    if log != [] { HeldAt(log[..|log| - 1], t, name); }
  }

  /** If the last write under the name failed, it left what was last acknowledged there. */
  predicate LeftAsAcknowledged(log: Log, t: Token, name: string) {
    LastTorn(log, t, name).Some? ==> LastTorn(log, t, name).value == TableAt(AckedTables(log, t), name)
  }

  /** The session holds exactly what was acknowledged if and only if every failed last write
      left the file as it had been acknowledged; so in particular if no write failed. */
  lemma HeldIsAcknowledgedIff(log: Log, t: Token)
    ensures HeldTables(log, t) == AckedTables(log, t) <==> forall name :: LeftAsAcknowledged(log, t, name)
  {
    hide HeldTables, AckedTables, LastTorn;
    var held, acked := HeldTables(log, t), AckedTables(log, t);
    forall name ensures LeftAsAcknowledged(log, t, name) <==> TableAt(held, name) == TableAt(acked, name) {
      HeldAt(log, t, name);
    }
    if forall name :: LeftAsAcknowledged(log, t, name) {
      forall name ensures name in held <==> name in acked
        ensures name in held && name in acked ==> held[name] == acked[name]
      {
        assert LeftAsAcknowledged(log, t, name);
        assert TableAt(held, name) == TableAt(acked, name);
      }
    }
  }

  lemma {:induction false} NoWriteFailed(log: Log, t: Token, name: string)
    requires forall k | 0 <= k < |log| :: !log[k].1.Torn?
    ensures LeftAsAcknowledged(log, t, name) && LastTorn(log, t, name).None?
  {
    if log != [] {
      var before := log[..|log| - 1];
      forall k | 0 <= k < |before| ensures !before[k].1.Torn? { assert before[k] == log[k]; }
      NoWriteFailed(before, t, name);
    }
  }

  /** Over every run a token stores at most once, to the dropzone it was minted for, and no
      session that saw a table break off or was swept is ever stored. What it stores is
      exactly the last complete table per name acknowledged under it, if and only if no
      failed write was the last under its name and changed what had been acknowledged. */
  lemma StoredExactlyAcknowledged(events: seq<Event>, t: Token)
    ensures var log := Run(events).1;
      StoredUploads(log, t) == []
      || (LoggedInTo(log, t).Some? && !SawBroken(log, t) && !WasSwept(log, t)
          && exists tables ::
            && tables != map[] && StoredUploads(log, t) == [(LoggedInTo(log, t).value, tables)]
            && (tables == AckedTables(log, t) <==> forall name :: LeftAsAcknowledged(log, t, name)))
  {
    hide Run;
    RunRemembers(events, t);
    HeldIsAcknowledgedIff(Run(events).1, t);
  }

  /** In a run in which no write failed, whatever was stored is what was acknowledged. */
  lemma IntactRunStoresAcknowledged(events: seq<Event>, t: Token)
    requires forall k | 0 <= k < |Run(events).1| :: !Run(events).1[k].1.Torn?
    ensures var log := Run(events).1;
      StoredUploads(log, t) == []
      || (LoggedInTo(log, t).Some? && AckedTables(log, t) != map[]
          && StoredUploads(log, t) == [(LoggedInTo(log, t).value, AckedTables(log, t))])
  {
    hide Run, LastTorn, AckedTables, StoredUploads;
    StoredExactlyAcknowledged(events, t);
    forall name ensures LeftAsAcknowledged(Run(events).1, t, name) { NoWriteFailed(Run(events).1, t, name); }
  }

  lemma RunSnoc(events: seq<Event>, e: Event)
    ensures var (s, log) := Run(events);
      Run(events + [e]) == (Step(s, e).0, log + [(e, Step(s, e).1)])
  {
    assert (events + [e])[..|events|] == events;
  }

  /** A live token no call is at work on. */
  predicate Idle(s: State, t: Token) {
    t in s.live && t !in s.calls
  }

  lemma RunTwoMore(events: seq<Event>, e1: Event, e2: Event)
    ensures var (s, log) := Run(events);
      var (s1, r1) := Step(s, e1);
      var (s2, r2) := Step(s1, e2);
      Run(events + [e1, e2]) == (s2, log + [(e1, r1)] + [(e2, r2)])
  {
    hide Step;
    RunSnoc(events, e1);
    RunSnoc(events + [e1], e2);
    assert events + [e1] + [e2] == events + [e1, e2];
  }

  lemma LoginOpens(t: Token, dropzone: nat, now: int)
    ensures var (s, log) := Run([Login(t, dropzone, now)]);
      Idle(s, t) && HeldTables(log, t) == map[] && AckedTables(log, t) == map[] && !SawBroken(log, t)
      && LoggedInTo(log, t) == Some(dropzone)
  {
    var e := Login(t, dropzone, now);
    RunSnoc([], e);
    assert [] + [e] == [e];
    LogGrows([], e, Opened, t);
  }

  /** A whole table put on an idle token. */
  lemma PutGoesThrough(events: seq<Event>, t: Token, path: string, table: Bytes, now: int)
    requires Idle(Run(events).0, t)
    ensures var (s, log) := Run(events);
      var (s', log') := Run(events + [PutBegin(t, now), PutEnd(t, path, table, false)]);
      && Idle(s', t) && HeldTables(log', t) == HeldTables(log, t)[FileName(path) := table]
      && AckedTables(log', t) == AckedTables(log, t)[FileName(path) := table]
      && SawBroken(log', t) == SawBroken(log, t) && LoggedInTo(log', t) == LoggedInTo(log, t)
  {
    RunRemembers(events, t);
    RunTwoMore(events, PutBegin(t, now), PutEnd(t, path, table, false));
    hide Run, AckedTables, HeldTables, Leave, SawBroken, WasSwept, StoredUploads, LoggedInTo, LastCall, FileName;
    var log := Run(events).1;
    LogGrows(log, PutBegin(t, now), Began, t);
    LogGrows(log + [(PutBegin(t, now), Began)], PutEnd(t, path, table, false), Acknowledged, t);
  }

  /** A put on an idle token whose write fails: nothing is acknowledged, and the file of its
      name is whatever the failure leaves. */
  lemma PutFails(events: seq<Event>, t: Token, path: string, left: Option<Bytes>, now: int)
    requires Idle(Run(events).0, t)
    ensures var (s, log) := Run(events);
      var (s', log') := Run(events + [PutBegin(t, now), PutTorn(t, path, left)]);
      && Idle(s', t) && HeldTables(log', t) == Leave(HeldTables(log, t), FileName(path), left)
      && AckedTables(log', t) == AckedTables(log, t)
      && SawBroken(log', t) == SawBroken(log, t) && LoggedInTo(log', t) == LoggedInTo(log, t)
  {
    RunRemembers(events, t);
    RunTwoMore(events, PutBegin(t, now), PutTorn(t, path, left));
    hide Run, AckedTables, HeldTables, Leave, SawBroken, WasSwept, StoredUploads, LoggedInTo, LastCall, FileName;
    var log := Run(events).1;
    LogGrows(log, PutBegin(t, now), Began, t);
    LogGrows(log + [(PutBegin(t, now), Began)], PutTorn(t, path, left), Torn, t);
  }

  /** An accepted commit on an idle token stores what the session holds. */
  lemma CommitStoresHeld(events: seq<Event>, t: Token, now: int)
    requires Idle(Run(events).0, t) && !SawBroken(Run(events).1, t)
    ensures var log, log' := Run(events).1, Run(events + [CommitBegin(t, "commit", now), CommitEnd(t, true)]).1;
      && AckedTables(log', t) == AckedTables(log, t) && LoggedInTo(log, t).Some?
      && StoredUploads(log', t) == if HeldTables(log, t) == map[] then []
                                   else [(LoggedInTo(log, t).value, HeldTables(log, t))]
  {
    RunRemembers(events, t);
    RunTwoMore(events, CommitBegin(t, "commit", now), CommitEnd(t, true));
    hide Run, AckedTables, HeldTables, Leave, SawBroken, WasSwept, StoredUploads, LoggedInTo, LastCall, FileName;
    var (s, log) := Run(events);
    var begun := Step(s, CommitBegin(t, "commit", now)).0;
    LogGrows(log, CommitBegin(t, "commit", now), Began, t);
    LogGrows(log + [(CommitBegin(t, "commit", now), Began)], CommitEnd(t, true), Step(begun, CommitEnd(t, true)).1, t);
  }

  /** A failed overwrite loses an acknowledged table: after two tables were acknowledged and a
      second put of the first one failed and left nothing, the commit stores the other alone. */
  lemma FailedOverwriteLosesTable(t: Token, dropzone: nat, first: string, second: string, a: Bytes, b: Bytes, now: int)
    requires FileName(first) != FileName(second)
    ensures var put := [Login(t, dropzone, now)] + [PutBegin(t, now), PutEnd(t, first, a, false)]
                       + [PutBegin(t, now), PutEnd(t, second, b, false)] + [PutBegin(t, now), PutTorn(t, first, None)];
      var log := Run(put + [CommitBegin(t, "commit", now), CommitEnd(t, true)]).1;
      && AckedTables(log, t) == map[FileName(first) := a, FileName(second) := b]
      && StoredUploads(log, t) == [(dropzone, map[FileName(second) := b])]
  {
    hide Run, Step, FileName, AckedTables, HeldTables, SawBroken, StoredUploads, LoggedInTo;
    var e1 := [Login(t, dropzone, now)];
    LoginOpens(t, dropzone, now);
    PutGoesThrough(e1, t, first, a, now);
    var e2 := e1 + [PutBegin(t, now), PutEnd(t, first, a, false)];
    PutGoesThrough(e2, t, second, b, now);
    var e3 := e2 + [PutBegin(t, now), PutEnd(t, second, b, false)];
    PutFails(e3, t, first, None, now);
    var e4 := e3 + [PutBegin(t, now), PutTorn(t, first, None)];
    CommitStoresHeld(e4, t, now);
    assert HeldTables(Run(e4).1, t) == map[FileName(second) := b];
    assert FileName(second) in map[FileName(second) := b];
  }

  lemma {:induction false} SawBrokenStays(log: Log, k: nat, t: Token)
    requires k <= |log| && SawBroken(log[..k], t)
    ensures SawBroken(log, t)
  {
    if k == |log| {
      assert log[..k] == log;
    } else {
      assert log[..|log| - 1][..k] == log[..k];
      SawBrokenStays(log[..|log| - 1], k, t);
    }
  }

  lemma {:induction false} RunPrefix(events: seq<Event>, k: nat)
    requires k <= |events|
    ensures |Run(events).1| == |events| && Run(events[..k]).1 == Run(events).1[..k]
  {
    if k == |events| {
      assert events[..k] == events;
      if events != [] { RunPrefix(events[..|events| - 1], |events| - 1); }
    } else {
      var n := |events| - 1;
      RunPrefix(events[..n], k);
      assert events[..n][..k] == events[..k];
    }
  }

  /** The end of a put in progress on `t` that found its client gone. */
  ghost predicate BreaksOff(events: seq<Event>, k: nat, t: Token) {
    && k < |events| && events[k].PutEnd? && events[k].token == t && events[k].cancelled
    && t in Run(events[..k]).0.calls && Run(events[..k]).0.calls[t] == Putting
  }

  /** Over every run, once a table broke off on its way nothing is ever stored under its
      token, whatever commits follow. */
  lemma BrokenOffIsNeverStored(events: seq<Event>, k: nat, t: Token)
    requires BreaksOff(events, k, t)
    ensures StoredUploads(Run(events).1, t) == []
  {
    RunRemembers(events[..k], t);
    var (s, log) := Run(events[..k]);
    RunSnoc(events[..k], events[k]);
    assert events[..k] + [events[k]] == events[..k + 1];
    LogGrows(log, events[k], Step(s, events[k]).1, t);
    hide Step;
    RunPrefix(events, k + 1);
    SawBrokenStays(Run(events).1, k + 1, t);
    StoredExactlyAcknowledged(events, t);
  }

  /** Where a file of a session directory came from: a table that arrived whole, or what a
      failed write left. */
  ghost predicate CameFrom(e: Event, t: Token, name: string, content: Bytes) {
    || (e.PutEnd? && e.token == t && !e.cancelled && FileName(e.path) == name && e.table == content)
    || (e.PutTorn? && e.token == t && FileName(e.path) == name && e.left == Some(content))
  }

  /** Over every run no table that broke off is ever in a session's directory. */
  lemma {:induction false} FilesCameWhole(events: seq<Event>, t: Token, name: string)
    ensures var s := Run(events).0;
      t in s.disk && name in s.disk[t] ==>
        exists k :: 0 <= k < |events| && CameFrom(events[k], t, name, s.disk[t][name])
  {
    if events != [] {
      var n := |events| - 1;
      FilesCameWhole(events[..n], t, name);
      var s, s' := Run(events[..n]).0, Run(events).0;
      assert s' == Step(s, events[n]).0;
      if t in s'.disk && name in s'.disk[t] {
        FileKeptOrPut(s, events[n], t, name);
        if !CameFrom(events[n], t, name, s'.disk[t][name]) {
          var k :| 0 <= k < |events[..n]| && CameFrom(events[..n][k], t, name, s.disk[t][name]);
          assert CameFrom(events[k], t, name, s'.disk[t][name]);
        }
      }
    }
  }

  lemma FileKeptOrPut(s: State, e: Event, t: Token, name: string)
    ensures var s' := Step(s, e).0;
      t in s'.disk && name in s'.disk[t] ==>
        CameFrom(e, t, name, s'.disk[t][name])
        || (t in s.disk && name in s.disk[t] && s.disk[t][name] == s'.disk[t][name])
  {
    hide FileName, ExpiredTokens;
  }

  /** Only `commit` ends a live session: any other action is refused and leaves it live with
      its files. A token that is not live gets nothing done. */
  lemma OnlyCommitEnds(s: State, t: Token, action: string, now: int)
    requires t !in s.calls && t in s.sessions
    ensures var (s', r) := Step(s, CommitBegin(t, action, now));
      && (r == Unauthenticated <==> t !in s.live) && (r == Unauthenticated ==> s' == s)
      && (r == UnknownAction <==> t in s.live && action != "commit")
      && (r == Began <==> t in s.live && action == "commit")
      && (t in s'.live <==> t in s.live && action != "commit") && s'.disk == s.disk
  {
  }

  /** A table is kept under the last part of its path, so tables of one name and no others
      replace each other. */
  lemma FileNameOfPath(directories: string, name: string, path: string)
    requires name != "" && name != "." && '/' !in name
    ensures FileName(directories + "/" + name) == name + ".parquet" && FileName(name) == name + ".parquet"
    ensures FileName(path) == FileName(directories + "/" + name) <==> PathName(path) == name
  {
    PathNameDropsDirectories(directories, name);
    var a, b := PathName(path) + ".parquet", name + ".parquet";
    assert a[..|PathName(path)|] == PathName(path) && b[..|name|] == name;
    if a == b { assert |PathName(path)| == |name|; }
  }

  /** The other direction: a commit that reaches its end stores if and only if its puts left
      some table, none broke off, and the pipeline accepts. */
  lemma CommitStoresIff(events: seq<Event>, t: Token, accepted: bool)
    requires IsCommitting(Run(events).0, t)
    ensures var (s, log) := Run(events);
      Step(s, CommitEnd(t, accepted)).1.Stored? <==> HeldTables(log, t) != map[] && !SawBroken(log, t) && accepted
  {
    RunRemembers(events, t);
  }

  /** Every session directory on disk belongs to a live token, a call in progress or a
      session the sweeper is about to discard; and every live session has one. */
  lemma DirectoriesAccounted(events: seq<Event>, t: Token)
    ensures var s := Run(events).0;
      && (t in s.disk ==> t in s.live || t in s.calls || t in s.swept)
      && (t in s.live ==> t in s.disk)
  {
    RunRemembers(events, t);
  }

  lemma StepNeverRevives(s: State, e: Event, t: Token)
    requires t in s.sessions && t !in s.live
    ensures t in Step(s, e).0.sessions && t !in Step(s, e).0.live
  {
  }

  /** A token that has left the dictionary never returns to it. */
  lemma {:induction false} RemovedNeverReturns(events: seq<Event>, more: seq<Event>, t: Token)
    requires t in Run(events).0.sessions && t !in Run(events).0.live
    ensures t in Run(events + more).0.sessions && t !in Run(events + more).0.live
  {
    hide Step;
    if more == [] {
      assert events + more == events;
    } else {
      var n := |more| - 1;
      RemovedNeverReturns(events, more[..n], t);
      assert (events + more)[..|events + more| - 1] == events + more[..n];
      assert (events + more)[|events + more| - 1] == more[n];
      StepNeverRevives(Run(events + more[..n]).0, more[n], t);
    }
  }

  /** Once a token is gone every later call that presents it is refused. */
  lemma RemovedIsUnauthenticated(events: seq<Event>, more: seq<Event>, t: Token, now: int, action: string)
    requires t in Run(events).0.sessions && t !in Run(events).0.live && t !in Run(events + more).0.calls
    ensures Step(Run(events + more).0, PutBegin(t, now)).1 == Unauthenticated
    ensures Step(Run(events + more).0, CommitBegin(t, action, now)).1 == Unauthenticated
  {
    hide Run;
    RemovedNeverReturns(events, more, t);
  }

  /** A sweep takes exactly the live tokens that no call has presented for longer than the
      timeout. */
  lemma SweepTakesIdle(events: seq<Event>, now: int, timeout: int, t: Token)
    requires t in Run(events).0.live
    ensures t in Step(Run(events).0, SweepPop(now, timeout)).0.live <==> now - LastCall(Run(events).1, t) <= timeout
  {
    RunRemembers(events, t);
  }
}
