/** The Flight endpoint as it keeps its sessions: a shared dictionary of session objects,
    which a call goes on using after the sweeper has popped them. Every method performs
    exactly one step of the protocol. */
module FlightServer {
  import opened Prelude
  import P = FlightProtocol

  /** One upload's session; its directory is found on disk under its token. */
  class Session {
    const dropzone: nat
    var touched: int
    var truncated: bool

    constructor (dropzone: nat, now: int)
      ensures this.dropzone == dropzone && touched == now && !truncated
    {
      this.dropzone, touched, truncated := dropzone, now, false;
    }
  }

  ghost predicate AllPlaced(s: P.State) {
    forall t: P.Token :: P.Placed(s, t)
  }

  lemma StepKeepsAllPlaced(s: P.State, e: P.Event)
    requires AllPlaced(s)
    ensures AllPlaced(P.Step(s, e).0)
  {
    forall t: P.Token ensures P.Placed(P.Step(s, e).0, t) { P.StepKeepsPlace(s, e, t); }
  }

  lemma LoginStep(s: P.State, t: P.Token, dropzone: nat, now: int)
    requires t !in s.sessions
    ensures P.Step(s, P.Login(t, dropzone, now)).0
         == P.State(s.sessions[t := P.Session(dropzone, now, false)], s.live + {t}, s.calls, s.swept,
                    s.disk[t := map[]])
  {
  }

  /** The dictionary names sessions by the token minted for them, and no two tokens share a
      session object. */
  ghost predicate Linked(sessions: map<P.Token, Session>, minted: map<P.Token, Session>) {
    && (forall t | t in sessions :: t in minted && sessions[t] == minted[t])
    && (forall t, u | t in minted && u in minted && minted[t] == minted[u] :: t == u)
  }

  lemma LinkedNext(sessions: map<P.Token, Session>, minted: map<P.Token, Session>, token: P.Token, session: Session)
    requires Linked(sessions, minted) && token !in minted && session !in minted.Values
    ensures Linked(sessions[token := session], minted[token := session])
    ensures minted[token := session].Values - minted.Values <= {session}
  {
    assert forall t | t in minted :: minted[t] in minted.Values;
  }

  lemma PlacedAt(s: P.State, t: P.Token)
    requires AllPlaced(s)
    ensures P.Placed(s, t)
  {
  }

  class Server {
    var sessions: map<P.Token, Session>
    var disk: map<P.Token, P.Tables>
    ghost var minted: map<P.Token, Session>
    ghost var calls: map<P.Token, P.Call>
    ghost var swept: set<P.Token>

    ghost function SessionsView(): map<P.Token, P.Session>
      reads this, minted.Values
    {
      map t | t in minted :: P.Session(minted[t].dropzone, minted[t].touched, minted[t].truncated)
    }

    ghost function View(): P.State
      reads this, minted.Values
    {
      P.State(SessionsView(), sessions.Keys, calls, swept, disk)
    }

    /** The dictionary is linked to the sessions minted, and every token is in its place. */
    ghost predicate Valid()
      reads this, minted.Values
    {
      Linked(sessions, minted) && AllPlaced(View())
    }

    constructor ()
      ensures Valid() && View() == P.Initial && fresh(minted.Values)
    {
      sessions, disk, minted, calls, swept := map[], map[], map[], map[], {};
    }

    /** `_open_session`: a fresh token, a session and its empty directory. */
    method OpenSession(token: P.Token, dropzone: nat, now: int)
      requires Valid() && token !in minted
      modifies this
      ensures Valid() && fresh(minted.Values - old(minted.Values))
      ensures View() == P.Step(old(View()), P.Login(token, dropzone, now)).0
    {
      hide AllPlaced, Linked, P.Step;
      StepKeepsAllPlaced(View(), P.Login(token, dropzone, now));
      LoginStep(View(), token, dropzone, now);
      var session := new Session(dropzone, now);
      LinkedNext(sessions, minted, token, session);
      minted := minted[token := session];
      sessions := sessions[token := session];
      disk := disk[token := map[]];
      assert SessionsView() == old(SessionsView())[token := P.Session(dropzone, now, false)];
      assert View() == P.Step(old(View()), P.Login(token, dropzone, now)).0;
    }

    /** `_session`: finds the live session of a token and marks it used. */
    method Lookup(token: P.Token, now: int) returns (session: Session?)
      requires Valid()
      modifies minted.Values
      ensures View() == if token in sessions then P.Touch(old(View()), token, now) else old(View())
      ensures session == if token in sessions then sessions[token] else null
    {
      if token !in sessions { return null; }
      session := sessions[token];
      session.touched := now;
      assert SessionsView() == old(SessionsView())[token := old(SessionsView())[token].(touched := now)];
    }

    /** The beginning of `do_put`. */
    method BeginPut(token: P.Token, now: int) returns (session: Session?)
      requires Valid() && token !in calls
      modifies this`calls, minted.Values
      ensures Valid() && minted == old(minted)
      ensures View() == P.Step(old(View()), P.PutBegin(token, now)).0
      ensures session == null <==> P.Step(old(View()), P.PutBegin(token, now)).1 == P.Unauthenticated
      ensures session != null ==> token in calls && calls[token] == P.Putting && session == minted[token]
    {
      hide AllPlaced;
      StepKeepsAllPlaced(View(), P.PutBegin(token, now));
      session := Lookup(token, now);
      if session != null {
        calls := calls[token := P.Putting];
        assert SessionsView() == P.Touch(old(View()), token, now).sessions;
      }
    }

    /** The end of `do_put`: the whole table has been read, or the client vanished. The
        directory may have been swept away meanwhile. */
    method EndPut(token: P.Token, session: Session, path: string, table: Bytes, cancelled: bool)
      returns (response: P.Response)
      requires Valid() && token in calls && calls[token] == P.Putting && token in minted && session == minted[token]
      modifies this`calls, this`disk, session
      ensures Valid() && minted == old(minted)
      ensures (View(), response) == P.Step(old(View()), P.PutEnd(token, path, table, cancelled))
    {
      hide AllPlaced;
      StepKeepsAllPlaced(View(), P.PutEnd(token, path, table, cancelled));
      calls := calls - {token};
      if cancelled {
        session.truncated := true;
        assert SessionsView() == old(SessionsView())[token := old(SessionsView())[token].(truncated := true)];
        return P.BrokenOff;
      }
      assert SessionsView() == old(SessionsView());
      if token !in disk { return P.CallFailed; }
      disk := disk[token := disk[token][P.FileName(path) := table]];
      response := P.Acknowledged;
      assert SessionsView() == old(SessionsView()) && token in old(View()).sessions;
    }

    /** A put whose write raises, leaving a partial file, none, or the one before. */
    method FailPut(token: P.Token, path: string, left: Option<Bytes>) returns (response: P.Response)
      requires Valid() && token in calls && calls[token] == P.Putting
      modifies this`calls, this`disk
      ensures Valid() && minted == old(minted)
      ensures (View(), response) == P.Step(old(View()), P.PutTorn(token, path, left))
    {
      hide AllPlaced;
      StepKeepsAllPlaced(View(), P.PutTorn(token, path, left));
      calls := calls - {token};
      assert SessionsView() == old(SessionsView());
      if token !in disk { return P.CallFailed; }
      disk := disk[token := P.Leave(disk[token], P.FileName(path), left)];
      response := P.Torn;
      assert SessionsView() == old(SessionsView());
    }

    /** The beginning of `do_action`: only a commit takes the session out of the dictionary. */
    method BeginAction(token: P.Token, action: string, now: int) returns (session: Session?, response: P.Response)
      requires Valid() && token !in calls
      modifies this`calls, this`sessions, minted.Values
      ensures Valid() && minted == old(minted)
      ensures (View(), response) == P.Step(old(View()), P.CommitBegin(token, action, now))
      ensures session != null <==> response == P.Began
      ensures session != null ==>
        token in calls && calls[token] == P.Committing && token in minted && session == minted[token]
    {
      hide AllPlaced;
      StepKeepsAllPlaced(View(), P.CommitBegin(token, action, now));
      session := Lookup(token, now);
      if session == null { return null, P.Unauthenticated; }
      if action != "commit" { return null, P.UnknownAction; }
      sessions := sessions - {token};
      calls := calls[token := P.Committing];
      assert SessionsView() == P.Touch(old(View()), token, now).sessions;
      assert sessions.Keys == old(sessions.Keys) - {token};
      response := P.Began;
    }

    /** The rest of a commit: refused or handed to the pipeline, the directory is discarded
        either way. */
    method EndCommit(token: P.Token, session: Session, accepted: bool) returns (response: P.Response)
      requires Valid() && token in calls && calls[token] == P.Committing && token in minted && session == minted[token]
      modifies this`calls, this`disk
      ensures Valid() && minted == old(minted)
      ensures (View(), response) == P.Step(old(View()), P.CommitEnd(token, accepted))
    {
      hide AllPlaced;
      StepKeepsAllPlaced(View(), P.CommitEnd(token, accepted));
      PlacedAt(View(), token);
      var tables := disk[token];
      if session.truncated {
        response := P.Refused;
      } else if tables == map[] {
        response := P.Refused;
      } else if !accepted {
        response := P.Refused;
      } else {
        response := P.Stored(session.dropzone, tables);
      }
      disk := disk - {token};
      calls := calls - {token};
      assert SessionsView() == old(SessionsView());
    }

    /** The locked half of `_sweep`. */
    method PopExpired(now: int, timeout: int) returns (expired: set<P.Token>)
      requires Valid()
      modifies this`sessions, this`swept
      ensures Valid() && minted == old(minted)
      ensures (View(), P.Expired(expired)) == P.Step(old(View()), P.SweepPop(now, timeout))
    {
      hide AllPlaced;
      StepKeepsAllPlaced(View(), P.SweepPop(now, timeout));
      expired := set t | t in sessions && now - sessions[t].touched > timeout;
      assert expired == P.ExpiredTokens(View(), now, timeout);
      sessions := sessions - expired;
      swept := swept + expired;
      assert SessionsView() == old(SessionsView());
      assert sessions.Keys == old(sessions.Keys) - expired;
    }

    /** The unlocked half, for one popped session. */
    method DiscardSwept(token: P.Token)
      requires Valid() && token in swept
      modifies this`disk, this`swept
      ensures Valid() && minted == old(minted)
      ensures View() == P.Step(old(View()), P.SweepDiscard(token)).0
    {
      hide AllPlaced;
      StepKeepsAllPlaced(View(), P.SweepDiscard(token));
      disk := disk - {token};
      swept := swept - {token};
      assert SessionsView() == old(SessionsView());
    }
  }
}
