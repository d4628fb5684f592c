/** The race of parallel connection attempts in net/connect.lua (section 5 of RFC 8305), as a transition system and
    as the object whose callbacks make its steps. */
module Connect {
  import opened Collections

  /** A connection object; every dialled one is new. */
  type Conn = nat

  /** What is called from here: the user's two listeners, and close on a connection. */
  datatype Call = OnConnect(conn: Conn) | OnFail(reason: string) | Close(conn: Conn)

  /** What comes in: the resolver's answer to a query (no target; a target that is refused at once; a target that is
      dialled, with more to come or not), the timer, and the two events of a connection. */
  datatype Event =
    | NoTarget(resolverError: Option<string>)
    | Refused(error: Option<string>)
    | Dialled(conn: Conn, more: bool)
    | Timer
    | Connected(conn: Conn)
    | Disconnected(conn: Conn, reason: Option<string>)

  /** conns and connected are fields of the pending connection, pending its part of the global map; queries and
      timers count the callbacks still to come; calls, seen and winner only record what happened. */
  datatype State = State(conns: set<Conn>, pending: set<Conn>, connected: bool, lastError: Option<string>,
                         queries: nat, timers: nat, calls: seq<Call>, seen: set<Conn>, winner: Option<Conn>)

  const START: State := State({}, {}, false, None, 1, 0, [], {}, None)

  function OrElse<T>(a: Option<T>, b: T): T {
    if a.Some? then a.value else b
  }

  /** Only outstanding callbacks are called, dialled connections are new, and the winner has other listeners by now. */
  predicate Enabled(s: State, e: Event) {
    match e
    case NoTarget(_) => s.queries > 0
    case Refused(_) => s.queries > 0
    case Dialled(c, _) => s.queries > 0 && c !in s.seen
    case Timer => s.timers > 0
    case Connected(c) => s.winner != Some(c)
    case Disconnected(c, _) => s.winner != Some(c)
  }

  function Step(s: State, e: Event): State
    requires Enabled(s, e)
  {
    match e
    case NoTarget(error) =>
      var reason := OrElse(s.lastError, OrElse(error, "unable to resolve service"));
      s.(queries := s.queries - 1, calls := if s.conns == {} then s.calls + [OnFail(reason)] else s.calls)
    case Refused(error) => s.(lastError := Some(OrElse(error, "unknown reason")))
    case Dialled(c, more) =>
      s.(queries := s.queries - 1, conns := s.conns + {c}, pending := s.pending + {c}, seen := s.seen + {c},
         timers := if more then s.timers + 1 else s.timers)
    case Timer => s.(timers := s.timers - 1, queries := if s.connected then s.queries else s.queries + 1)
    case Connected(c) =>
      if c !in s.pending then s.(calls := s.calls + [Close(c)])
      else if s.connected then
        s.(pending := s.pending - {c}, conns := s.conns - {c}, calls := s.calls + [Close(c)])
      else s.(pending := s.pending - {c}, connected := true, calls := s.calls + [OnConnect(c)], winner := Some(c))
    case Disconnected(c, reason) =>
      if c !in s.pending then s
      else
        var s' := s.(pending := s.pending - {c}, conns := s.conns - {c},
                     lastError := Some(OrElse(reason, "unknown reason")));
        if !s.connected && s'.conns == {} then s'.(queries := s.queries + 1) else s'
  }

  // ---------- What every step keeps ----------

  /** The connections of a race are those still undecided, and the winner. */
  predicate Tracked(s: State) {
    && s.conns == s.pending + (if s.winner.Some? then {s.winner.value} else {})
    && (s.winner.Some? ==> s.winner.value !in s.pending)
    && (s.connected <==> s.winner.Some?)
    && s.conns <= s.seen
  }

  /** onconnect was called for the winner and no other, and after it nothing but closing other connections. */
  predicate Lawful(s: State) {
    && (forall i :: 0 <= i < |s.calls| && s.calls[i].OnConnect? ==> s.winner == Some(s.calls[i].conn))
    && (s.winner.Some? ==> OnConnect(s.winner.value) in s.calls)
    && forall i, j :: 0 <= i < j < |s.calls| && s.calls[i].OnConnect? ==>
                        s.calls[j].Close? && s.calls[j] != Close(s.calls[i].conn)
  }

  /** An unconnected race has an attempt under way, or has asked for a target, or has reported that it failed. */
  predicate UnderWay(s: State) {
    s.connected || s.pending != {} || s.queries > 0 || exists i :: 0 <= i < |s.calls| && s.calls[i].OnFail?
  }

  predicate Invariant(s: State) {
    Tracked(s) && Lawful(s) && UnderWay(s)
  }

  lemma StepKeepsTracked(s: State, e: Event)
    requires Tracked(s) && Enabled(s, e)
    ensures Tracked(Step(s, e))
  {
  }

  /** A step adds at most one call. */
  lemma StepCalls(s: State, e: Event)
    requires Enabled(s, e)
    ensures var s' := Step(s, e);
            s'.calls == s.calls || (|s'.calls| == |s.calls| + 1 && s'.calls == s.calls + [s'.calls[|s.calls|]])
  {
  }

  lemma StepKeepsLawful(s: State, e: Event)
    requires Tracked(s) && Lawful(s) && Enabled(s, e)
    ensures Lawful(Step(s, e))
  {
  }

  lemma StepKeepsInvariant(s: State, e: Event)
    requires Invariant(s) && Enabled(s, e)
    ensures Invariant(Step(s, e))
    ensures s.calls <= Step(s, e).calls
    ensures s.winner.Some? ==> Step(s, e).winner == s.winner
  {
    hide Lawful;
    StepKeepsTracked(s, e);
    StepKeepsLawful(s, e);
    StepCalls(s, e);
    var s' := Step(s, e);
    if i :| 0 <= i < |s.calls| && s.calls[i].OnFail? {
      assert s'.calls[i] == s.calls[i];
    }
    if |s'.calls| > |s.calls| {
      assert s'.calls[..|s.calls|] == s.calls;
    }
  }

  // ---------- Runs ----------

  predicate Possible(s: State, run: seq<Event>)
    decreases |run|
  {
    run != [] ==> Enabled(s, run[0]) && Possible(Step(s, run[0]), run[1..])
  }

  function After(s: State, run: seq<Event>): State
    requires Possible(s, run)
    decreases |run|
  {
    if run == [] then s else After(Step(s, run[0]), run[1..])
  }

  lemma {:induction false} RunKeepsInvariant(s: State, run: seq<Event>)
    requires Invariant(s) && Possible(s, run)
    ensures Invariant(After(s, run))
    ensures s.calls <= After(s, run).calls
    ensures s.winner.Some? ==> After(s, run).winner == s.winner
    decreases |run|
  {
    if run != [] {
      hide Invariant, Enabled, Step;
      StepKeepsInvariant(s, run[0]);
      RunKeepsInvariant(Step(s, run[0]), run[1..]);
    }
  }

  /** In every run from the start onconnect is called at most once, nothing but closing of others follows it, and an
      unconnected race is under way or has failed. */
  lemma EveryRunIsLawful(run: seq<Event>)
    requires Possible(START, run)
    ensures Invariant(After(START, run))
    ensures var calls := After(START, run).calls;
            forall i, j :: 0 <= i < j < |calls| ==> !(calls[i].OnConnect? && (calls[j].OnConnect? || calls[j].OnFail?))
  {
    RunKeepsInvariant(START, run);
  }

  /** From any state, whoever connects in a run is the winner at its end or was closed. */
  lemma {:induction false} ConnectedIsDecided(s: State, run: seq<Event>, k: nat)
    requires Invariant(s) && Possible(s, run) && k < |run| && run[k].Connected?
    ensures var s' := After(s, run); s'.winner == Some(run[k].conn) || Close(run[k].conn) in s'.calls
    decreases |run|
  {
    var s1 := Step(s, run[0]);
    StepKeepsInvariant(s, run[0]);
    RunKeepsInvariant(s1, run[1..]);
    if k == 0 {
      var c := run[0].conn;
      if s1.winner != Some(c) {
        assert Close(c) == s1.calls[|s.calls|];
        assert Close(c) in After(s1, run[1..]).calls;
      }
    } else {
      ConnectedIsDecided(s1, run[1..], k - 1);
    }
  }

  /** In every run, each connection that connects is the one winner, or it is closed; once another has won it is
      closed. */
  lemma LosersAreClosed(run: seq<Event>, k: nat)
    requires Possible(START, run) && k < |run| && run[k].Connected?
    ensures var s := After(START, run);
            && (s.winner == Some(run[k].conn) || Close(run[k].conn) in s.calls)
            && (s.winner.Some? && s.winner != Some(run[k].conn) ==> Close(run[k].conn) in s.calls)
  {
    ConnectedIsDecided(START, run, k);
  }

  /** The connections that a run reports as lost. */
  function Lost(run: seq<Event>): set<Conn> {
    if run == [] then {} else (if run[0].Disconnected? then {run[0].conn} else {}) + Lost(run[1..])
  }

  /** Every dialled connection is undecided, the winner, closed or lost. */
  predicate Accounted(s: State, lost: set<Conn>) {
    forall c :: c in s.seen ==> c in s.pending || s.winner == Some(c) || Close(c) in s.calls || c in lost
  }

  lemma StepAccounts(s: State, lost: set<Conn>, e: Event)
    requires Invariant(s) && Enabled(s, e) && Accounted(s, lost)
    ensures Accounted(Step(s, e), lost + (if e.Disconnected? then {e.conn} else {}))
    ensures s.seen <= Step(s, e).seen && (e.Dialled? ==> e.conn in Step(s, e).seen)
  {
    var s' := Step(s, e);
    StepKeepsInvariant(s, e);
    forall c | Close(c) in s.calls
      ensures Close(c) in s'.calls
    {
      assert s.calls == s'.calls[..|s.calls|];
    }
    if e.Connected? && s'.winner != Some(e.conn) {
      assert s'.calls[|s.calls|] == Close(e.conn);
    }
  }

  lemma {:induction false} RunAccounts(s: State, lost: set<Conn>, run: seq<Event>)
    requires Invariant(s) && Possible(s, run) && Accounted(s, lost)
    ensures Accounted(After(s, run), lost + Lost(run))
    ensures s.seen <= After(s, run).seen
    ensures forall k :: 0 <= k < |run| && run[k].Dialled? ==> run[k].conn in After(s, run).seen
    decreases |run|
  {
    hide Invariant, Enabled, Step, Accounted;
    if run == [] {
      assert lost + {} == lost;
    } else {
      var e, rest := run[0], run[1..];
      var now := if e.Disconnected? then {e.conn} else {};
      StepKeepsInvariant(s, e);
      StepAccounts(s, lost, e);
      RunAccounts(Step(s, e), lost + now, rest);
      assert lost + now + Lost(rest) == lost + Lost(run);
      assert forall k :: 0 < k < |run| ==> run[k] == rest[k - 1];
    }
  }

  lemma {:induction false} LostWasReported(run: seq<Event>, c: Conn)
    requires c in Lost(run)
    ensures exists k :: 0 <= k < |run| && run[k].Disconnected? && run[k].conn == c
  {
    if !(run[0].Disconnected? && run[0].conn == c) {
      LostWasReported(run[1..], c);
      var k :| 0 <= k < |run[1..]| && run[1..][k].Disconnected? && run[1..][k].conn == c;
      assert run[k + 1] == run[1..][k];
    }
  }

  /** In a run that left no connection undecided, every dialled connection is the winner, was closed, or was lost. */
  lemma NoConnectionIsForgotten(run: seq<Event>, k: nat)
    requires Possible(START, run) && k < |run| && run[k].Dialled? && After(START, run).pending == {}
    ensures var s, c := After(START, run), run[k].conn;
            || s.winner == Some(c) || Close(c) in s.calls
            || exists j :: 0 <= j < |run| && run[j].Disconnected? && run[j].conn == c
  {
    RunAccounts(START, {}, run);
    if run[k].conn in Lost(run) {
      LostWasReported(run, run[k].conn);
    }
  }

  // ---------- When it is over ----------

  /** No callback is outstanding. */
  predicate Quiescent(s: State) {
    s.pending == {} && s.queries == 0 && s.timers == 0
  }

  /** The user's listeners are called no more. */
  function UserCalls(calls: seq<Call>): seq<Call> {
    if calls == [] then []
    else if calls[|calls| - 1].Close? then UserCalls(calls[..|calls| - 1])
    else UserCalls(calls[..|calls| - 1]) + [calls[|calls| - 1]]
  }

  ghost predicate Settled(s: State) {
    forall run :: Possible(s, run) ==> UserCalls(After(s, run).calls) == UserCalls(s.calls)
  }

  lemma {:induction false} NothingMore(s: State, run: seq<Event>)
    requires Invariant(s) && (s.connected || Quiescent(s)) && Possible(s, run)
    ensures UserCalls(After(s, run).calls) == UserCalls(s.calls)
    decreases |run|
  {
    if run != [] {
      var s' := Step(s, run[0]);
      StepKeepsInvariant(s, run[0]);
      assert s'.calls != s.calls ==> s'.calls[..|s.calls|] == s.calls;
      NothingMore(s', run[1..]);
    }
  }

  /** The user hears no more exactly when the race was won or no callback is outstanding; in particular reporting a
      failure settles nothing while a timer or a second query is outstanding. */
  lemma SettledWhen(s: State)
    requires Invariant(s)
    ensures Settled(s) <==> s.connected || Quiescent(s)
  {
    if s.connected || Quiescent(s) {
      forall run | Possible(s, run)
        ensures UserCalls(After(s, run).calls) == UserCalls(s.calls)
      {
        NothingMore(s, run);
      }
    } else if s.pending != {} {
      var c :| c in s.pending;
      OneMore(s, Connected(c));
    } else if s.queries > 0 {
      OneMore(s, NoTarget(None));
    } else {
      var s' := Step(s, Timer);
      assert [Timer, NoTarget(None)][1..] == [NoTarget(None)];
      OneMore(s', NoTarget(None));
      assert Possible(s, [Timer, NoTarget(None)]);
      assert After(s, [Timer, NoTarget(None)]) == After(s', [NoTarget(None)]);
    }
  }

  lemma OneMore(s: State, e: Event)
    requires Enabled(s, e) && |Step(s, e).calls| == |s.calls| + 1 && !Step(s, e).calls[|s.calls|].Close?
    requires Step(s, e).calls[..|s.calls|] == s.calls
    ensures Possible(s, [e]) && UserCalls(After(s, [e]).calls) != UserCalls(s.calls)
  {
  }

  // ---------- Every run ends ----------

  /** A step that answers a callback or settles a connection, and is not about an unknown one. */
  predicate Counts(s: State, e: Event) {
    match e
    case Connected(c) => c in s.pending
    case Disconnected(c, _) => c in s.pending
    case _ => true
  }

  /** The targets a run uses up. */
  function Targets(run: seq<Event>): nat {
    if run == [] then 0 else (if run[0].Refused? || run[0].Dialled? then 1 else 0) + Targets(run[1..])
  }

  predicate AllCount(s: State, run: seq<Event>)
    requires Possible(s, run)
    decreases |run|
  {
    run != [] ==> Counts(s, run[0]) && AllCount(Step(s, run[0]), run[1..])
  }

  function Weight(s: State): nat {
    s.queries + 2 * s.timers + 2 * |s.pending|
  }

  lemma StepLosesWeight(s: State, e: Event)
    requires Enabled(s, e) && Counts(s, e)
    ensures Weight(Step(s, e)) + 1 <= Weight(s) + (if e.Refused? || e.Dialled? then 5 else 0)
  {
  }

  lemma {:induction false} StepsAreBounded(s: State, run: seq<Event>)
    requires Tracked(s) && Possible(s, run) && AllCount(s, run)
    ensures |run| <= Weight(s) + 5 * Targets(run)
    decreases |run|
  {
    hide Tracked, Enabled, Counts, Step, Weight;
    if run != [] {
      StepKeepsTracked(s, run[0]);
      StepLosesWeight(s, run[0]);
      StepsAreBounded(Step(s, run[0]), run[1..]);
    }
  }

  /** With finitely many targets every run ends, and when no callback is left it has connected or reported a failure. */
  lemma RunsEndWithAReport(run: seq<Event>)
    requires Possible(START, run)
    ensures AllCount(START, run) ==> |run| <= 1 + 5 * Targets(run)
    ensures Quiescent(After(START, run)) ==>
              exists i :: 0 <= i < |After(START, run).calls|
                          && (After(START, run).calls[i].OnConnect? || After(START, run).calls[i].OnFail?)
  {
    if AllCount(START, run) {
      StepsAreBounded(START, run);
    }
    RunKeepsInvariant(START, run);
    var s := After(START, run);
    if Quiescent(s) && s.winner.Some? {
      var i :| 0 <= i < |s.calls| && s.calls[i] == OnConnect(s.winner.value);
      assert s.calls[i].OnConnect?;
    }
  }

  /** One query for the timer and one for the lost connection: both report the failure. */
  lemma FailureIsReportedTwice()
    ensures var run := [Dialled(1, true), Timer, Disconnected(1, None), NoTarget(None), NoTarget(None)];
            Possible(START, run)
            && After(START, run).calls == [OnFail("unknown reason"), OnFail("unknown reason")]
  {
  }

  /** For the same reason a connection may come after a reported failure. */
  lemma ConnectionAfterFailure()
    ensures var run := [Dialled(1, true), Timer, Disconnected(1, None), NoTarget(None),
                        Dialled(2, false), Connected(2)];
            Possible(START, run)
            && After(START, run).calls == [OnFail("unknown reason"), OnConnect(2)]
  {
  }

  // ---------- The object ----------

  class PendingConnection {
    var conns: set<Conn>
    var pending: set<Conn>
    var connected: bool
    var lastError: Option<string>
    var queries: nat
    var timers: nat
    var calls: seq<Call>
    ghost var seen: set<Conn>
    ghost var winner: Option<Conn>

    ghost function Now(): State
      reads this
    {
      State(conns, pending, connected, lastError, queries, timers, calls, seen, winner)
    }

    /** Connecting begins with a query. */
    constructor ()
      ensures Now() == START && Invariant(Now())
    {
      conns, pending, connected, lastError, timers, calls := {}, {}, false, None, 0, [];
      queries := 0;
      seen, winner := {}, None;
      new;
      AttemptConnection();
    }

    /** Ask the resolver for the next target. */
    method AttemptConnection()
      modifies `queries
      ensures queries == old(queries) + 1
    {
      queries := queries + 1;
    }

    /** The resolver has no more targets. */
    method NoMoreTargets(resolverError: Option<string>)
      requires Invariant(Now()) && Enabled(Now(), NoTarget(resolverError))
      modifies this
      ensures Now() == Step(old(Now()), NoTarget(resolverError)) && Invariant(Now())
    {
      StepKeepsInvariant(Now(), NoTarget(resolverError));
      queries := queries - 1;
      if conns == {} {
        var reason := if lastError.Some? then lastError.value
                      else if resolverError.Some? then resolverError.value
                      else "unable to resolve service";
        calls := calls + [OnFail(reason)];
      }
    }

    /** The resolver has a target; dialling it fails at once or gives a connection. */
    method NextTarget(dialled: Option<Conn>, error: Option<string>, more: bool)
      requires Invariant(Now())
      requires Enabled(Now(), if dialled.Some? then Dialled(dialled.value, more) else Refused(error))
      modifies this
      ensures Now() == Step(old(Now()), if dialled.Some? then Dialled(dialled.value, more) else Refused(error))
      ensures Invariant(Now())
    {
      StepKeepsInvariant(Now(), if dialled.Some? then Dialled(dialled.value, more) else Refused(error));
      queries := queries - 1;
      if dialled.None? {
        lastError := Some(if error.Some? then error.value else "unknown reason");
        AttemptConnection();
        return;
      }
      conns := conns + {dialled.value};
      pending := pending + {dialled.value};
      seen := seen + {dialled.value};
      if more {
        timers := timers + 1;
      }
    }

    method OnTimer()
      requires Invariant(Now()) && Enabled(Now(), Timer)
      modifies this
      ensures Now() == Step(old(Now()), Timer) && Invariant(Now())
    {
      StepKeepsInvariant(Now(), Timer);
      timers := timers - 1;
      if !connected {
        AttemptConnection();
      }
    }

    method OnConnected(conn: Conn)
      requires Invariant(Now()) && Enabled(Now(), Connected(conn))
      modifies this
      ensures Now() == Step(old(Now()), Connected(conn)) && Invariant(Now())
    {
      StepKeepsInvariant(Now(), Connected(conn));
      if conn !in pending {
        calls := calls + [Close(conn)];
        return;
      }
      pending := pending - {conn};
      if connected {
        conns := conns - {conn};
        calls := calls + [Close(conn)];
        return;
      }
      connected := true;
      winner := Some(conn);
      calls := calls + [OnConnect(conn)];
    }

    method OnDisconnected(conn: Conn, reason: Option<string>)
      requires Invariant(Now()) && Enabled(Now(), Disconnected(conn, reason))
      modifies this
      ensures Now() == Step(old(Now()), Disconnected(conn, reason)) && Invariant(Now())
    {
      StepKeepsInvariant(Now(), Disconnected(conn, reason));
      if conn !in pending {
        return;
      }
      conns := conns - {conn};
      pending := pending - {conn};
      lastError := Some(if reason.Some? then reason.value else "unknown reason");
      if !connected && conns == {} {
        AttemptConnection();
      }
    }
  }
}
