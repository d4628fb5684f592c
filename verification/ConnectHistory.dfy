/** The calls of a connection race, said of the events alone: which connections are open, when the race was won, and
    which error is the last, without the fields that net/connect.lua keeps for it. */
module ConnectHistory {
  import opened Collections
  import opened Connect

  /** Dialled, and neither connected nor disconnected since. */
  predicate Open(run: seq<Event>, c: Conn)
    decreases |run|
  {
    run != [] &&
    var last, init := run[|run| - 1], run[..|run| - 1];
    match last
    case Dialled(d, _) => d == c || Open(init, c)
    case Connected(d) => d != c && Open(init, c)
    case Disconnected(d, _) => d != c && Open(init, c)
    case _ => Open(init, c)
  }

  ghost predicate NoneOpen(run: seq<Event>) {
    forall c :: !Open(run, c)
  }

  ghost predicate NoOtherOpen(run: seq<Event>, c: Conn) {
    forall d :: Open(run, d) ==> d == c
  }

  /** Some open connection has connected. */
  predicate Won(run: seq<Event>) {
    exists k :: 0 <= k < |run| && run[k].Connected? && Open(run[..k], run[k].conn)
  }

  /** The error of the last attempt that was refused or lost. */
  function LastError(run: seq<Event>): Option<string>
    decreases |run|
  {
    if run == [] then None
    else
      var last, init := run[|run| - 1], run[..|run| - 1];
      match last
      case Refused(error) => Some(OrElse(error, "unknown reason"))
      case Disconnected(c, reason) => if Open(init, c) then Some(OrElse(reason, "unknown reason")) else LastError(init)
      case _ => LastError(init)
  }

  lemma {:induction false} AfterSnoc(s: State, run: seq<Event>, e: Event)
    ensures Possible(s, run + [e]) <==> Possible(s, run) && Enabled(After(s, run), e)
    ensures Possible(s, run + [e]) ==> After(s, run + [e]) == Step(After(s, run), e)
    decreases |run|
  {
    hide Enabled, Step;
    if run == [] {
      assert [e][1..] == [] && run + [e] == [e];
    } else {
      assert (run + [e])[1..] == run[1..] + [e];
      if Enabled(s, run[0]) {
        AfterSnoc(Step(s, run[0]), run[1..], e);
      }
    }
  }

  lemma WonSnoc(run: seq<Event>, e: Event)
    ensures Won(run + [e]) <==> Won(run) || (e.Connected? && Open(run, e.conn))
  {
    var more := run + [e];
    assert more[..|run|] == run && more[|run|] == e;
    assert forall k :: 0 <= k < |run| ==> more[k] == run[k] && more[..k] == run[..k];
    hide Open;
    if k :| 0 <= k < |run| && run[k].Connected? && Open(run[..k], run[k].conn) {
      assert more[k].Connected? && Open(more[..k], more[k].conn);
    }
    if e.Connected? && Open(run, e.conn) {
      assert more[|run|].Connected? && Open(more[..|run|], more[|run|].conn);
    }
  }

  /** What the object keeps is what happened. */
  lemma {:induction false} KeepsHistory(run: seq<Event>)
    requires Possible(START, run)
    ensures var s := After(START, run);
            && Tracked(s) && (forall c :: c in s.pending <==> Open(run, c))
            && (s.connected <==> Won(run)) && s.lastError == LastError(run)
    decreases |run|
  {
    if run != [] {
      var init, e := run[..|run| - 1], run[|run| - 1];
      assert run == init + [e];
      AfterSnoc(START, init, e);
      KeepsHistory(init);
      WonSnoc(init, e);
      StepKeepsTracked(After(START, init), e);
      hide After, Possible, Won;
    }
  }

  /** Whom a further event makes the race call: onfail exactly when there is no target, no connection is open and the
      race is not won, with the last error there was; onconnect exactly for the first open connection that connects; and
      close for every other one that does. */
  ghost function NewCalls(run: seq<Event>, e: Event): seq<Call> {
    if e.NoTarget? then
      if Won(run) || !NoneOpen(run) then []
      else if LastError(run).Some? then [OnFail(LastError(run).value)]
      else [OnFail(if e.resolverError.Some? then e.resolverError.value else "unable to resolve service")]
    else if e.Connected? then
      if Open(run, e.conn) && !Won(run) then [OnConnect(e.conn)] else [Close(e.conn)]
    else []
  }

  lemma CallsByHistory(run: seq<Event>, e: Event)
    requires Possible(START, run + [e])
    ensures Possible(START, run)
    ensures After(START, run + [e]).calls == After(START, run).calls + NewCalls(run, e)
  {
    AfterSnoc(START, run, e);
    KeepsHistory(run);
    hide After, Possible, Won, Open, LastError;
    var s := After(START, run);
    if c :| c in s.pending {
      assert Open(run, c);
    }
  }

  /** When the race asks for one more target: when the timer finds it not won, when the last open connection of a race
      that is not won is lost, and at once for a target that was refused; otherwise a target that was asked for has
      come. */
  ghost function NewQueries(run: seq<Event>, e: Event): int {
    if e.NoTarget? || e.Dialled? then -1
    else if e.Timer? then if Won(run) then 0 else 1
    else if e.Disconnected? && Open(run, e.conn) && !Won(run) && NoOtherOpen(run, e.conn) then 1
    else 0
  }

  lemma AsksByHistory(run: seq<Event>, e: Event)
    requires Possible(START, run + [e])
    ensures Possible(START, run)
    ensures After(START, run + [e]).queries == After(START, run).queries + NewQueries(run, e)
    ensures After(START, run + [e]).timers
            == After(START, run).timers + if e.Timer? then -1 else if e.Dialled? && e.more then 1 else 0
  {
    AfterSnoc(START, run, e);
    KeepsHistory(run);
    hide After, Possible, Won, Open, LastError;
    var s := After(START, run);
    if e.Disconnected? && e.conn in s.pending && !s.connected {
      if d :| d in s.pending && d != e.conn {
        assert Open(run, d);
      }
      assert s.conns == s.pending;
      assert NoOtherOpen(run, e.conn) <==> s.conns - {e.conn} == {};
    }
  }
}
