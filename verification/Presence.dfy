/** Local users exchanging subscription stanzas, delivered synchronously: the sender's roster
    operation, then the receiver's, as plugins/mod_presence.lua pairs them. */
module Presence {
  import opened Subscription
  import opened Storage
  import opened RosterManager

  lemma MirroredAt(w: World, a: Jid, b: Jid)
    requires Mirrored(w) && a != b
    ensures At(w, b, a).from == At(w, a, b).to && At(w, b, a).to == At(w, a, b).from
    ensures At(w, b, a).ask == At(w, a, b).pendingIn && At(w, a, b).ask == At(w, b, a).pendingIn
  {
    assert At(w, a, b).to == At(w, b, a).from;
  }

  /** Whether a request is answered at once: the contact is approved in advance, and neither subscribed nor waiting. */
  predicate AnswersItself(c: Contact) {
    c.approved && !c.from && !c.pendingIn
  }

  /** After b's approval of a, which reaches a or not. */
  function Answered(w: World, b: Jid, a: Jid, routed: bool): World
    requires a != b
  {
    if routed then Step(w, Sent(Subscribed, b, a)) else w[(b, a) := Outbound(Subscribed, At(w, b, a))]
  }

  /** What a stanza of a connected user leads to. */
  function Outcome(w: World, e: Sent, online: set<Jid>): World
    requires e.a != e.b
  {
    if e.op == Subscribe && AnswersItself(At(w, e.b, e.a)) then Answered(Step(w, e), e.b, e.a, e.b in online)
    else Step(w, e)
  }

  /** The contact approves, but the one who asked is not told. */
  predicate Strands(w: World, e: Sent, online: set<Jid>) {
    e.op == Subscribe && AnswersItself(At(w, e.b, e.a)) && e.b !in online
  }

  /** The rosters stay each other's mirror exactly when nobody is stranded; then an answer comes to the same as if the
      contact had approved by hand. */
  lemma OutcomeMirrored(w: World, e: Sent, online: set<Jid>)
    requires Mirrored(w) && e.a != e.b
    ensures Mirrored(Outcome(w, e, online)) <==> !Strands(w, e, online)
    ensures Strands(w, e, online) ==>
              var w' := Outcome(w, e, online);
              At(w', e.b, e.a).from && !At(w', e.a, e.b).to && At(w', e.a, e.b).ask
  {
    StepKeepsMirror(w, e);
    MirroredAt(w, e.a, e.b);
    if e.op == Subscribe && AnswersItself(At(w, e.b, e.a)) {
      StepKeepsMirror(Step(w, e), Sent(Subscribed, e.b, e.a));
    }
    if Strands(w, e, online) {
      var w' := Outcome(w, e, online);
      assert At(w', e.a, e.b).to != At(w', e.b, e.a).from;
    }
  }

  /** It happens: b approves a in advance and disconnects, then a asks. */
  lemma ApprovedInAdvanceButOffline(a: Jid, b: Jid)
    requires a != b
    ensures var w := Step(map[], Sent(Subscribed, b, a));
            var w' := Outcome(w, Sent(Subscribe, a, b), {a});
            Mirrored(w) && At(w', b, a).from && !At(w', a, b).to
  {
    var w := Step(map[], Sent(Subscribed, b, a));
    assert Mirrored(map[]);
    StepKeepsMirror(map[], Sent(Subscribed, b, a));
    OutcomeMirrored(w, Sent(Subscribe, a, b), {a});
  }

  lemma AskedIsPending(w: World, a: Jid, b: Jid)
    requires a != b
    ensures AnswersItself(At(w, b, a)) ==> At(Step(w, Sent(Subscribe, a, b)), b, a).pendingIn
  {
  }

  /** The approval that is sent to a contact who asks again although subscribed changes nothing. */
  lemma RepeatedApprovalIsNoOp(w: World, a: Jid, b: Jid)
    requires Mirrored(w) && a != b && At(w, b, a).from
    ensures var w1 := Step(w, Sent(Subscribe, a, b));
            var w2 := Step(w1, Sent(Subscribed, b, a));
            forall c, d :: At(w2, c, d) == At(w1, c, d) == At(w, c, d)
  {
    MirroredAt(w, a, b);
  }

  // ---------- Whole runs ----------

  /** A stanza, and who is connected when it is sent. */
  datatype Turn = Turn(sent: Sent, online: set<Jid>)

  predicate NotToSelf(turns: seq<Turn>) {
    forall i :: 0 <= i < |turns| ==> turns[i].sent.a != turns[i].sent.b
  }

  /** The rosters after some turns, empty at first. */
  function Play(turns: seq<Turn>): World
    requires NotToSelf(turns)
  {
    if turns == [] then map[]
    else Outcome(Play(turns[..|turns| - 1]), turns[|turns| - 1].sent, turns[|turns| - 1].online)
  }

  /** At turn i, b approves a, who is neither subscribed nor waiting for an answer. */
  predicate ApprovesInAdvance(turns: seq<Turn>, i: nat, b: Jid, a: Jid)
    requires NotToSelf(turns) && i < |turns|
  {
    && turns[i].sent == Sent(Subscribed, b, a)
    && !At(Play(turns[..i]), b, a).from && !At(Play(turns[..i]), b, a).pendingIn
  }

  /** What one turn does to what b says of a. */
  lemma TurnAt(w: World, t: Turn, b: Jid, a: Jid)
    requires t.sent.a != t.sent.b && a != b
    ensures var c, c' := At(w, b, a), At(Outcome(w, t.sent, t.online), b, a);
            && (c'.approved <==> c.approved || (t.sent == Sent(Subscribed, b, a) && !c.from && !c.pendingIn))
            && (c.approved && !c.pendingIn ==> !c'.pendingIn)
            && (!c.pendingIn && !c.from && !c'.pendingIn && c'.from ==> c.approved)
            && (c'.from ==> c.from || c.approved || t.sent == Sent(Subscribed, b, a))
  {
  }

  /** Over every run from empty rosters, b has approved a in advance exactly if b sent an approval while a was neither
      subscribed nor waiting; nothing takes it back, and a contact who is approved in advance never waits. */
  lemma {:induction false} ApprovedMeansInAdvance(turns: seq<Turn>, b: Jid, a: Jid)
    requires NotToSelf(turns) && a != b
    ensures var c := At(Play(turns), b, a);
            && (c.approved <==> exists i :: 0 <= i < |turns| && ApprovesInAdvance(turns, i, b, a))
            && (c.approved ==> !c.pendingIn)
    decreases |turns|
  {
    if turns != [] {
      var n, init := |turns| - 1, turns[..|turns| - 1];
      ApprovedMeansInAdvance(init, b, a);
      TurnAt(Play(init), turns[n], b, a);
      hide Outcome;
      forall i | 0 <= i < n
        ensures ApprovesInAdvance(turns, i, b, a) <==> ApprovesInAdvance(init, i, b, a)
      {
        assert init[i] == turns[i] && init[..i] == turns[..i];
      }
      assert ApprovesInAdvance(turns, n, b, a) ==> exists i :: 0 <= i < |turns| && ApprovesInAdvance(turns, i, b, a);
    }
  }

  /** Nobody lets himself in: over every run from empty rosters, a contact who is subscribed was approved by the user
      himself, before that or in advance. */
  lemma {:induction false} SubscribedWasApproved(turns: seq<Turn>, b: Jid, a: Jid)
    requires NotToSelf(turns) && a != b && At(Play(turns), b, a).from
    ensures exists i :: 0 <= i < |turns| && turns[i].sent == Sent(Subscribed, b, a)
    decreases |turns|
  {
    var n, init := |turns| - 1, turns[..|turns| - 1];
    if turns != [] {
      TurnAt(Play(init), turns[n], b, a);
      hide Outcome;
      if At(Play(init), b, a).from {
        SubscribedWasApproved(init, b, a);
        var i :| 0 <= i < n && init[i].sent == Sent(Subscribed, b, a);
        assert turns[i].sent == Sent(Subscribed, b, a);
      } else if At(Play(init), b, a).approved {
        ApprovedMeansInAdvance(init, b, a);
        var i :| 0 <= i < n && ApprovesInAdvance(init, i, b, a);
        assert turns[i].sent == Sent(Subscribed, b, a);
      }
    }
  }

  lemma AskingIsEnough(w: World, a: Jid, b: Jid, online: set<Jid>)
    requires a != b && At(w, b, a).approved && !At(w, b, a).pendingIn
    ensures var w' := Outcome(w, Sent(Subscribe, a, b), online);
            && At(w', b, a).from && !At(w', b, a).pendingIn
            && (!At(w, b, a).from && !At(w, a, b).to ==>
                  && (At(w', a, b).to <==> b in online) && (At(w', a, b).ask <==> b !in online))
  {
  }

  /** And who is approved in advance is let in by asking, and told of it exactly when the user is connected. */
  lemma ApprovalInAdvanceGrants(turns: seq<Turn>, i: nat, a: Jid, b: Jid, online: set<Jid>)
    requires NotToSelf(turns) && a != b && i < |turns| && ApprovesInAdvance(turns, i, b, a)
    ensures var w, w' := Play(turns), Play(turns + [Turn(Sent(Subscribe, a, b), online)]);
            && At(w', b, a).from && !At(w', b, a).pendingIn
            && (!At(w, b, a).from && !At(w, a, b).to ==>
                  && (At(w', a, b).to <==> b in online) && (At(w', a, b).ask <==> b !in online))
  {
    ApprovedMeansInAdvance(turns, b, a);
    var more := turns + [Turn(Sent(Subscribe, a, b), online)];
    assert more[..|turns|] == turns;
    AskingIsEnough(Play(turns), a, b, online);
    hide Outcome;
  }

  /** A roster says about everyone what `w` says. */
  ghost predicate Says(a: Jid, items: map<Jid, Item>, meta: Metadata, w: World) {
    forall b :: ViewOf(items, meta, b) == At(w, a, b)
  }

  /** Changing what a says about b changes the world at (a, b) only. */
  lemma EditSays(a: Jid, b: Jid, items: map<Jid, Item>, meta: Metadata,
                 items': map<Jid, Item>, meta': Metadata, w: World)
    requires Says(a, items, meta, w)
    requires AgreeExcept(items, items', b) && AgreeExcept(meta.pending, meta'.pending, b)
    ensures Says(a, items', meta', w[(a, b) := ViewOf(items', meta', b)])
  {
    forall c | c != b
      ensures ViewOf(items', meta', c) == At(w[(a, b) := ViewOf(items', meta', b)], a, c)
    {
      assert ViewOf(items, meta, c) == At(w, a, c);
    }
  }

  lemma OthersSay(a: Jid, b: Jid, items: map<Jid, Item>, meta: Metadata, c: Jid, w: World, view: Contact)
    requires Says(c, items, meta, w) && c != a
    ensures Says(c, items, meta, w[(a, b) := view])
  {
  }

  class Server {
    const store: MapShim<Key, Value>
    /** The roster of every local account, by bare JID. */
    var accounts: map<Jid, Roster>
    /** The accounts with a connected session: the keys of `bare_sessions`. */
    var online: set<Jid>
    /** What the rosters say, pair by pair. */
    ghost var world: World

    /** Account `a` is in order, and its roster says what `w` says. */
    ghost predicate AccountValid(a: Jid, w: World)
      requires a in accounts
      reads this`accounts, store, accounts.Values
    {
      var r := accounts[a];
      && r.user == a && r.store == store
      && r.Valid() && r.InSync() && !r.meta.broken && a !in r.items
      && Says(a, r.items, r.meta, w)
    }

    /** All accounts are in order, stored rows equal memory, and together they say `w`. */
    ghost predicate Tracks(w: World)
      reads this`accounts, this`online, store, accounts.Values
    {
      && online <= accounts.Keys
      && (forall a :: a in accounts ==> AccountValid(a, w))
      && (forall a, b :: (a, b) in w ==> a in accounts)
      && (forall u :: u in store.rows ==> u in accounts)
    }

    ghost predicate Valid()
      reads this, store, accounts.Values
    {
      Tracks(world) && Mirrored(world)
    }

    constructor ()
      ensures Valid() && accounts == map[] && world == map[]
      ensures fresh(store)
    {
      store := new MapShim();
      accounts, online, world := map[], {}, map[];
    }

    method AddAccount(u: Jid)
      requires Valid() && u !in accounts
      modifies this`accounts
      ensures Valid() && accounts.Keys == old(accounts.Keys) + {u} && fresh(accounts[u])
      ensures forall a :: a in old(accounts) ==> accounts[a] == old(accounts)[a]
    {
      var r := new Roster(u, store);
      accounts := accounts[u := r];
      forall a | a in accounts
        ensures AccountValid(a, world)
      {
        assert a != u ==> old(AccountValid(a, world));
      }
    }

    method SetOnline(u: Jid, connected: bool)
      requires Valid() && u in accounts
      modifies this`online
      ensures Valid() && online == if connected then old(online) + {u} else old(online) - {u}
    {
      online := if connected then online + {u} else online - {u};
    }

    /** Whether the contact may see the user's presence. A connected user's own roster
        answers; failing that a connected contact's roster does, from the other end. */
    predicate IsContactSubscribed(u: Jid, jid: Jid)
      requires u in accounts && online <= accounts.Keys
      reads this, accounts.Values
    {
      if u in online then accounts[u].View(jid).from
      else if jid in online then accounts[jid].View(u).to
      else accounts[u].View(jid).from
    }

    /** Whether the user may see the contact's presence. */
    predicate IsUserSubscribed(u: Jid, jid: Jid)
      requires u in accounts && online <= accounts.Keys
      reads this, accounts.Values
    {
      if u in online then accounts[u].View(jid).to
      else if jid in online then accounts[jid].View(u).from
      else accounts[u].View(jid).to
    }

    /** Whichever roster answers, the answer is what the user's own roster says. */
    lemma ShortcutsAgree(u: Jid, jid: Jid)
      requires Valid() && u in accounts && u != jid
      ensures IsContactSubscribed(u, jid) == accounts[u].View(jid).from
      ensures IsUserSubscribed(u, jid) == accounts[u].View(jid).to
    {
      assert AccountValid(u, world);
      assert jid in online ==> AccountValid(jid, world);
      assert At(world, u, jid).to == At(world, jid, u).from;
      assert At(world, jid, u).to == At(world, u, jid).from;
    }

    /** The sender's half: the roster operation, and whether the stanza is routed on. */
    method Dispatch(op: Op, a: Jid, b: Jid, env: Env) returns (routed: bool)
      requires a in accounts && accounts[a].Valid() && !accounts[a].meta.broken && env.Works()
      requires b in accounts && a != b && accounts[b] != accounts[a] && online <= accounts.Keys
      modifies store, accounts[a], accounts[a].store
      ensures accounts[a].Became(b, Outbound(op, old(accounts[a].View(b))), env)
      ensures routed == match op
                        case Subscribe => true
                        case Unsubscribe => true
                        case Subscribed =>
                          if a in online || b !in online then accounts[a].View(b).from else accounts[b].View(a).to
                        case Unsubscribed => old(accounts[a].View(b)).from || old(accounts[a].View(b)).pendingIn
    {
      match op {
        case Subscribe =>
          var _ := accounts[a].SetContactPendingOut(b, env);
          routed := true;
        case Unsubscribe =>
          var _ := accounts[a].Unsubscribe(b, env);
          routed := true;
        case Subscribed =>
          var _ := accounts[a].ApproveContact(b, env);
          routed := IsContactSubscribed(a, b);
        case Unsubscribed =>
          var pending, isSubscribed;
          routed, pending, isSubscribed := accounts[a].CancelContact(b, env);
      }
    }

    /** The receiver's half; a new request from a contact who is approved in advance is to be answered. */
    method Deliver(op: Op, a: Jid, b: Jid, request: Request, env: Env) returns (answer: bool)
      requires a in accounts && b in accounts && accounts[b].Valid() && !accounts[b].meta.broken && env.Works()
      requires online <= accounts.Keys
      requires op == Subscribe ==> accounts[b].View(a).from == accounts[a].View(b).to
      modifies store, accounts[b], accounts[b].store
      ensures accounts[b].Became(a, Inbound(op, old(accounts[b].View(a))), env)
      ensures answer <==> op == Subscribe && AnswersItself(old(accounts[b].View(a)))
    {
      answer := false;
      match op {
        case Subscribe =>
          if !IsContactSubscribed(b, a) {
            var preapproved := accounts[b].View(a).approved;
            if !accounts[b].IsContactPendingIn(a) {
              var stored := accounts[b].SetContactPendingIn(a, request, env);
              answer := preapproved && stored;
            }
          }
        case Unsubscribe =>
          var _ := accounts[b].ProcessInboundUnsubscribe(a, env);
        case Subscribed =>
          var _ := accounts[b].ProcessInboundApproval(a, env);
        case Unsubscribed =>
          var _ := accounts[b].ProcessInboundCancellation(a, env);
      }
    }

    lemma ViewIs(a: Jid, b: Jid, w: World)
      requires a in accounts && AccountValid(a, w)
      ensures accounts[a].View(b) == At(w, a, b)
    {
    }

    /** One roster has changed at one contact. */
    lemma OneChanged(a: Jid, b: Jid, view: Contact, w: World)
      requires a in accounts && online <= accounts.Keys && (forall c, d :: (c, d) in w ==> c in accounts)
      requires forall u :: u in store.rows ==> u in accounts
      requires forall c :: c in accounts && c != a ==> AccountValid(c, w)
      requires AccountValid(a, w[(a, b) := view])
      ensures Tracks(w[(a, b) := view])
    {
      forall c | c in accounts
        ensures AccountValid(c, w[(a, b) := view])
      {
        if c != a {
          assert AccountValid(c, w);
          OthersSay(a, b, accounts[c].items, accounts[c].meta, c, w, view);
        }
      }
    }

    /** The same halves, seen from all accounts at once. */
    method Outgo(op: Op, a: Jid, b: Jid, env: Env) returns (routed: bool)
      requires Tracks(world) && a in accounts && b in accounts && a != b && env.Works()
      modifies store, accounts[a]
      ensures Tracks(world[(a, b) := Outbound(op, At(world, a, b))])
      ensures routed == match op
                        case Subscribe => true
                        case Unsubscribe => true
                        case Subscribed =>
                          if a in online || b !in online then Outbound(op, At(world, a, b)).from else At(world, b, a).to
                        case Unsubscribed => At(world, a, b).from || At(world, a, b).pendingIn
    {
      hide Outbound, Consistent, Says;
      var r := accounts[a];
      assert AccountValid(a, world) && AccountValid(b, world);
      ViewIs(a, b, world);
      ViewIs(b, a, world);
      ghost var items, meta := r.items, r.meta;
      routed := Dispatch(op, a, b, env);
      EditSays(a, b, items, meta, r.items, r.meta, world);
      forall c | c in accounts && c != a
        ensures AccountValid(c, world)
      {
        assert old(AccountValid(c, world)) && accounts[c].user == c;
      }
      OneChanged(a, b, Outbound(op, At(world, a, b)), world);
    }

    method Income(op: Op, a: Jid, b: Jid, request: Request, env: Env, ghost w: World) returns (answer: bool)
      requires Tracks(w) && a in accounts && b in accounts && a != b && env.Works()
      requires op == Subscribe ==> At(w, b, a).from == At(w, a, b).to
      modifies store, accounts[b]
      ensures Tracks(w[(b, a) := Inbound(op, At(w, b, a))])
      ensures answer <==> op == Subscribe && AnswersItself(At(w, b, a))
    {
      hide Inbound, Consistent, Says, AnswersItself;
      var r := accounts[b];
      assert AccountValid(b, w) && AccountValid(a, w);
      ViewIs(b, a, w);
      ViewIs(a, b, w);
      ghost var items, meta := r.items, r.meta;
      answer := Deliver(op, a, b, request, env);
      EditSays(b, a, items, meta, r.items, r.meta, w);
      forall c | c in accounts && c != b
        ensures AccountValid(c, w)
      {
        assert old(AccountValid(c, w)) && accounts[c].user == c;
      }
      OneChanged(b, a, Inbound(op, At(w, b, a)), w);
    }

    /** Both halves, when the two rosters mirror each other before. */
    method Exchange(op: Op, a: Jid, b: Jid, request: Request, env: Env) returns (answer: bool)
      requires Tracks(world) && a in accounts && b in accounts && a != b && env.Works()
      requires op == Subscribed ==> a in online || b !in online
      requires At(world, b, a).from == At(world, a, b).to && At(world, b, a).to == At(world, a, b).from
      requires At(world, b, a).ask == At(world, a, b).pendingIn
      modifies store, accounts[a], accounts[b]
      ensures Tracks(Step(world, Sent(op, a, b)))
      ensures answer <==> op == Subscribe && AnswersItself(At(world, b, a))
    {
      hide Outbound, Inbound, AnswersItself, AccountValid;
      ghost var sent := world[(a, b) := Outbound(op, At(world, a, b))];
      NothingToTell(At(world, a, b), At(world, b, a));
      var routed := Outgo(op, a, b, env);
      if routed {
        answer := Income(op, a, b, request, env, sent);
      } else {
        answer := false;
        KeepsTracking(sent, b, a);
        assert Inbound(op, At(world, b, a)) == At(world, b, a);
      }
    }

    /** The approval that b's server sends by itself. When b is not connected but a is, a's roster is asked whether a
        may be told, and says no, so the approval is not sent. */
    method Answer(b: Jid, a: Jid, request: Request, env: Env)
      requires Tracks(world) && Mirrored(world) && a in online && b in accounts && a != b && env.Works()
      requires At(world, b, a).pendingIn
      modifies store, accounts[a], accounts[b]
      ensures Tracks(Answered(world, b, a, b in online))
    {
      MirroredAt(world, a, b);
      if b in online {
        var _ := Exchange(Subscribed, b, a, request, env);
      } else {
        var routed := Outgo(Subscribed, b, a, env);
        assert !routed;
      }
    }

    /** One subscription stanza from a connected user to another local user, with the answer that it may have. The
        rosters stay each other's mirror exactly when no user who is not connected is asked by a contact approved in
        advance. */
    method Send(op: Op, a: Jid, b: Jid, request: Request, env: Env)
      requires Valid() && a in online && b in accounts && a != b && env.Works()
      modifies this`world, store, accounts[a], accounts[b]
      ensures Tracks(world)
      ensures world == Outcome(old(world), Sent(op, a, b), online)
      ensures Valid() <==> !Strands(old(world), Sent(op, a, b), online)
    {
      hide Mirrored, Step, Outbound, Inbound, Consistent, AnswersItself, Answered, AccountValid;
      OutcomeMirrored(world, Sent(op, a, b), online);
      StepKeepsMirror(world, Sent(op, a, b));
      MirroredAt(world, a, b);
      AskedIsPending(world, a, b);
      var answer := Exchange(op, a, b, request, env);
      world := Step(world, Sent(op, a, b));
      if answer {
        Answer(b, a, request, env);
        world := Answered(world, b, a, b in online);
      }
    }

    /** Reading an account back from storage, as after eviction from the roster cache,
        gives back the roster that was in memory. */
    method Reload(a: Jid, env: Env)
      requires Valid() && a in accounts && !env.io.readFails
      modifies accounts[a], store
      ensures Valid()
    {
      assert AccountValid(a, world);
      ReloadRoster(accounts[a], env);
      forall c | c in accounts
        ensures AccountValid(c, world)
      {
        assert old(AccountValid(c, world));
      }
    }

    static method ReloadRoster(r: Roster, env: Env)
      requires r.InSync() && r.user !in r.items && !env.io.readFails
      modifies r, r.store
      ensures r.items == old(r.items) && r.meta == old(r.meta) && r.store.rows == old(r.store.rows)
    {
      var _ := r.Load(env);
    }

    lemma KeepsTracking(w: World, b: Jid, a: Jid)
      requires Tracks(w) && b in accounts
      ensures Tracks(w[(b, a) := At(w, b, a)])
    {
      forall c | c in accounts
        ensures AccountValid(c, w[(b, a) := At(w, b, a)])
      {
        assert AccountValid(c, w);
        forall d
          ensures At(w[(b, a) := At(w, b, a)], c, d) == At(w, c, d)
        {
        }
      }
    }
  }
}
