/** Presence subscriptions of one contact, as section 3 and Appendix A of RFC 6121 describe
    them, and the two-party protocol that two rosters run against each other. */
module Subscription {

  type Jid = string

  /** One user's relation to one contact, as independent facts. */
  datatype Contact = Contact(to: bool, from: bool, ask: bool, pendingIn: bool, approved: bool)

  const NO_CONTACT := Contact(false, false, false, false, false)

  datatype Op = Subscribe | Subscribed | Unsubscribe | Unsubscribed

  /** What a roster relies on: no request for what is already granted, in either direction. */
  predicate Consistent(c: Contact) {
    && (c.ask ==> !c.to)
    && (c.pendingIn ==> !c.from)
  }

  /** The effect on the sender's roster. */
  function Outbound(op: Op, c: Contact): Contact {
    match op
    case Subscribe => c.(ask := c.ask || !c.to)
    case Unsubscribe => c.(to := false, ask := false)
    case Subscribed =>
      if c.pendingIn then c.(from := true, pendingIn := false) else c.(approved := c.approved || !c.from)
    case Unsubscribed => c.(from := false, pendingIn := false)
  }

  /** The effect on the receiver's roster. */
  function Inbound(op: Op, c: Contact): Contact {
    match op
    case Subscribe => c.(pendingIn := c.pendingIn || !c.from)
    case Unsubscribe => c.(from := false, pendingIn := false)
    case Subscribed => c.(to := c.to || c.ask, ask := false)
    case Unsubscribed => c.(to := false, ask := false)
  }

  // ---------- The state tables of Appendix A, as an independent reference ----------

  /** The nine states of Appendix A.1 of RFC 6121. */
  datatype State =
    | None | NoneOut | NoneIn | NoneOutIn
    | To | ToIn | From | FromOut | Both

  /** Appendix A.2.1 to A.2.4: how a stanza sent by the user changes the user's own state. */
  function SentTable(op: Op, s: State): State {
    match (op, s)
    case (Subscribe, None) => NoneOut
    case (Subscribe, NoneIn) => NoneOutIn
    case (Subscribe, From) => FromOut
    case (Unsubscribe, NoneOut) => None
    case (Unsubscribe, NoneOutIn) => NoneIn
    case (Unsubscribe, To) => None
    case (Unsubscribe, ToIn) => NoneIn
    case (Unsubscribe, FromOut) => From
    case (Unsubscribe, Both) => From
    case (Subscribed, NoneIn) => From
    case (Subscribed, NoneOutIn) => FromOut
    case (Subscribed, ToIn) => Both
    case (Unsubscribed, NoneIn) => None
    case (Unsubscribed, NoneOutIn) => NoneOut
    case (Unsubscribed, ToIn) => To
    case (Unsubscribed, From) => None
    case (Unsubscribed, FromOut) => NoneOut
    case (Unsubscribed, Both) => To
    case (_, _) => s
  }

  /** Appendix A.3.1 to A.3.4: how a stanza received from the contact changes it. */
  function ReceivedTable(op: Op, s: State): State {
    match (op, s)
    case (Subscribe, None) => NoneIn
    case (Subscribe, NoneOut) => NoneOutIn
    case (Subscribe, To) => ToIn
    case (Unsubscribe, NoneIn) => None
    case (Unsubscribe, NoneOutIn) => NoneOut
    case (Unsubscribe, ToIn) => To
    case (Unsubscribe, From) => None
    case (Unsubscribe, FromOut) => NoneOut
    case (Unsubscribe, Both) => To
    case (Subscribed, NoneOut) => To
    case (Subscribed, NoneOutIn) => ToIn
    case (Subscribed, FromOut) => Both
    case (Unsubscribed, NoneOut) => None
    case (Unsubscribed, NoneOutIn) => NoneIn
    case (Unsubscribed, To) => None
    case (Unsubscribed, ToIn) => NoneIn
    case (Unsubscribed, FromOut) => From
    case (Unsubscribed, Both) => From
    case (_, _) => s
  }

  /** The state that four flags stand for; the other seven flag combinations have none. */
  function StateOf(c: Contact): State
    requires Consistent(c)
  {
    if c.to && c.from then Both
    else if c.to then if c.pendingIn then ToIn else To
    else if c.from then if c.ask then FromOut else From
    else if c.ask then if c.pendingIn then NoneOutIn else NoneOut
    else if c.pendingIn then NoneIn
    else None
  }

  /** Every operation, sent or received, stays in the nine states and follows the tables. */
  lemma FollowsAppendixA(op: Op, c: Contact)
    requires Consistent(c)
    ensures Consistent(Outbound(op, c)) && StateOf(Outbound(op, c)) == SentTable(op, StateOf(c))
    ensures Consistent(Inbound(op, c)) && StateOf(Inbound(op, c)) == ReceivedTable(op, StateOf(c))
  {
  }

  // ---------- Two parties ----------

  /** `w[(a, b)]` is what a's roster says about b; an absent pair is an unknown contact. */
  type World = map<(Jid, Jid), Contact>

  function At(w: World, a: Jid, b: Jid): Contact {
    if (a, b) in w then w[(a, b)] else NO_CONTACT
  }

  /** One stanza from a to b: a's roster changes, the stanza is delivered, b's roster changes. */
  datatype Sent = Sent(op: Op, a: Jid, b: Jid)

  function Step(w: World, e: Sent): World
    requires e.a != e.b
  {
    w[(e.a, e.b) := Outbound(e.op, At(w, e.a, e.b))][(e.b, e.a) := Inbound(e.op, At(w, e.b, e.a))]
  }

  predicate NoSelfContacts(events: seq<Sent>) {
    forall i :: 0 <= i < |events| ==> events[i].a != events[i].b
  }

  function Run(w: World, events: seq<Sent>): World
    requires NoSelfContacts(events)
  {
    if events == [] then w
    else Step(Run(w, events[..|events| - 1]), events[|events| - 1])
  }

  /** The two rosters tell the same story from both ends. */
  ghost predicate Mirrored(w: World) {
    forall a, b :: a != b ==>
      && Consistent(At(w, a, b))
      && At(w, a, b).to == At(w, b, a).from
      && At(w, a, b).ask == At(w, b, a).pendingIn
  }

  /** What two rosters say about each other, from the two ends. */
  predicate Mirror(c: Contact, d: Contact) {
    && Consistent(c) && Consistent(d)
    && c.to == d.from && c.from == d.to && c.ask == d.pendingIn && c.pendingIn == d.ask
  }

  lemma OpKeepsMirror(op: Op, c: Contact, d: Contact)
    requires Mirror(c, d)
    ensures Mirror(Outbound(op, c), Inbound(op, d))
  {
  }

  lemma StepKeepsMirror(w: World, e: Sent)
    requires Mirrored(w) && e.a != e.b
    ensures Mirrored(Step(w, e))
  {
    var w' := Step(w, e);
    hide Outbound, Inbound, Consistent;
    assert At(w, e.a, e.b).to == At(w, e.b, e.a).from && At(w, e.b, e.a).to == At(w, e.a, e.b).from;
    OpKeepsMirror(e.op, At(w, e.a, e.b), At(w, e.b, e.a));
    forall a, b | a != b
      ensures Consistent(At(w', a, b))
      ensures At(w', a, b).to == At(w', b, a).from && At(w', a, b).ask == At(w', b, a).pendingIn
    {
      assert At(w, a, b).to == At(w, b, a).from && At(w, a, b).ask == At(w, b, a).pendingIn;
    }
  }

  /** In every run from empty rosters, each party's roster mirrors the other's. */
  lemma {:induction false} RunMirrored(events: seq<Sent>)
    requires NoSelfContacts(events)
    ensures Mirrored(Run(map[], events))
  {
    if events != [] {
      RunMirrored(events[..|events| - 1]);
      StepKeepsMirror(Run(map[], events[..|events| - 1]), events[|events| - 1]);
    }
  }

  /** The stanzas that the sender's roster does not support, on what the two rosters say. */
  lemma NothingToTell(c: Contact, d: Contact)
    requires c.from == d.to && c.to == d.from && d.ask == c.pendingIn
    ensures !Outbound(Subscribed, c).from ==> Inbound(Subscribed, d) == d
    ensures !c.from && !c.pendingIn ==> Inbound(Unsubscribed, d) == d
    ensures Outbound(Subscribe, c).to == c.to
  {
  }

  /** With mirrored rosters a grant or a revocation that the sender's roster does not
      support changes nothing at the receiver, so withholding it is harmless. */
  lemma WithheldStanzaIsNoOp(w: World, a: Jid, b: Jid)
    requires Mirrored(w) && a != b
    ensures !Outbound(Subscribed, At(w, a, b)).from ==> Inbound(Subscribed, At(w, b, a)) == At(w, b, a)
    ensures !At(w, a, b).from && !At(w, a, b).pendingIn ==> Inbound(Unsubscribed, At(w, b, a)) == At(w, b, a)
  {
    assert At(w, b, a).ask == At(w, a, b).pendingIn && At(w, a, b).to == At(w, b, a).from;
    assert At(w, b, a).to == At(w, a, b).from;
    NothingToTell(At(w, a, b), At(w, b, a));
  }

  /** Repeating the same stanza at once changes nothing further, in either roster. */
  lemma StepIdempotent(w: World, e: Sent)
    requires Mirrored(w) && e.a != e.b
    ensures var w1 := Step(w, e); Step(w1, e) == w1
  {
  }

  /** A request answered by an approval ends with the requester subscribed, whatever the two
      rosters said before; a cancellation by either side then takes exactly that back. */
  lemma HandshakeGrants(w: World, a: Jid, b: Jid)
    requires Mirrored(w) && a != b
    ensures
      var w2 := Step(Step(w, Sent(Subscribe, a, b)), Sent(Subscribed, b, a));
      && At(w2, a, b) == At(w, a, b).(to := true, ask := false)
      && At(w2, b, a) == At(w, b, a).(from := true, pendingIn := false)
      && var w3 := Step(w2, Sent(Unsubscribe, a, b));
      && w3 == Step(w2, Sent(Unsubscribed, b, a))
      && At(w3, a, b) == At(w, a, b).(to := false, ask := false)
      && At(w3, b, a) == At(w, b, a).(from := false, pendingIn := false)
  {
  }
}
