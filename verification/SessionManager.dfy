/** The session registry of core/sessionmanager.lua: the host tables, `bare_sessions` and
    `full_sessions` hold the same objects, through binding, conflicts, rollback and destruction. */
module SessionManager {
  import opened Collections
  import opened Decimals

  /** JID strings, taken apart: the source's concatenations are injective on valid parts. */
  datatype BareJid = BareJid(user: string, host: string)
  datatype FullJid = FullJid(bare: BareJid, resource: string)

  /** "c2s_unauthed", "c2s_unbound", "c2s" and "c2s_destroyed". */
  datatype SessionType = Unauthed | Unbound | Bound | Destroyed

  datatype Policy = Random | Increment | KickNew | KickOld

  datatype BindError = NotAuthorized | AlreadyBound | Vetoed | Conflict | RosterError

  datatype BindResult = Done | Failed(error: BindError)

  // ---------- Decimal suffixes ----------

  /** `resource.."#"..count` */
  function Suffixed(resource: string, count: nat): string {
    resource + "#" + Decimal(count)
  }

  lemma SuffixedInjective(resource: string, m: nat, n: nat)
    requires Suffixed(resource, m) == Suffixed(resource, n)
    ensures m == n
  {
    var k := |resource| + 1;
    assert Suffixed(resource, m)[k..] == Decimal(m) && Suffixed(resource, n)[k..] == Decimal(n);
    DecimalInjective(m, n);
  }

  /** The names looked up before the one with this count. */
  ghost function Tried(resource: string, count: nat): set<string> {
    set c: nat | 1 <= c < count :: Suffixed(resource, c)
  }

  lemma OneMoreTried(resource: string, count: nat)
    ensures count == 0 ==> Tried(resource, 1) == {}
    ensures count >= 1 ==>
              && Suffixed(resource, count) !in Tried(resource, count)
              && Tried(resource, count + 1) == Tried(resource, count) + {Suffixed(resource, count)}
  {
    hide Suffixed;
    if c: nat :| 1 <= c < count && Suffixed(resource, c) == Suffixed(resource, count) {
      SuffixedInjective(resource, c, count);
    }
  }

  lemma NotThere<K, V>(m: map<K, V>, k: K)
    ensures k !in m ==> m - {k} == m
  {
  }

  lemma PutBack<K, V>(m: map<K, V>, k: K, v: V)
    ensures (m - {k})[k := v] == m[k := v]
  {
  }

  // ---------- Objects ----------

  class Session {
    var username: Option<string>
    var host: Option<string>
    var resource: Option<string>
    var fullJid: Option<FullJid>
    var kind: SessionType
    var destroyed: bool
    var rosterLoaded: bool

    /** A session whose stream has just been opened to a host. */
    constructor (host: string)
      ensures this.host == Some(host) && username == None && resource == None && fullJid == None
      ensures kind == Unauthed && !destroyed && !rosterLoaded
    {
      this.host := Some(host);
      username, resource, fullJid := None, None, None;
      kind, destroyed, rosterLoaded := Unauthed, false, false;
    }

    /** Every field goes; what remains is answered by the shared resting session. */
    method Retire()
      modifies this`username, this`host, this`resource, this`fullJid, this`kind, this`destroyed, this`rosterLoaded
      ensures destroyed && kind == Destroyed
      ensures username == None && host == None && resource == None && fullJid == None && !rosterLoaded
    {
      username, host, resource, fullJid, rosterLoaded := None, None, None, None, false;
      destroyed, kind := true, Destroyed;
    }

    /** What holds of a session at all times, as far as it alone knows. */
    ghost predicate Proper(hosts: set<string>)
      reads this
    {
      && (username.Some? ==> host.Some? && host.value in hosts && !destroyed && kind != Unauthed)
      && (destroyed <==> kind == Destroyed)
      && (fullJid.None? ==> resource.None? && kind != Bound && !rosterLoaded)
      && (fullJid.Some? ==>
            && username == Some(fullJid.value.bare.user) && host == Some(fullJid.value.bare.host)
            && resource == Some(fullJid.value.resource) && kind != Unbound)
    }
  }

  /** The inner `sessions` table of a user entry. */
  class ResourceTable {
    var m: map<string, Session>
    /** The user whose table this is. */
    ghost const owner: BareJid

    constructor (ghost owner: BareJid)
      ensures m == map[] && this.owner == owner
    {
      m := map[];
      this.owner := owner;
    }

    /** The increment policy's search for a free name. */
    method FreeName(resource: string) returns (name: string, count: nat)
      ensures name !in m
      ensures if resource in m
              then count >= 1 && name == Suffixed(resource, count)
                   && forall c :: 1 <= c < count ==> Suffixed(resource, c) in m
              else name == resource
    {
      name, count := resource, 0;
      if resource in m {
        count := 1;
        OneMoreTried(resource, 0);
        while Suffixed(resource, count) in m
          invariant count >= 1
          invariant forall c :: 1 <= c < count ==> Suffixed(resource, c) in m
          invariant Tried(resource, count) <= m.Keys && |Tried(resource, count)| == count - 1
          decreases |m| - |Tried(resource, count)|
        {
          hide Suffixed, Tried;
          OneMoreTried(resource, count);
          SubsetSize(Tried(resource, count + 1), m.Keys);
          count := count + 1;
        }
        name := Suffixed(resource, count);
      }
    }
  }

  lemma SubsetSize<T>(s: set<T>, t: set<T>)
    requires s <= t
    ensures |s| <= |t|
  {
    assert t == s + (t - s);
  }

  /** A user entry: what `hosts[h].sessions[u]` and `bare_sessions[u@h]` both point to. */
  class UserEntry {
    const sessions: ResourceTable

    constructor (sessions: ResourceTable)
      ensures this.sessions == sessions
    {
      this.sessions := sessions;
    }
  }

  class HostEntry {
    var sessions: map<string, UserEntry>
    ghost const name: string

    constructor (ghost name: string)
      ensures sessions == map[] && this.name == name
    {
      sessions := map[];
      this.name := name;
    }
  }

  // ---------- How the three tables must agree, on their contents ----------

  type HostView = map<string, map<string, UserEntry>>
  type Content = map<BareJid, map<string, Session>>
  type Claims = map<Session, Option<FullJid>>

  /** The host tables lead to the same entry objects as `bare_sessions`. */
  ghost predicate SameEntries(hostView: HostView, bare: map<BareJid, UserEntry>) {
    && (forall j :: j in bare <==> j.host in hostView && j.user in hostView[j.host])
    && (forall j :: j in bare ==> hostView[j.host][j.user] == bare[j])
  }

  /** Users do not share resource tables. */
  ghost predicate Separate(bare: map<BareJid, UserEntry>) {
    forall j :: j in bare ==> bare[j].sessions.owner == j
  }

  /** No user entry is empty, other than possibly one that is about to be filled or dropped. */
  ghost predicate NoneEmptyBut(content: Content, except: set<BareJid>) {
    forall j :: j in content && j !in except ==> content[j] != map[]
  }

  /** `full_sessions` holds exactly the sessions reachable through the entries. */
  ghost predicate Registered(full: map<FullJid, Session>, content: Content) {
    && (forall f :: f in full <==> f.bare in content && f.resource in content[f.bare])
    && (forall f :: f in full ==> content[f.bare][f.resource] == full[f])
  }

  /** A session claims a full JID exactly while it is registered under it. */
  ghost predicate Acknowledged(full: map<FullJid, Session>, claims: Claims) {
    && (forall f :: f in full ==> full[f] in claims && claims[full[f]] == Some(f))
    && (forall s :: s in claims && claims[s].Some? ==> claims[s].value in full && full[claims[s].value] == s)
  }

  lemma Locate(hostView: HostView, bare: map<BareJid, UserEntry>, j: BareJid)
    requires SameEntries(hostView, bare) && Separate(bare) && j in bare
    ensures j.host in hostView && j.user in hostView[j.host] && hostView[j.host][j.user] == bare[j]
    ensures forall i :: i in bare && i != j ==> bare[i].sessions != bare[j].sessions
  {
    assert bare[j].sessions.owner == j;
  }

  lemma Unregistering(full: map<FullJid, Session>, content: Content, f: FullJid)
    requires Registered(full, content) && f in full && NoneEmptyBut(content, {})
    ensures f.bare in content && f.resource in content[f.bare] && content[f.bare][f.resource] == full[f]
    ensures var content' := content[f.bare := content[f.bare] - {f.resource}];
            Registered(full - {f}, content') && NoneEmptyBut(content', {f.bare})
  {
  }

  lemma Registering(full: map<FullJid, Session>, content: Content, f: FullJid, s: Session)
    requires Registered(full, content) && f.bare in content && NoneEmptyBut(content, {f.bare})
    ensures var content' := content[f.bare := content[f.bare][f.resource := s]];
            Registered(full[f := s], content') && NoneEmptyBut(content', {})
  {
    assert f.resource in content[f.bare][f.resource := s];
  }

  lemma Dropping(full: map<FullJid, Session>, content: Content, j: BareJid,
                 hostView: HostView, bare: map<BareJid, UserEntry>)
    requires Registered(full, content) && j in content && content[j] == map[] && NoneEmptyBut(content, {j})
    requires SameEntries(hostView, bare) && Separate(bare) && j in bare
    ensures j.host in hostView && j.user in hostView[j.host] && hostView[j.host][j.user] == bare[j]
    ensures Registered(full, content - {j}) && NoneEmptyBut(content - {j}, {})
    ensures SameEntries(hostView[j.host := hostView[j.host] - {j.user}], bare - {j}) && Separate(bare - {j})
  {
    assert j in bare;
  }

  lemma Keeping(content: Content, j: BareJid)
    requires NoneEmptyBut(content, {j}) && (j in content ==> content[j] != map[])
    ensures NoneEmptyBut(content, {})
  {
  }

  lemma Creating(full: map<FullJid, Session>, content: Content, j: BareJid,
                 hostView: HostView, bare: map<BareJid, UserEntry>, e: UserEntry)
    requires Registered(full, content) && j !in content && NoneEmptyBut(content, {})
    requires SameEntries(hostView, bare) && Separate(bare) && j !in bare && j.host in hostView && e.sessions.owner == j
    ensures Registered(full, content[j := map[]]) && NoneEmptyBut(content[j := map[]], {j})
    ensures SameEntries(hostView[j.host := hostView[j.host][j.user := e]], bare[j := e]) && Separate(bare[j := e])
  {
  }

  lemma Releasing(full: map<FullJid, Session>, claims: Claims, s: Session)
    requires Acknowledged(full, claims) && s in claims && claims[s].Some?
    ensures claims[s].value in full && full[claims[s].value] == s
    ensures Acknowledged(full - {claims[s].value}, claims[s := None])
  {
  }

  lemma Opening(full: map<FullJid, Session>, claims: Claims, s: Session)
    requires Acknowledged(full, claims) && s !in claims
    ensures Acknowledged(full, claims[s := None])
  {
  }

  lemma Claiming(full: map<FullJid, Session>, claims: Claims, s: Session, f: FullJid)
    requires Acknowledged(full, claims) && s in claims && claims[s].None? && f !in full
    ensures Acknowledged(full[f := s], claims[s := Some(f)])
  {
  }

  /** `name` is `base`, or `base#n` with the least n that is free when `base` is taken. */
  ghost predicate LeastFree(full: map<FullJid, Session>, j: BareJid, base: string, name: string) {
    if FullJid(j, base) !in full then name == base
    else exists n :: n >= 1 && name == Suffixed(base, n) && FullJid(j, name) !in full
                     && forall c :: 1 <= c < n ==> FullJid(j, Suffixed(base, c)) in full
  }

  /** The name a session is bound under. */
  ghost predicate NameRule(full: map<FullJid, Session>, j: BareJid, resource: string, policy: Policy,
                           generated: string, name: string) {
    if FullJid(j, resource) !in full then name == resource
    else match policy
         case Random => LeastFree(full, j, generated, name)
         case Increment => LeastFree(full, j, resource, name)
         case KickNew => false
         case KickOld => name == resource
  }

  /** `base#n`, free, with every smaller number taken. */
  ghost predicate NumberedFrom(full: map<FullJid, Session>, j: BareJid, base: string, name: string) {
    exists n: nat :: n >= 1 && name == base + "#" + Decimal(n) && FullJid(j, name) !in full
                     && forall c: nat :: 1 <= c < n ==> FullJid(j, base + "#" + Decimal(c)) in full
  }

  lemma LeastIsNumbered(full: map<FullJid, Session>, j: BareJid, base: string, name: string)
    requires LeastFree(full, j, base, name)
    ensures if FullJid(j, base) in full then NumberedFrom(full, j, base, name) else name == base
  {
    if FullJid(j, base) in full {
      var n: nat :| n >= 1 && name == Suffixed(base, n) && FullJid(j, name) !in full
                    && forall c :: 1 <= c < n ==> FullJid(j, Suffixed(base, c)) in full;
      forall c: nat | 1 <= c < n
        ensures FullJid(j, base + "#" + Decimal(c)) in full
      {
        assert Suffixed(base, c) == base + "#" + Decimal(c);
      }
    }
  }

  /** The rule, policy by policy. */
  lemma NameIs(full: map<FullJid, Session>, j: BareJid, resource: string, policy: Policy, generated: string,
               name: string)
    requires NameRule(full, j, resource, policy, generated, name)
    ensures FullJid(j, resource) !in full || policy == KickOld ==> name == resource
    ensures FullJid(j, resource) in full && policy == Increment ==> NumberedFrom(full, j, resource, name)
    ensures FullJid(j, resource) in full && policy == Random ==>
              if FullJid(j, generated) in full then NumberedFrom(full, j, generated, name) else name == generated
    ensures FullJid(j, resource) in full && policy != KickOld ==> FullJid(j, name) !in full
  {
    hide LeastFree, NumberedFrom;
    if FullJid(j, resource) in full && policy.Increment? {
      LeastIsNumbered(full, j, resource, name);
      NumberedIsFree(full, j, resource, name);
    } else if FullJid(j, resource) in full && policy.Random? {
      LeastIsNumbered(full, j, generated, name);
      if FullJid(j, generated) in full {
        NumberedIsFree(full, j, generated, name);
      }
    }
  }

  /** The tables without the name: only the policy that kicks takes one away. */
  lemma NameFreed(full: map<FullJid, Session>, j: BareJid, resource: string, policy: Policy, generated: string,
                  name: string)
    requires NameRule(full, j, resource, policy, generated, name)
    ensures full - {FullJid(j, name)} == if policy == KickOld then full - {FullJid(j, resource)} else full
  {
    NameIs(full, j, resource, policy, generated, name);
    NotThere(full, FullJid(j, name));
  }

  lemma NumberedIsFree(full: map<FullJid, Session>, j: BareJid, base: string, name: string)
    requires NumberedFrom(full, j, base, name)
    ensures FullJid(j, name) !in full
  {
  }

  class Registry {
    const hosts: map<string, HostEntry>
    var bare: map<BareJid, UserEntry>
    var full: map<FullJid, Session>
    /** Every session ever opened. */
    ghost var all: set<Session>

    ghost function Tables(): set<ResourceTable>
      reads this`bare
    {
      set j | j in bare :: bare[j].sessions
    }

    ghost function Content(): Content
      reads this`bare, Tables()`m
    {
      map j | j in bare :: bare[j].sessions.m
    }

    ghost function HostView(): HostView
      reads hosts.Values`sessions
    {
      map h | h in hosts :: hosts[h].sessions
    }

    ghost function Claims(): Claims
      reads this`all, all`fullJid
    {
      map s | s in all :: s.fullJid
    }

    /** The three tables agree, but for possibly one empty user entry. */
    ghost predicate TablesAgree(except: set<BareJid>)
      reads this`bare, this`full, Tables()`m, hosts.Values`sessions
    {
      && (forall h :: h in hosts ==> hosts[h].name == h)
      && SameEntries(HostView(), bare)
      && Separate(bare)
      && Registered(full, Content())
      && NoneEmptyBut(Content(), except)
    }

    ghost predicate SessionsAgree()
      reads this`full, this`all, all
    {
      && Acknowledged(full, Claims())
      && forall s :: s in all ==> s.Proper(hosts.Keys)
    }

    ghost predicate Valid()
      reads this, Tables()`m, hosts.Values`sessions, all
    {
      TablesAgree({}) && SessionsAgree()
    }

    constructor (hosts: map<string, HostEntry>)
      requires forall h :: h in hosts ==> hosts[h].name == h && hosts[h].sessions == map[]
      ensures Valid() && full == map[] && this.hosts == hosts && all == {}
    {
      this.hosts := hosts;
      bare, full, all := map[], map[], {};
    }

    lemma EntryAt(j: BareJid)
      requires SameEntries(HostView(), bare) && Separate(bare) && j in bare
      ensures j.host in hosts && j.user in hosts[j.host].sessions && hosts[j.host].sessions[j.user] == bare[j]
      ensures forall i :: i in bare && i != j ==> bare[i].sessions != bare[j].sessions
    {
      Locate(HostView(), bare, j);
    }

    /** Writing one user's resource table. */
    method SetTable(j: BareJid, m: map<string, Session>)
      requires j in bare && forall i :: i in bare && i != j ==> bare[i].sessions != bare[j].sessions
      requires j.host in hosts && j.user in hosts[j.host].sessions && hosts[j.host].sessions[j.user] == bare[j]
      modifies bare[j].sessions`m
      ensures Content() == old(Content())[j := m] && bare[j].sessions.m == m
    {
      hosts[j.host].sessions[j.user].sessions.m := m;
      assert forall i :: i in bare && i != j ==> bare[i].sessions.m == old(bare[i].sessions.m);
    }

    /** The two assignments that unregister a resource. */
    method Unregister(f: FullJid)
      requires TablesAgree({}) && f in full
      modifies this`full, bare[f.bare].sessions`m
      ensures TablesAgree({f.bare})
      ensures full == old(full) - {f} && f.bare in bare
      ensures bare[f.bare].sessions.m == old(bare[f.bare].sessions.m) - {f.resource}
    {
      hide Registered, SameEntries, Separate, NoneEmptyBut, HostView;
      ghost var content := Content();
      Unregistering(full, content, f);
      EntryAt(f.bare);
      ghost var view := HostView();
      SetTable(f.bare, bare[f.bare].sessions.m - {f.resource});
      assert HostView() == view;
      full := full - {f};
    }

    /** The two assignments that register one. */
    method Register(f: FullJid, s: Session)
      requires TablesAgree({f.bare}) && f.bare in bare
      modifies this`full, bare[f.bare].sessions`m
      ensures TablesAgree({})
      ensures full == old(full)[f := s] && f.bare in bare
      ensures bare[f.bare].sessions.m == old(bare[f.bare].sessions.m)[f.resource := s]
    {
      hide Registered, SameEntries, Separate, NoneEmptyBut, HostView;
      ghost var content := Content();
      Registering(full, content, f, s);
      EntryAt(f.bare);
      ghost var view := HostView();
      SetTable(f.bare, bare[f.bare].sessions.m[f.resource := s]);
      assert HostView() == view;
      full := full[f := s];
    }

    /** The user goes from both outer tables. */
    method DropEntry(j: BareJid)
      requires forall h :: h in hosts ==> hosts[h].name == h
      requires j in bare && j.host in hosts
      modifies this`bare, hosts.Values`sessions
      ensures bare == old(bare) - {j}
      ensures HostView() == old(HostView())[j.host := old(HostView())[j.host] - {j.user}]
      ensures Content() == old(Content()) - {j}
    {
      var host := hosts[j.host];
      host.sessions := host.sessions - {j.user};
      bare := bare - {j};
    }

    /** A user without resources is dropped. */
    method DropIfEmpty(j: BareJid)
      requires TablesAgree({j}) && j in bare
      modifies this`bare, hosts.Values`sessions
      ensures TablesAgree({})
      ensures bare == if old(bare[j].sessions.m) == map[] then old(bare) - {j} else old(bare)
    {
      hide Registered, SameEntries, Separate, NoneEmptyBut;
      Locate(HostView(), bare, j);
      if hosts[j.host].sessions[j.user].sessions.m == map[] {
        Dropping(full, Content(), j, HostView(), bare);
        DropEntry(j);
      } else {
        Keeping(Content(), j);
      }
    }

    /** The user enters both outer tables. */
    method AddEntry(j: BareJid, entry: UserEntry)
      requires forall h :: h in hosts ==> hosts[h].name == h
      requires j !in bare && j.host in hosts && entry.sessions.m == map[]
      modifies this`bare, hosts.Values`sessions
      ensures bare == old(bare)[j := entry]
      ensures HostView() == old(HostView())[j.host := old(HostView())[j.host][j.user := entry]]
      ensures Content() == old(Content())[j := map[]]
    {
      var host := hosts[j.host];
      host.sessions := host.sessions[j.user := entry];
      bare := bare[j := entry];
    }

    /** A user's first session, or the one that replaces the last, needs an entry. */
    method CreateEntry(j: BareJid, table: ResourceTable)
      requires TablesAgree({}) && j !in bare && j.host in hosts && table.owner == j && table.m == map[]
      modifies this`bare, hosts.Values`sessions
      ensures TablesAgree({j})
      ensures j in bare && bare == old(bare)[j := bare[j]] && bare[j].sessions == table
    {
      hide Registered, SameEntries, Separate, NoneEmptyBut;
      ghost var content, view := Content(), HostView();
      var entry := new UserEntry(table);
      assert Content() == content && HostView() == view;
      Creating(full, content, j, view, bare, entry);
      AddEntry(j, entry);
    }

    /** A name leaves all tables, and with a user's last one the user does. */
    method Unlink(f: FullJid)
      requires TablesAgree({}) && f in full
      modifies this`bare, this`full, hosts.Values`sessions, Tables()`m
      ensures TablesAgree({})
      ensures full == old(full) - {f} && f.bare in old(bare)
      ensures old(bare)[f.bare].sessions.m == old(bare[f.bare].sessions.m) - {f.resource}
      ensures bare == if old(bare)[f.bare].sessions.m == map[] then old(bare) - {f.bare} else old(bare)
    {
      hide Registered, SameEntries, Separate, NoneEmptyBut;
      Unregistering(full, Content(), f);
      Locate(HostView(), bare, f.bare);
      Unregister(f);
      DropIfEmpty(f.bare);
    }

    /** Retiring a session that the tables no longer hold. */
    method Discard(session: Session)
      requires TablesAgree({}) && session in all
      requires Acknowledged(full, Claims()[session := None])
      requires forall s :: s in all && s != session ==> s.Proper(hosts.Keys)
      modifies session`username, session`host, session`resource, session`fullJid
      modifies session`kind, session`destroyed, session`rosterLoaded
      ensures Valid() && session.destroyed && session.fullJid == None
    {
      hide Acknowledged, Registered, SameEntries, Separate, NoneEmptyBut;
      ghost var claims, content, view := Claims(), Content(), HostView();
      session.Retire();
      assert Content() == content && HostView() == view;
      assert Claims() == claims[session := None];
    }

    /** Destroying a session takes exactly that session out of all three tables, unless a plugin prevents it. */
    method Destroy(session: Session, veto: bool)
      requires Valid() && session in all
      modifies this`bare, this`full, hosts.Values`sessions, Tables()`m
      modifies session`username, session`host, session`resource, session`fullJid
      modifies session`kind, session`destroyed, session`rosterLoaded
      ensures Valid()
      ensures old(session.fullJid).Some? && veto ==>
                && full == old(full) && bare == old(bare) && Content() == old(Content())
                && session.fullJid == old(session.fullJid)
      ensures old(session.fullJid).None? || !veto ==>
                session.destroyed && session.fullJid == None
                && full == if old(session.fullJid).Some? then old(full) - {old(session.fullJid).value} else old(full)
      ensures old(session.fullJid).None? ==> bare == old(bare)
      ensures old(session.fullJid).Some? && !veto ==>
                var f := old(session.fullJid).value;
                && f.bare in old(bare)
                && old(bare)[f.bare].sessions.m == old(bare[f.bare].sessions.m) - {f.resource}
                && bare == if old(bare)[f.bare].sessions.m == map[] then old(bare) - {f.bare} else old(bare)
    {
      hide Valid, TablesAgree, SessionsAgree;
      if session.destroyed {
        Applicant(session);
        return;
      }
      if session.fullJid.Some? {
        if veto {
          return;
        }
        TakeOut(session);
      } else {
        Unclaimed(session);
      }
      Discard(session);
    }

    /** The part of it for a bound session. */
    method TakeOut(session: Session)
      requires Valid() && session in all && session.fullJid.Some?
      modifies this`bare, this`full, hosts.Values`sessions, Tables()`m, session`destroyed
      ensures TablesAgree({}) && Acknowledged(full, Claims()[session := None])
      ensures forall s :: s in all && s != session ==> s.Proper(hosts.Keys)
      ensures var f := session.fullJid.value;
              && full == old(full) - {f} && f.bare in old(bare)
              && old(bare)[f.bare].sessions.m == old(bare[f.bare].sessions.m) - {f.resource}
              && bare == if old(bare)[f.bare].sessions.m == map[] then old(bare) - {f.bare} else old(bare)
    {
      hide Acknowledged, TablesAgree, Session.Proper;
      ghost var claims := Claims();
      Releasing(full, claims, session);
      NamedByFields(session);
      session.destroyed := true;
      Unlink(FullJid(BareJid(session.username.value, session.host.value), session.resource.value));
      assert forall s :: s in all ==> s.fullJid == old(s.fullJid) == claims[s];
      assert Claims() == claims;
    }

    lemma NamedByFields(session: Session)
      requires Valid() && session in all && session.fullJid.Some?
      ensures session.username == Some(session.fullJid.value.bare.user)
      ensures session.host == Some(session.fullJid.value.bare.host)
      ensures session.resource == Some(session.fullJid.value.resource)
    {
      assert session.Proper(hosts.Keys);
    }

    lemma Unclaimed(session: Session)
      requires Valid() && session in all && session.fullJid.None?
      ensures TablesAgree({}) && Acknowledged(full, Claims()[session := None])
      ensures forall s :: s in all ==> s.Proper(hosts.Keys)
    {
      hide Acknowledged, TablesAgree;
      assert Claims()[session := None] == Claims();
    }

    method Open(host: string) returns (session: Session)
      requires Valid()
      modifies this`all
      ensures Valid() && fresh(session) && all == old(all) + {session}
      ensures session.host == Some(host) && session.username == None && session.fullJid == None
    {
      hide Acknowledged, Registered, SameEntries, Separate, NoneEmptyBut;
      ghost var claims, content, view := Claims(), Content(), HostView();
      session := new Session(host);
      all := all + {session};
      Opening(full, claims, session);
      assert Content() == content && HostView() == view;
      assert Claims() == claims[session := None];
    }

    /** `make_authenticated`: the host exists, and the prepared name is not empty. */
    method Authenticate(session: Session, username: Option<string>) returns (ok: bool)
      requires Valid() && session in all && !session.destroyed
      requires session.host.Some? && session.host.value in hosts
      modifies session`username, session`kind
      ensures ok <==> username.Some? && username.value != ""
      ensures ok ==> session.username == username
      ensures !ok ==> session.username == old(session.username)
      ensures session.kind == if ok && old(session.kind) == Unauthed then Unbound else old(session.kind)
      ensures TablesAgree({}) && (Valid() <==> session.fullJid.None? || session.username == old(session.username))
    {
      hide Acknowledged, Registered, SameEntries, Separate, NoneEmptyBut;
      if username.None? || username.value == "" {
        return false;
      }
      ghost var claims, content, view := Claims(), Content(), HostView();
      session.username := username;
      if session.kind == Unauthed {
        session.kind := Unbound;
      }
      ok := true;
      assert Content() == content && HostView() == view && Claims() == claims;
    }

    /** The session's own fields, once the tables hold it under `f`. */
    method Adopt(session: Session, f: FullJid)
      requires TablesAgree({}) && session in all && Acknowledged(full, Claims()[session := Some(f)])
      requires (forall s :: s in all ==> s.Proper(hosts.Keys)) && session.fullJid == None
      requires session.username == Some(f.bare.user) && session.host == Some(f.bare.host)
      modifies session`resource, session`fullJid, session`kind
      ensures Valid() && session.fullJid == Some(f)
      ensures session.kind == if old(session.kind) == Unbound then Bound else old(session.kind)
    {
      hide Acknowledged, Registered, SameEntries, Separate, NoneEmptyBut;
      ghost var claims, content, view := Claims(), Content(), HostView();
      session.resource := Some(f.resource);
      session.fullJid := Some(f);
      if session.kind == Unbound {
        session.kind := Bound;
      }
      assert Content() == content && HostView() == view;
      assert Claims() == claims[session := Some(f)];
    }

    /** The same fields, once the tables have let go of it again. */
    method Withdraw(session: Session, f: FullJid)
      requires TablesAgree({}) && session in all && Acknowledged(full, Claims()[session := None])
      requires (forall s :: s in all ==> s.Proper(hosts.Keys)) && session.fullJid == Some(f) && !session.rosterLoaded
      modifies session`resource, session`fullJid, session`kind
      ensures Valid() && session.fullJid == None && session.resource == None
      ensures session.kind == if old(session.kind) == Bound then Unbound else old(session.kind)
    {
      hide Acknowledged, Registered, SameEntries, Separate, NoneEmptyBut;
      ghost var claims, content, view := Claims(), Content(), HostView();
      session.fullJid := None;
      session.resource := None;
      if session.kind == Bound {
        session.kind := Unbound;
      }
      assert Content() == content && HostView() == view;
      assert Claims() == claims[session := None];
    }

    /** The session takes its name and enters the tables. */
    method Enroll(session: Session, f: FullJid)
      requires TablesAgree({f.bare}) && SessionsAgree() && f.bare in bare && f !in full
      requires session in all && session.fullJid == None
      requires session.username == Some(f.bare.user) && session.host == Some(f.bare.host)
      modifies this`full, bare[f.bare].sessions`m, session`resource, session`fullJid, session`kind
      ensures Valid() && full == old(full)[f := session] && bare == old(bare)
      ensures session.fullJid == Some(f)
      ensures session.kind == if old(session.kind) == Unbound then Bound else old(session.kind)
    {
      hide Acknowledged, TablesAgree;
      Claiming(full, Claims(), session, f);
      Register(f, session);
      Adopt(session, f);
    }

    /** After a roster error the session leaves the tables and forgets its name. */
    method RollBack(session: Session, f: FullJid)
      requires Valid() && session in all && session.fullJid == Some(f) && !session.rosterLoaded
      modifies this`bare, this`full, hosts.Values`sessions, Tables()`m, session`resource, session`fullJid, session`kind
      ensures Valid() && full == old(full) - {f}
      ensures session.fullJid == None && session.resource == None
      ensures session.kind == if old(session.kind) == Bound then Unbound else old(session.kind)
    {
      hide Acknowledged, TablesAgree;
      Releasing(full, Claims(), session);
      Unlink(f);
      Withdraw(session, f);
    }

    /** A user has an entry in both outer tables or in neither. */
    lemma EntryOf(j: BareJid)
      requires TablesAgree({}) && j.host in hosts
      ensures j in bare <==> j.user in hosts[j.host].sessions
      ensures j in bare ==> hosts[j.host].sessions[j.user] == bare[j]
    {
      hide Registered, Separate, NoneEmptyBut;
      assert HostView()[j.host] == hosts[j.host].sessions;
    }

    /** Bound names, asked of the user's own table. */
    lemma NamesOf(j: BareJid)
      requires TablesAgree({}) && j in bare
      ensures forall r :: r in bare[j].sessions.m <==> FullJid(j, r) in full
      ensures forall r :: r in bare[j].sessions.m ==> bare[j].sessions.m[r] == full[FullJid(j, r)]
      ensures TablesAgree({j})
    {
      hide SameEntries, Separate;
      assert Content()[j] == bare[j].sessions.m;
      forall r
        ensures r in bare[j].sessions.m <==> FullJid(j, r) in full
        ensures r in bare[j].sessions.m ==> bare[j].sessions.m[r] == full[FullJid(j, r)]
      {
        assert FullJid(j, r) in full <==> j in Content() && r in Content()[j];
      }
    }

    /** A free name for the user, starting from `base`. */
    method FreeName(j: BareJid, base: string) returns (name: string)
      requires TablesAgree({}) && j in bare
      ensures LeastFree(full, j, base, name)
    {
      NamesOf(j);
      var count;
      name, count := bare[j].sessions.FreeName(base);
    }

    lemma NothingBound(j: BareJid)
      requires TablesAgree({}) && j !in bare
      ensures forall r :: FullJid(j, r) !in full
    {
      hide SameEntries, Separate, NoneEmptyBut;
    }

    /** A user who is not connected yet gets an entry; nothing is bound for them. */
    method Welcome(j: BareJid)
      requires Valid() && j.host in hosts && j !in bare
      modifies this`bare, hosts.Values`sessions
      ensures TablesAgree({j}) && SessionsAgree() && j in bare
      ensures bare == old(bare)[j := bare[j]] && fresh(bare[j].sessions)
      ensures forall r :: FullJid(j, r) !in full
    {
      hide Acknowledged, SameEntries, Separate, Registered, NoneEmptyBut;
      NothingBound(j);
      ghost var claims, content, view := Claims(), Content(), HostView();
      var table := new ResourceTable(j);
      assert Content() == content && HostView() == view;
      assert TablesAgree({});
      CreateEntry(j, table);
      assert Claims() == claims;
    }

    /** Who holds a name, and where. */
    lemma HolderOf(f: FullJid)
      requires Valid() && f in full
      ensures full[f] in all && full[f].fullJid == Some(f) && !full[f].destroyed
      ensures f.bare in bare && f.bare.host in hosts && f.bare.user in hosts[f.bare.host].sessions
      ensures hosts[f.bare.host].sessions[f.bare.user] == bare[f.bare] && bare[f.bare].sessions.owner == f.bare
      ensures f.resource in bare[f.bare].sessions.m && bare[f.bare].sessions.m[f.resource] == full[f]
    {
      Unregistering(full, Content(), f);
      Locate(HostView(), bare, f.bare);
      assert Claims()[full[f]] == Some(f);
    }

    /** kick_old: the holder of the name is closed; when it was the user's last session, its
        table is put into a new entry. */
    method Evict(j: BareJid, resource: string)
      requires Valid() && j.host in hosts && FullJid(j, resource) in full
      modifies this`bare, this`full, hosts.Values`sessions, Tables()`m, full.Values
      ensures TablesAgree({j}) && SessionsAgree() && j in bare
      ensures full == old(full) - {FullJid(j, resource)} && Tables() <= old(Tables())
      ensures old(full)[FullJid(j, resource)].destroyed
    {
      hide Acknowledged, TablesAgree;
      HolderOf(FullJid(j, resource));
      var table := hosts[j.host].sessions[j.user].sessions;
      assert table == bare[j].sessions;
      Destroy(table.m[resource], false);
      if table.m == map[] {
        CreateEntry(j, table);
      } else {
        NamesOf(j);
      }
    }

    /** Makes sure the user has an entry and the name that will be bound is free in it. */
    method Arrange(j: BareJid, resource: string, policy: Policy, generated: string) returns (name: Option<string>)
      requires Valid() && j.host in hosts
      modifies this`bare, this`full, hosts.Values`sessions, Tables()`m, full.Values
      ensures name.None? <==> FullJid(j, resource) in old(full) && policy == KickNew
      ensures name.None? ==> Valid() && full == old(full)
      ensures forall t :: t in Tables() ==> t in old(Tables()) || fresh(t)
      ensures name.Some? ==>
                && TablesAgree({j}) && SessionsAgree() && j in bare
                && NameRule(old(full), j, resource, policy, generated, name.value)
                && full == old(full) - {FullJid(j, name.value)}
      ensures policy == KickOld && FullJid(j, resource) in old(full) ==> old(full)[FullJid(j, resource)].destroyed
    {
      hide Acknowledged, TablesAgree;
      name := Some(resource);
      EntryOf(j);
      if j.user !in hosts[j.host].sessions {
        Welcome(j);
      } else {
        NamesOf(j);
        var table := hosts[j.host].sessions[j.user].sessions;
        if resource in table.m {
          match policy {
            case Random =>
              var chosen := FreeName(j, generated);
              name := Some(chosen);
            case Increment =>
              var chosen := FreeName(j, resource);
              name := Some(chosen);
            case KickNew =>
              return None;
            case KickOld =>
              Evict(j, resource);
          }
        }
      }
    }

    /** Binding a resource. `prepped` is the prepared requested name, `generated` and
        `generated2` what the id generator would return, `veto` the verdict of the
        pre-resource-bind hooks, `rosterFails` the outcome of loading the roster. */
    method Bind(session: Session, prepped: Option<string>, policy: Policy, generated: string, generated2: string,
                veto: bool, rosterFails: bool) returns (result: BindResult)
      requires Valid() && session in all
      modifies this`bare, this`full, hosts.Values`sessions, Tables()`m, full.Values, session
      ensures Valid()
      ensures session.username == old(session.username) && session.host == old(session.host)
      ensures old(session.username).Some? ==> old(session.host).Some?
      ensures result == if old(session.username).None? then Failed(NotAuthorized)
                        else if old(session.resource).Some? then Failed(AlreadyBound)
                        else if veto then Failed(Vetoed)
                        else if policy == KickNew
                                && FullJid(BareJid(old(session.username).value, old(session.host).value),
                                           if prepped.Some? && prepped.value != "" then prepped.value else generated)
                                   in old(full) then Failed(Conflict)
                        else if rosterFails then Failed(RosterError)
                        else Done
      ensures result != Done && result != Failed(RosterError) ==>
                && full == old(full) && session.fullJid == old(session.fullJid)
                && session.resource == old(session.resource) && session.kind == old(session.kind)
      ensures result == Done || result == Failed(RosterError) ==>
                && session.username.Some? && session.host.Some? && old(session.fullJid).None?
                && (result == Done <==> session.fullJid.Some?)
                && var j := BareJid(session.username.value, session.host.value);
                && var r := if prepped.Some? && prepped.value != "" then prepped.value else generated;
                && full == (if result == Done then old(full)[session.fullJid.value := session]
                            else if policy == KickOld then old(full) - {FullJid(j, r)}
                            else old(full))
                && (policy == KickOld && FullJid(j, r) in old(full) ==> old(full)[FullJid(j, r)].destroyed)
      ensures result == Done ==>
                && session.resource == Some(session.fullJid.value.resource)
                && var j := BareJid(session.username.value, session.host.value);
                && session.fullJid.value.bare == j
                && var r := if prepped.Some? && prepped.value != "" then prepped.value else generated;
                && var name := session.fullJid.value.resource;
                && (FullJid(j, r) !in old(full) || policy == KickOld ==> name == r)
                && (FullJid(j, r) in old(full) && policy == Increment ==> NumberedFrom(old(full), j, r, name))
                && (FullJid(j, r) in old(full) && policy == Random ==>
                      if FullJid(j, generated2) in old(full) then NumberedFrom(old(full), j, generated2, name)
                      else name == generated2)
      ensures result == Done ==> session.kind == Bound && session.rosterLoaded
      ensures result == Failed(RosterError) ==> session.resource == None && session.kind == old(session.kind)
    {
      hide Valid, TablesAgree, SessionsAgree, NameRule, NumberedFrom;
      Applicant(session);
      if session.username.None? {
        return Failed(NotAuthorized);
      }
      if session.resource.Some? {
        return Failed(AlreadyBound);
      }
      if veto {
        return Failed(Vetoed);
      }
      var resource := if prepped.Some? && prepped.value != "" then prepped.value else generated;
      var j := BareJid(session.username.value, session.host.value);
      result := Place(session, j, resource, policy, generated2, rosterFails);
      if result == Done {
        NameIs(old(full), j, resource, policy, generated2, session.fullJid.value.resource);
      }
    }

    /** The part of it that touches the tables: a name by the policy, and the roster. */
    method Place(session: Session, j: BareJid, resource: string, policy: Policy, generated: string, rosterFails: bool)
      returns (result: BindResult)
      requires Valid() && session in all && session.username == Some(j.user) && session.host == Some(j.host)
      requires j.host in hosts && session.fullJid == None && session.resource == None
      requires session.kind != Bound && !session.rosterLoaded && session !in full.Values
      modifies this`bare, this`full, hosts.Values`sessions, Tables()`m, full.Values
      modifies session`resource, session`fullJid, session`kind, session`rosterLoaded
      ensures Valid()
      ensures result == if policy == KickNew && FullJid(j, resource) in old(full) then Failed(Conflict)
                        else if rosterFails then Failed(RosterError)
                        else Done
      ensures result == Failed(Conflict) ==> full == old(full)
      ensures policy == KickOld && FullJid(j, resource) in old(full) ==> old(full)[FullJid(j, resource)].destroyed
      ensures result == Failed(RosterError) ==>
                full == if policy == KickOld then old(full) - {FullJid(j, resource)} else old(full)
      ensures result != Done ==>
                session.fullJid == None && session.resource == None && session.kind == old(session.kind)
      ensures result == Done ==>
                && session.kind == Bound && session.rosterLoaded
                && session.fullJid.Some? && session.fullJid.value.bare == j
                && var name := session.fullJid.value.resource;
                && session.resource == Some(name) && full == old(full)[FullJid(j, name) := session]
                && NameRule(old(full), j, resource, policy, generated, name)
    {
      hide *;
      var name := Arrange(j, resource, policy, generated);
      if name.None? {
        return Failed(Conflict);
      }
      var f := FullJid(j, name.value);
      EnrollOrRollBack(session, f, rosterFails);
      result := if rosterFails then Failed(RosterError) else Done;
      PutBack(old(full), f, session);
      NameFreed(old(full), j, resource, policy, generated, name.value);
    }

    lemma ResourceOf(session: Session)
      requires Valid() && session in all
      ensures session.fullJid.Some? ==>
                session.resource == Some(session.fullJid.value.resource) && session.kind == Bound
    {
      assert session.Proper(hosts.Keys);
    }

    /** The session enters the tables, and leaves them again if its roster cannot be loaded. */
    method EnrollOrRollBack(session: Session, f: FullJid, rosterFails: bool)
      requires TablesAgree({f.bare}) && SessionsAgree() && f.bare in bare && f !in full
      requires session in all && session.fullJid == None && session.resource == None
      requires session.kind != Bound && !session.rosterLoaded
      requires session.username == Some(f.bare.user) && session.host == Some(f.bare.host)
      modifies this`bare, this`full, hosts.Values`sessions, Tables()`m
      modifies session`resource, session`fullJid, session`kind, session`rosterLoaded
      ensures Valid()
      ensures full == if rosterFails then old(full) else old(full)[f := session]
      ensures session.fullJid == if rosterFails then None else Some(f)
      ensures rosterFails ==> session.resource == None && session.kind == old(session.kind)
      ensures !rosterFails ==> session.kind == Bound && session.rosterLoaded && session.resource == Some(f.resource)
    {
      hide TablesAgree, SessionsAgree, Valid;
      Enroll(session, f);
      if rosterFails {
        RollBack(session, f);
        assert full == old(full);
      } else {
        SetRosterLoaded(session);
        ResourceOf(session);
      }
    }

    /** The loaded roster is put on the session. */
    method SetRosterLoaded(session: Session)
      requires Valid() && session in all && session.fullJid.Some?
      modifies session`rosterLoaded
      ensures Valid() && session.rosterLoaded
    {
      hide Acknowledged, Registered, SameEntries, Separate, NoneEmptyBut;
      ghost var claims, content, view := Claims(), Content(), HostView();
      session.rosterLoaded := true;
      assert Content() == content && HostView() == view && Claims() == claims;
    }

    /** What validity says about a session that asks to be bound. */
    lemma Applicant(session: Session)
      requires Valid() && session in all
      ensures session.username.Some? ==> session.host.Some? && session.host.value in hosts
      ensures session.resource.Some? <==> session.fullJid.Some?
      ensures session.destroyed ==> session.fullJid.None?
      ensures session.fullJid.None? ==> session.kind != Bound && !session.rosterLoaded && session !in full.Values
    {
      assert session.Proper(hosts.Keys);
      forall f | f in full && session.fullJid.None?
        ensures full[f] != session
      {
        HolderOf(f);
      }
    }
  }
}
