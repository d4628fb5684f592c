/** One user's roster as core/rostermanager.lua keeps it: in memory, edited in place by each
    subscription operation, and saved key by key through the map store. */
module RosterManager {
  import opened Subscription
  import opened Storage

  /** The `subscription` string of an item. */
  datatype Level = LevelNone | LevelTo | LevelFrom | LevelBoth

  /** `ask` is the flag `ask = "subscribe"`, `approved` the flag `approved = "true"`. */
  datatype Item = Item(subscription: Level, ask: bool, approved: bool, groups: set<string>)

  /** A pending request is stored as the serialized stanza, or as a bare `true`. */
  datatype Request = Bare | Stanza(xml: string)

  /** `Unversioned` is nil, `Fixed` the value `true` that switches counting off. */
  datatype Version = Unversioned | Number(n: nat) | Fixed

  datatype Metadata = Metadata(version: Version, pending: map<Jid, Request>, broken: bool)

  const FRESH_METADATA := Metadata(Unversioned, map[], false)
  const NEW_ITEM := Item(LevelNone, false, false, {})

  /** Keys and values of a stored roster: `false` leads to the metadata, a JID to an item. */
  datatype Key = MetaKey | ItemKey(jid: Jid)
  datatype Value = MetaValue(meta: Metadata) | ItemValue(item: Item)

  type Row = map<Key, Value>

  /** What the environment decides: whether the account exists, and how storage behaves. */
  datatype Env = Env(userExists: bool, io: Io)
  {
    predicate Works() { userExists && io.Works() }
  }

  /** The metadata of a stored row, created when missing. */
  function StoredMetadata(row: Row): Metadata {
    if MetaKey in row && row[MetaKey].MetaValue? then row[MetaKey].meta else FRESH_METADATA
  }

  /** The contacts of a stored row. */
  function StoredItems(row: Row): map<Jid, Item> {
    map k | k in row && k.ItemKey? && row[k].ItemValue? :: k.jid := row[k].item
  }

  function Next(v: Version): Version {
    match v
    case Unversioned => Number(1)
    case Number(n) => Number(n + 1)
    case Fixed => Fixed
  }

  /** What items and metadata say about one contact. */
  function ViewOf(items: map<Jid, Item>, meta: Metadata, jid: Jid): Contact {
    if jid in items then
      Contact(items[jid].subscription == LevelTo || items[jid].subscription == LevelBoth,
              items[jid].subscription == LevelFrom || items[jid].subscription == LevelBoth,
              items[jid].ask, jid in meta.pending, items[jid].approved)
    else
      NO_CONTACT.(pendingIn := jid in meta.pending)
  }

  /** The subscription string of a contact says in which directions there is a subscription. */
  lemma LevelsSay(items: map<Jid, Item>, meta: Metadata, jid: Jid)
    requires jid in items
    ensures var c := ViewOf(items, meta, jid);
            match items[jid].subscription
            case LevelNone => !c.to && !c.from
            case LevelTo => c.to && !c.from
            case LevelFrom => !c.to && c.from
            case LevelBoth => c.to && c.from
  {
  }

  /** A row holds these items, item by item, and this metadata. */
  ghost predicate Stores(row: Row, items: map<Jid, Item>, meta: Metadata) {
    && StoredMetadata(row) == meta
    && (forall j :: ItemKey(j) in row <==> j in items)
    && (forall j :: j in items ==> row[ItemKey(j)] == ItemValue(items[j]))
  }

  ghost predicate AllConsistent(items: map<Jid, Item>, meta: Metadata) {
    forall jid :: Consistent(ViewOf(items, meta, jid))
  }

  /** Two maps agree on every key but this one. */
  ghost predicate AgreeExcept<V>(m: map<Jid, V>, n: map<Jid, V>, jid: Jid) {
    forall j :: j != jid ==> (j in m <==> j in n) && (j in m ==> m[j] == n[j])
  }

  /** What saving one contact asks of the map store. */
  function ChangesFor(jid: Jid, items: map<Jid, Item>, meta: Metadata): map<Key, Change<Value>> {
    map[MetaKey := Put(MetaValue(meta)),
        ItemKey(jid) := if jid in items then Put(ItemValue(items[jid])) else Remove]
  }

  /** A whole roster as a row. */
  function RowOf(items: map<Jid, Item>, meta: Metadata): Row {
    (map j | j in items :: ItemKey(j) := ItemValue(items[j]))[MetaKey := MetaValue(meta)]
  }

  lemma RowOfStores(items: map<Jid, Item>, meta: Metadata)
    ensures Stores(RowOf(items, meta), items, meta)
  {
    forall j | j in items
      ensures ItemKey(j) in RowOf(items, meta) && RowOf(items, meta)[ItemKey(j)] == ItemValue(items[j])
    {
    }
  }

  class Roster {
    const user: Jid
    const store: MapShim<Key, Value>
    var items: map<Jid, Item>
    var meta: Metadata

    /** The roster of a user who has stored nothing yet. */
    constructor (user: Jid, store: MapShim<Key, Value>)
      requires user !in store.rows
      ensures this.user == user && this.store == store
      ensures items == map[] && meta == FRESH_METADATA
      ensures Valid() && InSync()
    {
      this.user := user;
      this.store := store;
      items := map[];
      meta := FRESH_METADATA;
    }

    function View(jid: Jid): Contact
      reads this
    {
      ViewOf(items, meta, jid)
    }

    /** A broken roster is never written. */
    predicate CanSave(env: Env)
      reads this
    {
      !meta.broken && env.Works()
    }

    /** Every contact is in one of the nine states. */
    ghost predicate Valid()
      reads this
    {
      AllConsistent(items, meta)
    }

    /** The stored row holds exactly the contacts and the metadata in memory. */
    ghost predicate InSync()
      reads this, store
    {
      Stores(store.Row(user), items, meta)
    }

    /** An item stays, with its groups; a new one has none. */
    twostate predicate KeepsGroups(jid: Jid)
      reads this
    {
      && (jid in old(items) ==> jid in items && items[jid].groups == old(items)[jid].groups)
      && (jid in items && jid !in old(items) ==> items[jid].groups == {})
    }

    /** A request that stays pending is still the same stanza. */
    twostate predicate KeepsRequest(jid: Jid)
      reads this
    {
      jid in old(meta.pending) && jid in meta.pending ==> meta.pending[jid] == old(meta.pending)[jid]
    }

    /** A save attempt counts the version up as soon as the account exists. */
    twostate predicate VersionStep(env: Env)
      reads this
    {
      meta.version == if env.userExists then Next(old(meta.version)) else old(meta.version)
    }

    /** The store is as before, or just the user's row got this contact and the metadata. */
    twostate predicate Wrote(jid: Jid, saved: bool)
      reads this, store
    {
      store.rows == if saved
                    then old(store.rows)[user := Apply(old(store.Row(user)), ChangesFor(jid, items, meta))]
                    else old(store.rows)
    }

    /** An operation on `jid` took that contact to `c` and no other anywhere; it attempted one
        save unless it changed nothing, and a save keeps the stored row equal to memory. */
    twostate predicate Became(jid: Jid, c: Contact, env: Env)
      reads this, store
    {
      && View(jid) == c
      && AgreeExcept(old(items), items, jid) && KeepsGroups(jid)
      && AgreeExcept(old(meta.pending), meta.pending, jid)
      && meta.broken == old(meta.broken)
      && Valid()
      && ((VersionStep(env) && Wrote(jid, CanSave(env))) || (unchanged(this) && unchanged(store)))
      && (old(InSync()) && CanSave(env) ==> InSync())
    }

    method SaveRoster(jid: Jid, env: Env) returns (saved: bool)
      modifies this`meta, store
      ensures meta == old(meta).(version := meta.version)
      ensures VersionStep(env)
      ensures env.userExists && old(meta.version).Number? ==> meta.version == Number(old(meta.version).n + 1)
      ensures env.userExists && old(meta.version).Unversioned? ==> meta.version == Number(1)
      ensures !env.userExists || old(meta.version).Fixed? ==> meta.version == old(meta.version)
      ensures saved <==> CanSave(env)
      ensures Wrote(jid, saved)
    {
      if !env.userExists {
        return false;
      }
      if meta.version != Fixed {
        meta := meta.(version := if meta.version.Number? then Number(meta.version.n + 1) else Number(1));
      }
      if meta.broken {
        return false;
      }
      saved := store.SetKeys(user, ChangesFor(jid, items, meta), env.io);
    }

    /** Saving without naming a contact stores the whole roster, whatever was stored before. */
    method SaveWholeRoster(env: Env) returns (saved: bool)
      modifies this`meta, store
      ensures meta == old(meta).(version := meta.version)
      ensures VersionStep(env)
      ensures env.userExists && old(meta.version).Number? ==> meta.version == Number(old(meta.version).n + 1)
      ensures env.userExists && old(meta.version).Unversioned? ==> meta.version == Number(1)
      ensures !env.userExists || old(meta.version).Fixed? ==> meta.version == old(meta.version)
      ensures saved <==> !meta.broken && env.userExists && !env.io.writeFails
      ensures store.rows == if saved then old(store.rows)[user := RowOf(items, meta)] else old(store.rows)
      ensures saved ==> InSync()
    {
      if !env.userExists {
        return false;
      }
      if meta.version != Fixed {
        meta := meta.(version := if meta.version.Number? then Number(meta.version.n + 1) else Number(1));
      }
      if meta.broken {
        return false;
      }
      saved := store.SetRow(user, RowOf(items, meta), env.io);
      RowOfStores(items, meta);
    }

    predicate IsContactPendingIn(jid: Jid)
      reads this
    {
      jid in meta.pending
    }

    predicate IsContactPendingOut(jid: Jid)
      reads this
    {
      jid in items && items[jid].ask
    }

    /** Local user sends `subscribe`. */
    method SetContactPendingOut(jid: Jid, env: Env) returns (ok: bool)
      requires Valid()
      modifies this, store
      ensures Became(jid, Outbound(Subscribe, old(View(jid))), env)
      ensures KeepsRequest(jid)
      ensures ok <==> old(View(jid).ask || View(jid).to) || (CanSave(env))
    {
      if jid in items
         && (items[jid].ask || items[jid].subscription == LevelTo || items[jid].subscription == LevelBoth) {
        return true;
      }
      var item := if jid in items then items[jid] else NEW_ITEM;
      items := items[jid := item.(ask := true)];
      ok := SaveRoster(jid, env);
      EditSettles(old(store.Row(user)), jid, old(items), old(meta), items, meta);
    }

    /** Contact's `subscribe` arrives. */
    method SetContactPendingIn(jid: Jid, request: Request, env: Env) returns (ok: bool)
      requires Valid()
      modifies this, store
      ensures Became(jid, Inbound(Subscribe, old(View(jid))), env)
      ensures ok <==> !old(View(jid).from) && CanSave(env)
      ensures jid in meta.pending ==> meta.pending[jid] == request
    {
      if jid in items && (items[jid].subscription == LevelFrom || items[jid].subscription == LevelBoth) {
        return false;
      }
      meta := meta.(pending := meta.pending[jid := request]);
      ok := SaveRoster(jid, env);
      EditSettles(old(store.Row(user)), jid, old(items), old(meta), items, meta);
    }

    /** Local user sends `unsubscribe`. */
    method Unsubscribe(jid: Jid, env: Env) returns (ok: bool)
      requires Valid()
      modifies this, store
      ensures Became(jid, Outbound(Op.Unsubscribe, old(View(jid))), env)
      ensures KeepsRequest(jid)
      ensures ok == if old(View(jid).to || View(jid).ask) then CanSave(env) else old(jid in items)
    {
      if jid !in items {
        return false;
      }
      var item := items[jid];
      if (item.subscription == LevelFrom || item.subscription == LevelNone) && !item.ask {
        return true;
      }
      item := item.(ask := false);
      if item.subscription == LevelBoth {
        item := item.(subscription := LevelFrom);
      } else if item.subscription == LevelTo {
        item := item.(subscription := LevelNone);
      }
      items := items[jid := item];
      ok := SaveRoster(jid, env);
      EditSettles(old(store.Row(user)), jid, old(items), old(meta), items, meta);
    }

    /** Contact's `unsubscribe` arrives. */
    method ProcessInboundUnsubscribe(jid: Jid, env: Env) returns (ok: bool)
      requires Valid()
      modifies this, store
      ensures Became(jid, Inbound(Op.Unsubscribe, old(View(jid))), env)
      ensures KeepsRequest(jid)
      ensures ok <==> old(View(jid).from || View(jid).pendingIn) && CanSave(env)
    {
      var changed := IsContactPendingIn(jid);
      if changed {
        meta := meta.(pending := meta.pending - {jid});
      }
      if jid in items && items[jid].subscription == LevelFrom {
        items, changed := items[jid := items[jid].(subscription := LevelNone)], true;
      } else if jid in items && items[jid].subscription == LevelBoth {
        items, changed := items[jid := items[jid].(subscription := LevelTo)], true;
      }
      if changed {
        ok := SaveRoster(jid, env);
        EditSettles(old(store.Row(user)), jid, old(items), old(meta), items, meta);
      } else {
        ok := false;
      }
    }

    /** Local user sends `subscribed`: approves a request, or records a pre-approval. */
    method ApproveContact(jid: Jid, env: Env) returns (ok: bool)
      requires Valid()
      modifies this, store
      ensures Became(jid, Outbound(Subscribed, old(View(jid))), env)
      ensures KeepsRequest(jid)
      ensures ok <==> !old(View(jid).from) && CanSave(env)
    {
      if IsContactPendingIn(jid) {
        var item := if jid in items then items[jid] else NEW_ITEM;
        if item.subscription == LevelNone {
          item := item.(subscription := LevelFrom);
        } else {
          item := item.(subscription := LevelBoth);
        }
        items, meta := items[jid := item], meta.(pending := meta.pending - {jid});
        ok := SaveRoster(jid, env);
        EditSettles(old(store.Row(user)), jid, old(items), old(meta), items, meta);
      } else if jid !in items || items[jid].subscription == LevelNone || items[jid].subscription == LevelTo {
        var item := if jid in items then items[jid] else NEW_ITEM;
        items := items[jid := item.(approved := true)];
        ok := SaveRoster(jid, env);
        EditSettles(old(store.Row(user)), jid, old(items), old(meta), items, meta);
      } else {
        ok := false;
      }
    }

    /** Contact's `subscribed` arrives. */
    method ProcessInboundApproval(jid: Jid, env: Env) returns (ok: bool)
      requires Valid()
      modifies this, store
      ensures Became(jid, Inbound(Subscribed, old(View(jid))), env)
      ensures KeepsRequest(jid)
      ensures ok <==> old(View(jid).ask) && CanSave(env)
    {
      if jid in items && items[jid].ask {
        var item := items[jid];
        if item.subscription == LevelNone {
          item := item.(subscription := LevelTo);
        } else {
          item := item.(subscription := LevelBoth);
        }
        items := items[jid := item.(ask := false)];
        ok := SaveRoster(jid, env);
        EditSettles(old(store.Row(user)), jid, old(items), old(meta), items, meta);
      } else {
        ok := false;
      }
    }

    /** Local user sends `unsubscribed`: denies a request or cancels a subscription. */
    method CancelContact(jid: Jid, env: Env) returns (success: bool, pending: bool, isSubscribed: bool)
      requires Valid()
      modifies this, store
      ensures Became(jid, Outbound(Unsubscribed, old(View(jid))), env)
      ensures KeepsRequest(jid)
      ensures pending == old(View(jid).pendingIn) && isSubscribed == old(View(jid).from)
      ensures success <==> (pending || isSubscribed) && CanSave(env)
    {
      pending := IsContactPendingIn(jid);
      if pending {
        meta := meta.(pending := meta.pending - {jid});
      }
      isSubscribed := false;
      if jid in items && items[jid].subscription == LevelFrom {
        items, isSubscribed := items[jid := items[jid].(subscription := LevelNone)], true;
      } else if jid in items && items[jid].subscription == LevelBoth {
        items, isSubscribed := items[jid := items[jid].(subscription := LevelTo)], true;
      }
      if pending || isSubscribed {
        success := SaveRoster(jid, env);
        EditSettles(old(store.Row(user)), jid, old(items), old(meta), items, meta);
      } else {
        success := false;
      }
    }

    /** Contact's `unsubscribed` arrives. */
    method ProcessInboundCancellation(jid: Jid, env: Env) returns (ok: bool)
      requires Valid()
      modifies this, store
      ensures Became(jid, Inbound(Unsubscribed, old(View(jid))), env)
      ensures KeepsRequest(jid)
      ensures ok <==> old(View(jid).to || View(jid).ask) && CanSave(env)
    {
      var changed := IsContactPendingOut(jid);
      if jid in items {
        var item := items[jid].(ask := false);
        if item.subscription == LevelTo {
          item, changed := item.(subscription := LevelNone), true;
        } else if item.subscription == LevelBoth {
          item, changed := item.(subscription := LevelFrom), true;
        }
        if changed {
          items := items[jid := item];
        }
      }
      if changed {
        ok := SaveRoster(jid, env);
        EditSettles(old(store.Row(user)), jid, old(items), old(meta), items, meta);
      } else {
        ok := false;
      }
    }

    /** The same request recorded for an existing item only. */
    method ProcessOutboundRequest(jid: Jid, env: Env) returns (ok: bool)
      requires Valid()
      modifies this, store
      ensures Became(jid, if old(jid in items) then Outbound(Op.Subscribe, old(View(jid))) else old(View(jid)), env)
      ensures KeepsRequest(jid)
      ensures ok <==> old(jid in items && !View(jid).to) && CanSave(env)
    {
      if jid in items && (items[jid].subscription == LevelNone || items[jid].subscription == LevelFrom) {
        items := items[jid := items[jid].(ask := true)];
        ok := SaveRoster(jid, env);
        EditSettles(old(store.Row(user)), jid, old(items), old(meta), items, meta);
      } else {
        ok := false;
      }
    }

    /** `load_roster` reading from storage: the memory copy is replaced by the stored row; a
        read error leaves an empty roster marked broken; a self-contact is dropped and saved. */
    method Load(env: Env) returns (err: bool)
      modifies this, store
      ensures err == env.io.readFails
      ensures Wrote(user, !err && user in StoredItems(old(store.Row(user))) && CanSave(env))
      ensures err ==> items == map[] && meta.broken && store.rows == old(store.rows)
      ensures !err ==> items == StoredItems(old(store.Row(user))) - {user}
      ensures !err ==> meta == StoredMetadata(old(store.Row(user))).(version := meta.version)
      ensures old(InSync()) && user !in old(items) && !err ==>
                items == old(items) && meta == old(meta) && store.rows == old(store.rows)
    {
      hide Stores, StoredItems, StoredMetadata;
      StoresReadBack(store.Row(user), items, meta);
      err := env.io.readFails;
      if err {
        items, meta := map[], FRESH_METADATA.(broken := true);
      } else {
        items, meta := StoredItems(store.Row(user)), StoredMetadata(store.Row(user));
      }
      if user in items {
        items := items - {user};
        var saved := SaveRoster(user, env);
      } else {
        assert items - {user} == items;
      }
    }
  }

  /** Reading a stored row back gives the contacts it was written from. */
  lemma StoresReadBack(row: Row, items: map<Jid, Item>, meta: Metadata)
    ensures Stores(row, items, meta) ==> StoredItems(row) == items && StoredMetadata(row) == meta
  {
  }

  /** An edit of one contact that leaves it consistent leaves every contact consistent; and
      writing that contact and the metadata brings a row up to date with memory, if the row
      held what memory had before. */
  lemma EditSettles(row: Row, jid: Jid, items: map<Jid, Item>, meta: Metadata, items': map<Jid, Item>, meta': Metadata)
    requires AgreeExcept(items, items', jid) && AgreeExcept(meta.pending, meta'.pending, jid)
    requires AllConsistent(items, meta)
    requires Consistent(ViewOf(items, meta, jid)) ==> Consistent(ViewOf(items', meta', jid))
    ensures AllConsistent(items', meta')
    ensures Stores(row, items, meta) ==> Stores(Apply(row, ChangesFor(jid, items', meta')), items', meta')
  {
    forall j | j != jid
      ensures Consistent(ViewOf(items', meta', j))
    {
      assert Consistent(ViewOf(items, meta, j));
    }
  }
}
