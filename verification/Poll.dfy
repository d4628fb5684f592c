/** The poll(2) backend of util-src/poll.c: an array of watched descriptors with
    swap-removal, scanned downwards for what the last poll() found. */
module Poll {

  const MAX_WATCHED: nat := 10000

  /** POLLIN and POLLOUT, as asked for. */
  datatype Interest = Interest(read: bool, write: bool)

  /** The bits poll() may set; `other` stands for those the backend does not look at. */
  datatype Revents = Revents(input: bool, output: bool, error: bool, hangup: bool, other: bool)
  {
    predicate Quiet() { !input && !output && !error && !hangup && !other }
  }

  const QUIET := Revents(false, false, false, false, false)

  /** struct pollfd */
  datatype Slot = Slot(fd: int, events: Interest, revents: Revents)

  datatype Errno = EBADF | EEXIST | EMFILE | ENOENT

  datatype Status = Done | Failed(errno: Errno)

  /** What the poll() system call does: it fills in revents, or it returns without any. */
  datatype Outcome = Ready(revents: seq<Revents>) | Expired | Interrupted | Broken(code: int)

  datatype Event = Event(fd: int, readable: bool, writable: bool) | TimedOut | Signalled | Error(code: int)

  // ---------- What an array prefix stands for ----------

  ghost predicate Distinct(s: seq<Slot>) {
    forall i, j :: 0 <= i < j < |s| ==> s[i].fd != s[j].fd
  }

  /** The watched descriptors and what each is watched for. */
  ghost function WatchedIn(s: seq<Slot>): map<int, Interest>
    requires Distinct(s)
  {
    map i | 0 <= i < |s| :: s[i].fd := s[i].events
  }

  /** What poll() found and has not been reported yet: the slots below `processed`. */
  ghost function ReadyIn(s: seq<Slot>, processed: int): map<int, Revents>
    requires Distinct(s)
  {
    map i | 0 <= i < |s| && i < processed && !s[i].revents.Quiet() :: s[i].fd := s[i].revents
  }

  ghost predicate QuietFrom(s: seq<Slot>, processed: int) {
    forall i :: 0 <= i < |s| && processed <= i ==> s[i].revents.Quiet()
  }

  lemma Lookup(s: seq<Slot>, fd: int)
    requires Distinct(s)
    ensures forall i :: 0 <= i < |s| ==> s[i].fd in WatchedIn(s)
    ensures (forall i :: 0 <= i < |s| ==> s[i].fd != fd) ==> fd !in WatchedIn(s)
  {
  }

  lemma NothingReady(s: seq<Slot>, processed: int)
    requires Distinct(s)
    ensures (forall i :: 0 <= i < |s| && i < processed ==> s[i].revents.Quiet()) ==> ReadyIn(s, processed) == map[]
    ensures ReadyIn(s, processed).Keys <= WatchedIn(s).Keys
  {
  }

  /** The last slot moved over slot k. */
  ghost function Removed(s: seq<Slot>, k: nat): (r: seq<Slot>)
    requires k < |s|
    ensures |r| == |s| - 1
    ensures forall j :: 0 <= j < |r| ==> r[j] == s[if j == k then |s| - 1 else j]
  {
    s[k := s[|s| - 1]][..|s| - 1]
  }

  lemma RemovedKeeps(s: seq<Slot>, k: nat, processed: int)
    requires k < |s| && Distinct(s) && QuietFrom(s, processed)
    ensures Distinct(Removed(s, k)) && QuietFrom(Removed(s, k), processed)
  {
    hide Removed;
  }

  lemma WatchedHas(s: seq<Slot>, i: nat)
    requires Distinct(s) && i < |s|
    ensures s[i].fd in WatchedIn(s) && WatchedIn(s)[s[i].fd] == s[i].events
  {
  }

  lemma WatchedFrom(s: seq<Slot>, fd: int) returns (i: nat)
    requires Distinct(s) && fd in WatchedIn(s)
    ensures i < |s| && s[i].fd == fd && WatchedIn(s)[fd] == s[i].events
  {
    i :| i < |s| && s[i].fd == fd;
  }

  lemma ReadyHas(s: seq<Slot>, processed: int, i: nat)
    requires Distinct(s) && i < |s| && i < processed && !s[i].revents.Quiet()
    ensures s[i].fd in ReadyIn(s, processed) && ReadyIn(s, processed)[s[i].fd] == s[i].revents
  {
  }

  lemma ReadyFrom(s: seq<Slot>, processed: int, fd: int) returns (i: nat)
    requires Distinct(s) && fd in ReadyIn(s, processed)
    ensures i < |s| && i < processed && !s[i].revents.Quiet() && s[i].fd == fd
    ensures ReadyIn(s, processed)[fd] == s[i].revents
  {
    i :| i < |s| && i < processed && !s[i].revents.Quiet() && s[i].fd == fd;
  }

  lemma RemovedWatched(s: seq<Slot>, k: nat)
    requires k < |s| && Distinct(s) && Distinct(Removed(s, k))
    ensures WatchedIn(Removed(s, k)) == WatchedIn(s) - {s[k].fd}
  {
    hide Removed, WatchedIn;
    var r := Removed(s, k);
    var w, w' := WatchedIn(s) - {s[k].fd}, WatchedIn(r);
    forall fd | fd in w
      ensures fd in w' && w'[fd] == w[fd]
    {
      var i := WatchedFrom(s, fd);
      WatchedHas(r, if i == |s| - 1 then k else i);
    }
    forall fd | fd in w'
      ensures fd in w
    {
      var j := WatchedFrom(r, fd);
      WatchedHas(s, if j == k then |s| - 1 else j);
    }
  }

  /** Whatever slot moves, the unreported descriptors stay the same but for the removed one:
      a slot moved down was scanned already, or is unscanned at its new place as well. */
  lemma RemovedReady(s: seq<Slot>, k: nat, processed: int)
    requires k < |s| && Distinct(s) && Distinct(Removed(s, k)) && QuietFrom(s, processed)
    ensures ReadyIn(Removed(s, k), processed) == ReadyIn(s, processed) - {s[k].fd}
  {
    hide Removed, ReadyIn;
    var r := Removed(s, k);
    var w, w' := ReadyIn(s, processed) - {s[k].fd}, ReadyIn(r, processed);
    forall fd | fd in w
      ensures fd in w' && w'[fd] == w[fd]
    {
      var i := ReadyFrom(s, processed, fd);
      ReadyHas(r, processed, if i == |s| - 1 then k else i);
    }
    forall fd | fd in w'
      ensures fd in w
    {
      var j := ReadyFrom(r, processed, fd);
      ReadyHas(s, processed, if j == k then |s| - 1 else j);
    }
  }

  ghost function Appended(s: seq<Slot>, fd: int, events: Interest): seq<Slot> {
    s + [Slot(fd, events, QUIET)]
  }

  lemma AppendedKeeps(s: seq<Slot>, fd: int, events: Interest, processed: int)
    requires Distinct(s) && (forall i :: 0 <= i < |s| ==> s[i].fd != fd) && QuietFrom(s, processed)
    ensures Distinct(Appended(s, fd, events)) && QuietFrom(Appended(s, fd, events), processed)
  {
  }

  lemma AppendedWatched(s: seq<Slot>, fd: int, events: Interest)
    requires Distinct(s) && Distinct(Appended(s, fd, events))
    ensures WatchedIn(Appended(s, fd, events)) == WatchedIn(s)[fd := events]
  {
    var r := Appended(s, fd, events);
    var w, w' := WatchedIn(s)[fd := events], WatchedIn(r);
    forall f | f in w
      ensures f in w' && w'[f] == w[f]
    {
      if f == fd {
        assert r[|s|].fd == f;
      } else {
        var i :| 0 <= i < |s| && s[i].fd == f;
        assert r[i] == s[i];
      }
    }
    forall f | f in w'
      ensures f in w
    {
      var j :| 0 <= j < |r| && r[j].fd == f;
      assert j < |s| ==> s[j] == r[j];
    }
  }

  lemma AppendedReady(s: seq<Slot>, fd: int, events: Interest, processed: int)
    requires Distinct(s) && Distinct(Appended(s, fd, events))
    ensures ReadyIn(Appended(s, fd, events), processed) == ReadyIn(s, processed)
  {
  }

  lemma SameFds(s: seq<Slot>, r: seq<Slot>)
    requires |s| == |r| && Distinct(s) && forall i :: 0 <= i < |s| ==> s[i].fd == r[i].fd
    ensures Distinct(r)
  {
  }

  /** Slots that agree in descriptor and interest stand for the same watched map. */
  lemma SameWatched(s: seq<Slot>, r: seq<Slot>)
    requires |s| == |r| && Distinct(s) && Distinct(r)
    requires forall i :: 0 <= i < |s| ==> s[i].fd == r[i].fd && s[i].events == r[i].events
    ensures WatchedIn(s) == WatchedIn(r)
  {
  }

  lemma SameReady(s: seq<Slot>, r: seq<Slot>, processed: int)
    requires |s| == |r| && Distinct(s) && Distinct(r)
    requires forall i :: 0 <= i < |s| ==> s[i].fd == r[i].fd && s[i].revents == r[i].revents
    ensures ReadyIn(s, processed) == ReadyIn(r, processed)
  {
  }

  lemma InterestWatched(s: seq<Slot>, k: nat, events: Interest)
    requires k < |s| && Distinct(s) && Distinct(s[k := s[k].(events := events)])
    ensures WatchedIn(s[k := s[k].(events := events)]) == WatchedIn(s)[s[k].fd := events]
  {
    var r := s[k := s[k].(events := events)];
    var w, w' := WatchedIn(s)[s[k].fd := events], WatchedIn(r);
    assert r[k].fd == s[k].fd;
    forall f | f in w
      ensures f in w' && w'[f] == w[f]
    {
      var i :| 0 <= i < |s| && s[i].fd == f;
      assert r[i].fd == f;
    }
    forall f | f in w'
      ensures f in w
    {
      var j :| 0 <= j < |r| && r[j].fd == f;
      assert s[j].fd == f;
    }
  }

  /** Reporting the highest unreported slot takes exactly it out of what is unreported. */
  lemma ReportedReady(s: seq<Slot>, k: nat, processed: int)
    requires k < |s| && k < processed && QuietFrom(s, k + 1) && !s[k].revents.Quiet()
    requires Distinct(s) && Distinct(s[k := s[k].(revents := QUIET)])
    ensures ReadyIn(s[k := s[k].(revents := QUIET)], k) == ReadyIn(s, processed) - {s[k].fd}
    ensures s[k].fd in ReadyIn(s, processed) && ReadyIn(s, processed)[s[k].fd] == s[k].revents
  {
    var r := s[k := s[k].(revents := QUIET)];
    var w, w' := ReadyIn(s, processed) - {s[k].fd}, ReadyIn(r, k);
    hide ReadyIn;
    ReadyHas(s, processed, k);
    forall f | f in w
      ensures f in w' && w'[f] == w[f]
    {
      var i := ReadyFrom(s, processed, f);
      ReadyHas(r, k, i);
    }
    forall f | f in w'
      ensures f in w
    {
      var j := ReadyFrom(r, k, f);
      ReadyHas(s, processed, j);
    }
  }

  /** There are as many watched descriptors as slots in use. */
  lemma {:induction false} WatchedSize(s: seq<Slot>)
    requires Distinct(s)
    ensures |WatchedIn(s)| == |s|
  {
    if s == [] {
      assert WatchedIn(s) == map[];
    } else {
      hide WatchedIn;
      var last := s[|s| - 1];
      var init := s[..|s| - 1];
      WatchedSize(init);
      var r := Appended(init, last.fd, last.events);
      AppendedWatched(init, last.fd, last.events);
      SameWatched(s, r);
      Lookup(init, last.fd);
      assert |WatchedIn(s)| == |WatchedIn(init)| + 1;
    }
  }

  // ---------- The object ----------

  class State {
    var processed: int
    var count: nat
    const events: array<Slot>

    ghost function Slots(): seq<Slot>
      requires count <= events.Length
      reads this, events
    {
      events[..count]
    }

    /** The prefix is a duplicate-free table, free slots are marked -1, and slots that were
        scanned or added since the last poll() are quiet. */
    ghost predicate Valid()
      reads this, events
    {
      && events.Length == MAX_WATCHED && count <= MAX_WATCHED && -1 <= processed <= MAX_WATCHED
      && Distinct(Slots()) && QuietFrom(Slots(), processed)
      && (forall i :: 0 <= i < count ==> events[i].fd >= 0)
      && (forall i :: count <= i < MAX_WATCHED ==> events[i].fd == -1)
    }

    ghost function Watched(): map<int, Interest>
      requires Valid()
      reads this, events
    {
      WatchedIn(Slots())
    }

    ghost function Unreported(): map<int, Revents>
      requires Valid()
      reads this, events
    {
      ReadyIn(Slots(), processed)
    }

    ghost function AsSets(): Sets
      requires Valid()
      reads this, events
    {
      Sets(Watched().Keys, Unreported().Keys)
    }

    constructor ()
      ensures Valid() && Watched() == map[] && Unreported() == map[] && fresh(events)
    {
      processed, count := -1, 0;
      events := new Slot[MAX_WATCHED](i => Slot(-1, Interest(false, false), QUIET));
    }

    method Add(fd: int, read: bool, write: bool) returns (status: Status)
      requires Valid()
      modifies this`count, events
      ensures Valid() && Unreported() == old(Unreported())
      ensures status == if fd < 0 then Failed(EBADF)
                        else if fd in old(Watched()) then Failed(EEXIST)
                        else if |old(Watched())| == MAX_WATCHED then Failed(EMFILE)
                        else Done
      ensures Watched() == if status == Done then old(Watched())[fd := Interest(read, write)] else old(Watched())
      ensures status == Done ==> Possible(AddCall(fd), old(AsSets())) && AsSets() == Effect(AddCall(fd), old(AsSets()))
    {
      hide WatchedIn, ReadyIn, Distinct;
      Lookup(Slots(), fd);
      if fd < 0 {
        return Failed(EBADF);
      }
      for i := 0 to count
        invariant forall k :: 0 <= k < i ==> events[k].fd != fd
      {
        if events[i].fd == fd {
          assert Slots()[i].fd == fd;
          return Failed(EEXIST);
        }
      }
      WatchedSize(Slots());
      if count >= MAX_WATCHED {
        return Failed(EMFILE);
      }
      ghost var before := Slots();
      AppendedKeeps(before, fd, Interest(read, write), processed);
      AppendedWatched(before, fd, Interest(read, write));
      AppendedReady(before, fd, Interest(read, write), processed);
      events[count] := Slot(fd, Interest(read, write), QUIET);
      count := count + 1;
      assert Slots() == Appended(before, fd, Interest(read, write));
      status := Done;
    }

    method Set(fd: int, read: bool, write: bool) returns (status: Status)
      requires Valid()
      modifies events
      ensures Valid() && Unreported() == old(Unreported())
      ensures status == if fd in old(Watched()) then Done else Failed(ENOENT)
      ensures Watched() == if status == Done then old(Watched())[fd := Interest(read, write)] else old(Watched())
      ensures status == Done ==> Possible(SetCall(fd), old(AsSets())) && AsSets() == Effect(SetCall(fd), old(AsSets()))
    {
      hide WatchedIn, ReadyIn, Distinct;
      Lookup(Slots(), fd);
      for i := 0 to count
        invariant forall k :: 0 <= k < i ==> events[k].fd != fd
      {
        if events[i].fd == fd {
          ghost var before := Slots();
          events[i] := events[i].(events := Interest(read, write));
          assert Slots() == before[i := before[i].(events := Interest(read, write))];
          SameFds(before, Slots());
          InterestWatched(before, i, Interest(read, write));
          SameReady(before, Slots(), processed);
          return Done;
        }
      }
      status := Failed(ENOENT);
    }

    method Del(fd: int) returns (status: Status)
      requires Valid()
      modifies this`count, events
      ensures Valid()
      ensures status == if fd in old(Watched()) then Done else Failed(ENOENT)
      ensures Watched() == old(Watched()) - {fd}
      ensures Unreported() == old(Unreported()) - {fd}
      ensures status == Done ==> Possible(DelCall(fd), old(AsSets())) && AsSets() == Effect(DelCall(fd), old(AsSets()))
    {
      hide WatchedIn, ReadyIn, Distinct;
      Lookup(Slots(), fd);
      NothingReady(Slots(), processed);
      if count == 0 {
        return Failed(ENOENT);
      }
      var last := count - 1;
      for i := 0 to count
        invariant forall k :: 0 <= k < i ==> events[k].fd != fd
      {
        if events[i].fd == fd {
          ghost var before := Slots();
          RemovedKeeps(before, i, processed);
          RemovedWatched(before, i);
          RemovedReady(before, i, processed);
          events[i] := events[last];
          events[last] := events[last].(fd := -1);
          count := count - 1;
          assert Slots() == Removed(before, i);
          assert before[i].fd == fd;
          return Done;
        }
      }
      status := Failed(ENOENT);
    }

    /** Lpushevent: the next unreported descriptor, if there is one. */
    method PushEvent() returns (found: bool, event: Event)
      requires Valid()
      modifies this`processed, events
      ensures Valid() && Watched() == old(Watched())
      ensures found <==> old(Unreported()) != map[]
      ensures found ==>
                && event.Event? && event.fd in old(Unreported())
                && var r := old(Unreported())[event.fd];
                && (event.readable <==> r.input || r.hangup || r.error) && (event.writable <==> r.output)
                && Unreported() == old(Unreported()) - {event.fd}
      ensures found ==> Possible(Report(event.fd), old(AsSets())) && AsSets() == Effect(Report(event.fd), old(AsSets()))
      ensures !found ==> events[..] == old(events[..]) && Slots() == old(Slots())
      ensures !found ==> Unreported() == map[] && forall i :: 0 <= i < count ==> events[i].revents.Quiet()
    {
      hide WatchedIn, ReadyIn, Distinct;
      NothingReady(Slots(), processed);
      var i := processed - 1;
      while i >= 0
        invariant i < processed && (i >= -1 || processed == -1)
        invariant forall k :: 0 <= k < count && i < k ==> events[k].revents.Quiet()
      {
        if events[i].fd != -1 && !events[i].revents.Quiet() {
          ghost var before := Slots();
          var r := events[i].revents;
          event := Event(events[i].fd, r.input || r.hangup || r.error, r.output);
          events[i] := events[i].(revents := QUIET);
          assert Slots() == before[i := before[i].(revents := QUIET)];
          SameFds(before, Slots());
          ReportedReady(before, i, processed);
          SameWatched(before, Slots());
          processed := i;
          return true, event;
        }
        i := i - 1;
      }
      found, event := false, TimedOut;
      assert Unreported() == map[];
    }

    method FillIn(revents: seq<Revents>)
      requires |revents| == count <= events.Length
      modifies events
      ensures Slots() == Filled(old(Slots()), revents)
      ensures forall i :: 0 <= i < events.Length ==> events[i].fd == old(events[i].fd)
    {
      forall i | 0 <= i < count {
        events[i] := events[i].(revents := revents[i]);
      }
    }

    /** What poll() does to the array, and that the scan starts over. */
    method Refill(revents: seq<Revents>)
      requires Valid() && |revents| == count && exists i :: 0 <= i < count && !revents[i].Quiet()
      modifies this`processed, events
      ensures Valid() && Watched() == old(Watched())
      ensures Unreported() == FoundBy(old(Slots()), revents) != map[]
    {
      hide WatchedIn, ReadyIn, Distinct;
      ghost var before := Slots();
      FillIn(revents);
      processed := count;
      FilledKeeps(before, revents);
      FilledReady(before, revents);
      ghost var i :| 0 <= i < count && !revents[i].Quiet();
      FindsSomething(before, revents, i);
    }

    /** Lwait: reports what is left over, else polls. `poll` is what the system call would
        do; when it finds something it says so for at least one descriptor. */
    method Wait(timeout: real, poll: Outcome) returns (event: Event)
      requires Valid() && timeout >= 0.0
      requires poll.Ready? ==> |poll.revents| == count && exists i :: 0 <= i < count && !poll.revents[i].Quiet()
      modifies this`processed, events
      ensures Valid() && Watched() == old(Watched())
      ensures var ready := if old(Unreported()) == map[] && timeout != 0.0 && poll.Ready?
                           then FoundBy(old(Slots()), poll.revents) else old(Unreported());
              && (ready != map[] ==>
                    && event.Event? && event.fd in ready
                    && (event.readable
                        <==> ready[event.fd].input || ready[event.fd].hangup || ready[event.fd].error)
                    && (event.writable <==> ready[event.fd].output)
                    && Unreported() == ready - {event.fd})
              && (ready == map[] ==>
                    && Unreported() == map[]
                    && (timeout == 0.0 || poll.Expired? ==> event == TimedOut)
                    && (timeout != 0.0 ==> !poll.Ready?)
                    && (timeout != 0.0 && poll.Interrupted? ==> event == Signalled)
                    && (timeout != 0.0 && poll.Broken? ==> event == Error(poll.code)))
    {
      hide WatchedIn, ReadyIn, Distinct, FoundBy;
      var pushed;
      pushed, event := PushEvent();
      if pushed {
        return;
      }
      if timeout == 0.0 {
        return TimedOut;
      }
      match poll {
        case Expired => return TimedOut;
        case Interrupted => return Signalled;
        case Broken(code) => return Error(code);
        case Ready(revents) =>
          Refill(revents);
          pushed, event := PushEvent();
      }
    }
  }

  /** What one poll() call finds. */
  ghost function FoundBy(s: seq<Slot>, revents: seq<Revents>): map<int, Revents>
    requires Distinct(s) && |revents| == |s|
  {
    map i | 0 <= i < |s| && !revents[i].Quiet() :: s[i].fd := revents[i]
  }

  /** The array after poll() filled in what it found. */
  ghost function Filled(s: seq<Slot>, revents: seq<Revents>): seq<Slot>
    requires |revents| == |s|
  {
    seq(|s|, i requires 0 <= i < |s| => s[i].(revents := revents[i]))
  }

  lemma FindsSomething(s: seq<Slot>, revents: seq<Revents>, i: nat)
    requires Distinct(s) && |revents| == |s| && i < |s| && !revents[i].Quiet()
    ensures FoundBy(s, revents) != map[]
  {
    assert s[i].fd in FoundBy(s, revents);
  }

  lemma FilledKeeps(s: seq<Slot>, revents: seq<Revents>)
    requires Distinct(s) && |revents| == |s|
    ensures Distinct(Filled(s, revents)) && WatchedIn(Filled(s, revents)) == WatchedIn(s)
  {
    var r := Filled(s, revents);
    assert forall i :: 0 <= i < |s| ==> r[i].fd == s[i].fd && r[i].events == s[i].events;
    SameFds(s, r);
    SameWatched(s, r);
  }

  lemma FilledReady(s: seq<Slot>, revents: seq<Revents>)
    requires Distinct(s) && |revents| == |s| && Distinct(Filled(s, revents))
    ensures ReadyIn(Filled(s, revents), |s|) == FoundBy(s, revents)
  {
    var r := Filled(s, revents);
    var w, w' := FoundBy(s, revents), ReadyIn(r, |s|);
    assert forall i :: 0 <= i < |s| ==> r[i].fd == s[i].fd && r[i].revents == revents[i];
    hide Filled, ReadyIn;
    forall f | f in w
      ensures f in w' && w'[f] == w[f]
    {
      var i :| 0 <= i < |s| && !revents[i].Quiet() && s[i].fd == f;
      ReadyHas(r, |s|, i);
    }
    forall f | f in w'
      ensures f in w
    {
      var j := ReadyFrom(r, |s|, f);
      assert s[j].fd == f && revents[j] == r[j].revents;
    }
  }

  // ---------- Runs between two poll() calls ----------

  /** Successful calls, by what they do to the sets of watched and unreported descriptors;
      `Report` is a wait that pushes a descriptor left over from the last poll(). */
  datatype Call = AddCall(fd: int) | SetCall(fd: int) | DelCall(fd: int) | Report(fd: int)

  datatype Sets = Sets(watched: set<int>, unreported: set<int>)

  predicate Possible(c: Call, s: Sets) {
    match c
    case AddCall(fd) => fd !in s.watched
    case SetCall(fd) => fd in s.watched
    case DelCall(fd) => fd in s.watched
    case Report(fd) => fd in s.unreported
  }

  function Effect(c: Call, s: Sets): Sets {
    match c
    case AddCall(fd) => s.(watched := s.watched + {fd})
    case SetCall(_) => s
    case DelCall(fd) => Sets(s.watched - {fd}, s.unreported - {fd})
    case Report(fd) => s.(unreported := s.unreported - {fd})
  }

  function RunCalls(calls: seq<Call>, s: Sets): Sets {
    if calls == [] then s else Effect(calls[|calls| - 1], RunCalls(calls[..|calls| - 1], s))
  }

  predicate PossibleRun(calls: seq<Call>, s: Sets) {
    calls == [] ||
    (PossibleRun(calls[..|calls| - 1], s) && Possible(calls[|calls| - 1], RunCalls(calls[..|calls| - 1], s)))
  }

  /** After a poll() that found `s.unreported`, in every run of calls: what is left over is
      what was found, less what was reported and what was deleted meanwhile. */
  lemma {:induction false} Leftover(calls: seq<Call>, s: Sets)
    requires PossibleRun(calls, s)
    ensures forall fd :: fd in RunCalls(calls, s).unreported <==>
              fd in s.unreported && Report(fd) !in calls && DelCall(fd) !in calls
  {
    if calls != [] {
      var init, last := calls[..|calls| - 1], calls[|calls| - 1];
      Leftover(init, s);
      assert calls == init + [last];
    }
  }

  /** So a descriptor is reported at most once, only if it was found ready, and never after
      it was deleted, whether or not it was added again. */
  lemma ReportedOnce(calls: seq<Call>, s: Sets, k: nat)
    requires PossibleRun(calls, s) && k < |calls| && calls[k].Report?
    ensures calls[k].fd in s.unreported
    ensures calls[k] !in calls[..k] && DelCall(calls[k].fd) !in calls[..k]
    decreases |calls|
  {
    var init := calls[..|calls| - 1];
    if k == |calls| - 1 {
      Leftover(init, s);
      assert calls[..k] == init;
    } else {
      ReportedOnce(init, s, k);
      assert init[..k] == calls[..k];
    }
  }

  /** When nothing is left over, so that the next wait polls again, every descriptor found
      ready and not deleted was reported, exactly once. */
  lemma AllReported(calls: seq<Call>, s: Sets, fd: int)
    requires PossibleRun(calls, s) && RunCalls(calls, s).unreported == {}
    requires fd in s.unreported && DelCall(fd) !in calls
    ensures exists k :: 0 <= k < |calls| && calls[k] == Report(fd)
              && forall j :: 0 <= j < |calls| && calls[j] == Report(fd) ==> j == k
  {
    Leftover(calls, s);
    var k :| 0 <= k < |calls| && calls[k] == Report(fd);
    forall j | 0 <= j < |calls| && calls[j] == Report(fd)
      ensures j == k
    {
      ReportedOnce(calls, s, j);
      ReportedOnce(calls, s, k);
    }
  }
}
