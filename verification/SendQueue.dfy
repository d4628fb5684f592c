/** The socket lists and the send queue of net/server_select.lua. */
module SendQueue {
  import opened Bytes
  import opened Collections

  type Socket = nat

  // ---------- Socket lists ----------

  /** The numbers from 1 to n. */
  function UpTo(n: nat): (s: set<nat>)
    ensures forall i :: i in s <==> 1 <= i <= n
  {
    if n == 0 then {} else UpTo(n - 1) + {n}
  }

  /** Positions 1 to n hold sockets, each of which knows its position. */
  predicate Paired(at: map<nat, Socket>, position: map<Socket, nat>, n: nat) {
    && at.Keys == UpTo(n)
    && (forall i :: i in at ==> at[i] in position && position[at[i]] == i)
    && (forall s :: s in position ==> position[s] in at && at[position[s]] == s)
  }

  /** A bijection between positions and sockets: no socket stands twice, and none is without a position. */
  lemma PairedIsBijection(at: map<nat, Socket>, position: map<Socket, nat>, n: nat)
    requires Paired(at, position, n)
    ensures forall i, j :: i in at && j in at && at[i] == at[j] ==> i == j
    ensures at.Values == position.Keys && |position.Keys| == n
  {
    assert forall s :: s in position ==> at[position[s]] == s && position[s] in at;
    UpToSize(n);
    SameSize(at, position);
  }

  lemma {:induction false} UpToSize(n: nat)
    ensures |UpTo(n)| == n
  {
    if n > 0 {
      UpToSize(n - 1);
    }
  }

  lemma {:induction false} SameSize(at: map<nat, Socket>, position: map<Socket, nat>)
    requires forall i :: i in at ==> at[i] in position && position[at[i]] == i
    requires forall s :: s in position ==> position[s] in at && at[position[s]] == s
    ensures |at.Keys| == |position.Keys|
    decreases |at|
  {
    if i :| i in at {
      var s := at[i];
      SameSize(at - {i}, position - {s});
      assert (at - {i}).Keys == at.Keys - {i} && (position - {s}).Keys == position.Keys - {s};
    } else {
      assert at.Keys == {} && position.Keys == {};
    }
  }

  /** One Lua table with both directions; its length is kept beside it. */
  class SocketList {
    var at: map<nat, Socket>
    var position: map<Socket, nat>

    ghost predicate Valid(len: nat)
      reads this
    {
      Paired(at, position, len)
    }

    constructor ()
      ensures Valid(0) && position == map[]
    {
      at, position := map[], map[];
    }

    /** Appended, unless it is there. */
    method Add(socket: Socket, len: nat) returns (n: nat)
      requires Valid(len)
      modifies this
      ensures Valid(n) && position.Keys == old(position.Keys) + {socket}
      ensures forall s :: s in old(position) ==> position[s] == old(position[s])
      ensures socket !in old(position) ==> n == len + 1 && position[socket] == n
      ensures socket in old(position) ==> n == len
    {
      n := len;
      if socket !in position {
        n := n + 1;
        at := at[n := socket];
        position := position[socket := n];
        assert UpTo(n) == UpTo(len) + {n};
      }
    }

    /** Taken out; the last one moves to its position. */
    method Remove(socket: Socket, len: nat) returns (n: nat)
      requires Valid(len)
      modifies this
      ensures Valid(n) && position.Keys == old(position.Keys) - {socket}
      ensures socket in old(position) ==> len > 0 && n == len - 1
      ensures socket !in old(position) ==> n == len
      ensures forall s :: s in position ==>
                position[s] == if socket in old(position) && s == old(at[len]) then old(position[socket])
                               else old(position[s])
    {
      if socket !in position {
        return len;
      }
      var pos := position[socket];
      assert pos in UpTo(len) && len in UpTo(len);
      position := position - {socket};
      var last := at[len];
      at := at - {len};
      if last != socket {
        position := position[last := pos];
        at := at[pos := last];
      }
      n := len - 1;
      assert UpTo(n) == UpTo(len) - {len};
    }
  }

  // ---------- The send queue ----------

  /** What the transport says of a send: all of it, a part for now, or an error after a part. */
  datatype Outcome = All | Part(count: nat) | Broken(count: nat)

  /** The list of the sockets with something to send, shared by all connections. */
  class SendList {
    const list: SocketList
    var len: nat

    ghost predicate Valid()
      reads this, list
    {
      list.Valid(len)
    }

    ghost function Members(): set<Socket>
      reads this, list
    {
      list.position.Keys
    }

    constructor ()
      ensures Valid() && Members() == {} && fresh(list)
    {
      list := new SocketList();
      len := 0;
    }

    method Add(socket: Socket)
      requires Valid()
      modifies this, list
      ensures Valid() && Members() == old(Members()) + {socket}
    {
      len := list.Add(socket, len);
    }

    method Remove(socket: Socket)
      requires Valid()
      modifies this, list
      ensures Valid() && Members() == old(Members()) - {socket}
    {
      len := list.Remove(socket, len);
    }
  }

  // ---------- The length of the buffer over a run ----------

  /** A write, a send into a socket that has room for so many bytes, and the two switches. */
  datatype Op = Put(data: Text) | Flush(room: nat) | Pause | Resume

  /** The length that is told, and that of what is queued. */
  datatype Level = Level(told: nat, queued: nat)

  predicate Refuses(l: Level, op: Op, limit: nat) {
    op.Put? && l.told + |op.data| > limit
  }

  predicate Empties(l: Level, op: Op) {
    op.Flush? && op.room >= l.queued
  }

  function Moved(l: Level, op: Op, limit: nat): (r: Level)
    requires l.queued <= l.told
    ensures r.queued <= r.told
  {
    match op
    case Put(data) => Level(l.told + |data|, if Refuses(l, op, limit) then l.queued else l.queued + |data|)
    case Flush(room) => if Empties(l, op) then Level(0, 0) else Level(l.told - room, l.queued - room)
    case _ => l
  }

  function After(l: Level, run: seq<Op>, limit: nat): (r: Level)
    requires l.queued <= l.told
    ensures r.queued <= r.told
  {
    if run == [] then l else Moved(After(l, run[..|run| - 1], limit), run[|run| - 1], limit)
  }

  predicate NeverEmpty(l: Level, run: seq<Op>, limit: nat)
    requires l.queued <= l.told
  {
    forall i :: 0 <= i < |run| ==> !Empties(After(l, run[..i], limit), run[i])
  }

  /** What a run wants to write, and what it could send. */
  function Written(run: seq<Op>): nat {
    if run == [] then 0
    else Written(run[..|run| - 1]) + if run[|run| - 1].Put? then |run[|run| - 1].data| else 0
  }

  function Room(run: seq<Op>): nat {
    if run == [] then 0
    else Room(run[..|run| - 1]) + if run[|run| - 1].Flush? then run[|run| - 1].room else 0
  }

  lemma {:induction false} ToldOver(l: Level, run: seq<Op>, limit: nat)
    requires l.queued <= l.told && NeverEmpty(l, run, limit)
    ensures After(l, run, limit).told == l.told + Written(run) - Room(run)
  {
    if run != [] {
      var init := run[..|run| - 1];
      assert forall i :: 0 <= i < |init| ==> init[i] == run[i] && init[..i] == run[..i];
      ToldOver(l, init, limit);
    }
  }

  /** After a refusal every write is refused, however short, unless the buffer was emptied or enough was sent: as much
      as the refused write was over the limit, and all that was to be written since. */
  lemma RefusalLasts(l: Level, first: Op, run: seq<Op>, next: Op, limit: nat)
    requires l.queued <= l.told && Refuses(l, first, limit) && next.Put?
    requires NeverEmpty(Moved(l, first, limit), run, limit)
    ensures var excess := l.told + |first.data| - limit;
            && excess > 0
            && (Refuses(After(Moved(l, first, limit), run, limit), next, limit)
                <==> Room(run) < excess + Written(run) + |next.data|)
  {
    ToldOver(Moved(l, first, limit), run, limit);
  }

  class Connection {
    const socket: Socket
    const sendList: SendList
    const maxSendLength: nat
    var open: bool
    var queue: seq<Text>
    var bufferLength: nat
    var noSend: bool
    /** On the list of those to be closed at the end of the cycle. */
    var overfull: bool
    /** What write accepted, what the transport took, and how much was refused since the buffer was last empty. */
    ghost var accepted: Text
    ghost var sent: Text
    ghost var refused: nat

    /** Bytes are neither lost nor doubled nor reordered, and none is left waiting unnoticed. */
    ghost predicate Valid()
      reads this, sendList, sendList.list
    {
      sendList.Valid() && InOrder(socket in sendList.Members())
    }

    /** The same for a connection that is on the list or not. */
    ghost predicate InOrder(listed: bool)
      reads this
    {
      && (open ==> accepted == sent + Concat(queue))
      && sent <= accepted
      && (open ==> bufferLength == |Concat(queue)| + refused)
      && (open && Concat(queue) != [] && !noSend ==> listed)
      && (noSend || !open ==> !listed)
      && (refused > 0 ==> overfull)
    }

    constructor (socket: Socket, sendList: SendList, maxSendLength: nat)
      requires sendList.Valid() && socket !in sendList.Members()
      ensures Valid() && open && queue == [] && accepted == [] && sent == [] && !noSend
      ensures this.socket == socket && this.sendList == sendList && this.maxSendLength == maxSendLength
    {
      this.socket, this.sendList, this.maxSendLength := socket, sendList, maxSendLength;
      open, queue, bufferLength, noSend, overfull := true, [], 0, false, false;
      accepted, sent, refused := [], [], 0;
    }

    /** The membership of other sockets is not touched. */
    twostate predicate OthersKept()
      reads this, sendList, sendList.list
    {
      sendList.Members() - {socket} == old(sendList.Members()) - {socket}
    }

    /** Accepted and queued, or refused over the limit; a refused write still counts in the buffer length. */
    method Write(data: Text) returns (ok: bool)
      requires Valid()
      modifies this, sendList, sendList.list
      ensures Valid() && OthersKept() && sent == old(sent) && open == old(open) && noSend == old(noSend)
      ensures ok <==> open && old(bufferLength) + |data| <= maxSendLength
      ensures accepted == if ok then old(accepted) + data else old(accepted)
      ensures Concat(queue) == if ok then old(Concat(queue)) + data else old(Concat(queue))
      ensures refused == if open && !ok then old(refused) + |data| else old(refused)
      ensures overfull == (old(overfull) || (open && !ok))
      ensures bufferLength == if open then old(bufferLength) + |data| else old(bufferLength)
      ensures sendList.Members() == old(sendList.Members()) + (if ok && !noSend then {socket} else {})
    {
      hide Concat, Paired;
      if !open {
        return false;
      }
      bufferLength := bufferLength + |data|;
      if bufferLength > maxSendLength {
        overfull := true;
        refused := refused + |data|;
        return false;
      } else if !noSend && socket !in sendList.list.position {
        sendList.Add(socket);
      }
      ConcatSnoc(queue, data);
      assert sent + (Concat(queue) + data) == sent + Concat(queue) + data;
      queue := queue + [data];
      accepted := accepted + data;
      ok := true;
    }

    /** The whole buffer is offered to the transport; what it leaves is one piece. */
    method SendBuffer(outcome: Outcome) returns (ok: bool)
      requires Valid() && open
      requires !outcome.All? ==> outcome.count <= |Concat(queue)|
      modifies this, sendList, sendList.list
      ensures Valid() && OthersKept() && accepted == old(accepted) && noSend == old(noSend)
      ensures sent == old(sent) + (if outcome.All? then old(Concat(queue)) else old(Concat(queue))[..outcome.count])
      ensures ok == !outcome.Broken? == open
      ensures outcome.All? ==> queue == [] && bufferLength == 0 && refused == 0 && socket !in sendList.Members()
      ensures outcome.Part? ==> Concat(queue) == old(Concat(queue))[outcome.count..] && refused == old(refused)
      ensures outcome.Part? ==> sendList.Members() == old(sendList.Members())
      ensures outcome.Part? ==> bufferLength == old(bufferLength) - outcome.count
      ensures overfull == old(overfull)
    {
      hide Concat, Paired;
      var buffer := Concat(queue);
      OnePiece(buffer);
      assert accepted == sent + buffer;
      match outcome
      case All =>
        queue, bufferLength := [], 0;
        refused := 0;
        sent := sent + buffer;
        sendList.Remove(socket);
        ok := true;
        assert sent + [] == sent;
      case Part(count) =>
        sent := sent + buffer[..count];
        buffer := buffer[count..if bufferLength > |buffer| then |buffer| else bufferLength];
        queue := [buffer];
        OnePiece(buffer);
        bufferLength := bufferLength - count;
        assert accepted == sent + buffer;
        ok := true;
      case Broken(count) =>
        sent := sent + buffer[..count];
        assert accepted == sent + buffer[count..];
        ForceClose();
        ok := false;
    }

    /** What is queued is given up. */
    method ForceClose()
      requires sendList.Valid() && sent <= accepted && (refused > 0 ==> overfull)
      modifies this, sendList, sendList.list
      ensures Valid() && OthersKept() && !open && socket !in sendList.Members()
      ensures accepted == old(accepted) && sent == old(sent) && noSend == old(noSend) && overfull == old(overfull)
    {
      hide Concat, Paired;
      queue := [];
      sendList.Remove(socket);
      open := false;
    }

    method PauseWrites()
      requires Valid()
      modifies this, sendList, sendList.list
      ensures Valid() && OthersKept() && noSend && socket !in sendList.Members()
      ensures accepted == old(accepted) && sent == old(sent) && queue == old(queue) && refused == old(refused)
      ensures open == old(open) && overfull == old(overfull) && bufferLength == old(bufferLength)
    {
      hide Concat, Paired;
      sendList.Remove(socket);
      noSend := true;
    }

    /** Anything left to send puts the socket back on the list. */
    method ResumeWrites()
      requires Valid()
      modifies this, sendList, sendList.list
      ensures Valid() && OthersKept() && !noSend
      ensures accepted == old(accepted) && sent == old(sent) && queue == old(queue) && refused == old(refused)
      ensures open == old(open) && overfull == old(overfull) && bufferLength == old(bufferLength)
      ensures sendList.Members() == old(sendList.Members()) + (if bufferLength > 0 && open then {socket} else {})
    {
      hide Concat, Paired;
      noSend := false;
      if bufferLength > 0 && open {
        sendList.Add(socket);
      }
    }

    /** The length the connection tells is that of the queue exactly as long as nothing was refused since the buffer
        was last empty; every refusal has marked the connection to be closed. */
    method BufferLength() returns (n: nat)
      requires Valid() && open
      ensures n == |Concat(queue)| <==> refused == 0
      ensures !overfull ==> n == |Concat(queue)|
    {
      n := bufferLength;
    }

    ghost function CurrentLevel(): (l: Level)
      requires Valid() && open
      reads this, sendList, sendList.list
      ensures l.queued <= l.told
    {
      Level(bufferLength, |Concat(queue)|)
    }

    /** Any run of writes, sends and switches: which writes are accepted, and the level at its end. */
    method Perform(run: seq<Op>) returns (oks: seq<bool>)
      requires Valid() && open
      modifies this, sendList, sendList.list
      ensures Valid() && OthersKept() && open && |oks| == |run|
      ensures CurrentLevel() == After(old(CurrentLevel()), run, maxSendLength)
      ensures forall i :: 0 <= i < |run| ==>
                (oks[i] <==> !Refuses(After(old(CurrentLevel()), run[..i], maxSendLength), run[i], maxSendLength))
    {
      hide Concat, Paired, After;
      ghost var l := CurrentLevel();
      oks := [];
      AfterNone(l, run, maxSendLength);
      for i := 0 to |run|
        invariant Valid() && OthersKept() && open && |oks| == i
        invariant CurrentLevel() == After(l, run[..i], maxSendLength)
        invariant forall k :: 0 <= k < i ==>
                    (oks[k] <==> !Refuses(After(l, run[..k], maxSendLength), run[k], maxSendLength))
      {
        AfterOne(l, run, i, maxSendLength);
        var ok := Do(run[i]);
        oks := oks + [ok];
      }
      assert run[..|run|] == run;
    }

    /** One of them; a send that has room for all takes all. */
    method Do(op: Op) returns (ok: bool)
      requires Valid() && open
      modifies this, sendList, sendList.list
      ensures Valid() && OthersKept() && open
      ensures CurrentLevel() == Moved(old(CurrentLevel()), op, maxSendLength)
      ensures ok <==> !Refuses(old(CurrentLevel()), op, maxSendLength)
    {
      hide Concat, Paired;
      ok := true;
      match op
      case Put(data) =>
        ok := Write(data);
      case Flush(room) =>
        OnePiece(Concat(queue));
        var sent := SendBuffer(if room >= |Concat(queue)| then All else Part(room));
      case Pause =>
        PauseWrites();
      case Resume =>
        ResumeWrites();
    }
  }

  lemma AfterNone(l: Level, run: seq<Op>, limit: nat)
    requires l.queued <= l.told
    ensures After(l, run[..0], limit) == l
  {
  }

  lemma AfterOne(l: Level, run: seq<Op>, i: nat, limit: nat)
    requires l.queued <= l.told && i < |run|
    ensures After(l, run[..i + 1], limit) == Moved(After(l, run[..i], limit), run[i], limit)
  {
    assert run[..i + 1][..i] == run[..i];
  }

  lemma OnePiece(data: Text)
    ensures Concat<Byte>([]) == [] && Concat([data]) == data
  {
    assert [data][1..] == [] && data + [] == data;
  }

  lemma SameElsewhere(before: set<Socket>, after: set<Socket>, changed: Socket, s: Socket)
    requires before - {changed} == after - {changed} && s != changed
    ensures s in before <==> s in after
  {
    assert s in before - {changed} <==> s in after - {changed};
  }

  /** All connections over one send list. */
  class Loop {
    const sendList: SendList
    var connections: set<Connection>

    /** Every connection is in order, and no two have the same socket. */
    ghost predicate Valid()
      reads this, connections, sendList, sendList.list
    {
      && sendList.Valid()
      && (forall c :: c in connections ==> c.sendList == sendList && c.Valid())
      && (forall c, d :: c in connections && d in connections && c.socket == d.socket ==> c == d)
    }

    constructor ()
      ensures Valid() && connections == {} && fresh(sendList) && fresh(sendList.list)
    {
      sendList := new SendList();
      connections := {};
    }

    method Open(socket: Socket, maxSendLength: nat) returns (c: Connection)
      requires Valid() && socket !in sendList.Members() && forall d :: d in connections ==> d.socket != socket
      modifies this`connections
      ensures Valid() && fresh(c) && connections == old(connections) + {c} && c.socket == socket && c.open
    {
      c := new Connection(socket, sendList, maxSendLength);
      connections := connections + {c};
    }

    /** What one connection does leaves all others in order, if it keeps their places on the list. */
    lemma OthersStay(c: Connection, before: set<Socket>)
      requires c in connections && sendList.Valid() && c.Valid()
      requires forall d :: d in connections ==> d.sendList == sendList
      requires forall d :: d in connections && d != c ==> d.InOrder(d.socket in before)
      requires forall d, e :: d in connections && e in connections && d.socket == e.socket ==> d == e
      requires sendList.Members() - {c.socket} == before - {c.socket}
      ensures Valid()
    {
      forall d | d in connections && d != c
        ensures d.Valid()
      {
        SameElsewhere(before, sendList.Members(), c.socket, d.socket);
      }
    }

    method Write(c: Connection, data: Text) returns (ok: bool)
      requires Valid() && c in connections
      modifies c, sendList, sendList.list
      ensures sendList.Members() - {c.socket} == old(sendList.Members()) - {c.socket}
      ensures Valid() && (ok <==> c.open && old(c.bufferLength) + |data| <= c.maxSendLength)
    {
      hide Concat, Paired;
      ghost var before := sendList.Members();
      ok := c.Write(data);
      OthersStay(c, before);
    }

    method SendBuffer(c: Connection, outcome: Outcome) returns (ok: bool)
      requires Valid() && c in connections && c.open
      requires !outcome.All? ==> outcome.count <= |Concat(c.queue)|
      modifies c, sendList, sendList.list
      ensures sendList.Members() - {c.socket} == old(sendList.Members()) - {c.socket}
      ensures Valid() && ok == !outcome.Broken?
    {
      hide Concat, Paired;
      ghost var before := sendList.Members();
      ok := c.SendBuffer(outcome);
      OthersStay(c, before);
    }

    method PauseWrites(c: Connection)
      requires Valid() && c in connections
      modifies c, sendList, sendList.list
      ensures sendList.Members() - {c.socket} == old(sendList.Members()) - {c.socket}
      ensures Valid() && c.noSend
    {
      hide Concat, Paired;
      ghost var before := sendList.Members();
      c.PauseWrites();
      OthersStay(c, before);
    }

    method ResumeWrites(c: Connection)
      requires Valid() && c in connections
      modifies c, sendList, sendList.list
      ensures sendList.Members() - {c.socket} == old(sendList.Members()) - {c.socket}
      ensures Valid() && !c.noSend
    {
      hide Concat, Paired;
      ghost var before := sendList.Members();
      c.ResumeWrites();
      OthersStay(c, before);
    }

    method ForceClose(c: Connection)
      requires Valid() && c in connections
      modifies c, sendList, sendList.list
      ensures sendList.Members() - {c.socket} == old(sendList.Members()) - {c.socket}
      ensures Valid() && !c.open
    {
      hide Concat, Paired;
      ghost var before := sendList.Members();
      c.ForceClose();
      OthersStay(c, before);
    }
  }
}
