/** The connection registry and dispatch logic of `BrilliantNetwork::Server<T>`:
    accepting a connection under the `OnClientConnect` policy, sending to one
    client, broadcasting to all clients while pruning dead ones, and pumping the
    shared inbound queue into the `OnMessage` hook. `M` stands for `Message<T>`. */
module BrilliantServer {
  import opened EraseRemove

  newtype uint32 = x: int | 0 <= x < 0x1_0000_0000
  newtype size_t = x: int | 0 <= x < 0x1_0000_0000_0000_0000

  /** The initial value of `iIdCounter`. */
  const FirstId: uint32 := 10000

  /** `iIdCounter++` on a `std::uint32_t`: wraps to 0 after 0xFFFF_FFFF. */
  function NextId(id: uint32): (r: uint32)
    ensures r as int == (id as int + 1) % 0x1_0000_0000
  {
    if id == 0xFFFF_FFFF then 0 else id + 1
  }

  /** The id handed to the connection approved `k`-th (counting from 0). */
  function IdOfApproval(k: nat): (id: uint32)
    ensures id as int == (FirstId as int + k) % 0x1_0000_0000
  {
    if k == 0 then FirstId else NextId(IdOfApproval(k - 1))
  }

  /** Ids never repeat within 2^32 approvals: after the counter wraps it first
      hands out 0..9999, which were never issued, and repeats only at approval 2^32. */
  lemma IdsNeverRepeat(i: nat, j: nat)
    requires i < j < 0x1_0000_0000
    ensures IdOfApproval(i) != IdOfApproval(j)
  {
  }

  /** The conversion `std::size_t(n)`, modulo 2^64. */
  function ToSizeT(n: int): (r: size_t)
    ensures (r as int - n) % 0x1_0000_0000_0000_0000 == 0
  {
    (n % 0x1_0000_0000_0000_0000) as size_t
  }

  /** The default `iMaxMsgs` of `Update`, written `-1` in the source. */
  const DefaultMaxMsgs: size_t := ToSizeT(-1)

  lemma DefaultMaxMsgsIsSizeMax()
    ensures DefaultMaxMsgs as int == 0x1_0000_0000_0000_0000 - 1
  {
  }

  function Min(a: nat, b: nat): nat
  {
    if a <= b then a else b
  }

  /** One server-side connection. Its transport (socket, read and write cycles)
      is abstracted to a connected flag and the sequence of messages handed to
      `Send`. */
  class Connection<M> {
    var id: uint32
    var connected: bool
    var outbox: seq<M>

    /** A connection built around a freshly accepted, open socket. */
    constructor ()
      ensures id == 0 && connected && outbox == []
    {
      id, connected, outbox := 0, true, [];
    }

    /** Only the id assignment of `ConnectToClient(this, id)` is modelled. */
    method ConnectToClient(uid: uint32)
      modifies this`id
      ensures id == uid
    {
      id := uid;
    }

    method Send(msg: M)
      modifies this`outbox
      ensures outbox == old(outbox) + [msg]
    {
      outbox := outbox + [msg];
    }

    /** A transport error or an explicit close: the connection is no longer connected. */
    method Disconnect()
      modifies this`connected
      ensures !connected
    {
      connected := false;
    }
  }

  /** `client && client->IsConnected()`. */
  predicate IsLive<M>(c: Connection?<M>): (live: bool)
    reads c
    ensures live ==> c != null
  {
    c != null && c.connected
  }

  /** Whether each registry entry is live. */
  function LiveFlags<M>(s: seq<Connection?<M>>): (r: seq<bool>)
    reads s
    ensures |r| == |s| && forall k :: 0 <= k < |s| ==> r[k] == IsLive(s[k])
  {
    if s == [] then [] else LiveFlags(s[..|s| - 1]) + [IsLive(s[|s| - 1])]
  }

  /** The registry entries that survive a broadcast sweep: the non-null, connected ones, in order. */
  function LiveEntries<M>(s: seq<Connection?<M>>): (r: seq<Connection?<M>>)
    reads s
    ensures |r| <= |s|
  {
    Select(s, LiveFlags(s))
  }

  /** The survivors are exactly the live entries, none more often than before. */
  lemma {:induction false} LiveEntriesMembers<M>(s: seq<Connection?<M>>)
    ensures multiset(LiveEntries(s)) <= multiset(s)
    ensures forall c :: c in LiveEntries(s) <==> c in s && IsLive(c)
  {
    if s != [] {
      var n := |s| - 1;
      assert s == s[..n] + [s[n]];
      assert LiveFlags(s)[..n] == LiveFlags(s[..n]);
      LiveEntriesMembers(s[..n]);
    }
  }

  /** If no entry is dropped, every entry was live. */
  lemma NoneDroppedAllLive<M>(s: seq<Connection?<M>>)
    requires |LiveEntries(s)| == |s|
    ensures forall k :: 0 <= k < |s| ==> IsLive(s[k])
  {
    SelectAll(s, LiveFlags(s));
  }

  /** The disconnect hook's argument for each entry pruned by a broadcast: the
      hook is called with no connection there. */
  function Nulls<M>(n: nat): (r: seq<Connection?<M>>)
    ensures |r| == n
  {
    if n == 0 then [] else Nulls(n - 1) + [null]
  }

  /** The outbox of each connection among the entries `s`. */
  ghost function OutboxMap<M>(s: seq<Connection?<M>>): (r: map<Connection<M>, seq<M>>)
    reads s
    ensures forall c: Connection<M> :: c in s ==> c in r && r[c] == c.outbox
  {
    map c: Connection<M> | c in s :: c.outbox
  }

  /** A message taken from the shared inbound queue, with the connection it came from. */
  datatype OwnedMessage<M> = OwnedMessage(conn: Connection<M>, msg: M)

  /** The pump's split of the inbound queue under a limit of `max` messages:
      the messages handled, and the untouched rest of the queue. */
  function Pump<X>(q: seq<X>, max: nat): (r: (seq<X>, seq<X>))
    ensures r.0 + r.1 == q
    ensures |r.0| == Min(max, |q|)
    decreases max
  {
    if max == 0 || q == [] then ([], q)
    else
      var rest := Pump(q[1..], max - 1);
      ([q[0]] + rest.0, rest.1)
  }

  /** A limit no smaller than the queue drains it. */
  lemma PumpDrains<X>(q: seq<X>, max: nat)
    requires |q| <= max
    ensures Pump(q, max) == (q, [])
  {
    var r := Pump(q, max);
    assert |r.1| == 0;
    assert r.0 + r.1 == r.0;
  }

  /** With the default limit the pump drains the whole queue. */
  lemma DefaultUpdateDrains<X>(q: seq<X>)
    requires |q| <= DefaultMaxMsgs as int
    ensures Pump(q, DefaultMaxMsgs as nat) == (q, [])
  {
    PumpDrains(q, DefaultMaxMsgs as nat);
  }

  /** The default `OnClientConnect` policy: every connection is denied. */
  function DenyAll<M>(c: Connection<M>): (approved: bool)
    ensures !approved
  {
    false
  }

  class Server<M> {
    /** The `OnClientConnect` policy of this server. */
    const onClientConnect: Connection<M> -> bool
    /** Whether this server keeps the default policy. */
    ghost const denyAll: bool

    /** `mConnections` */
    var connections: seq<Connection?<M>>
    /** `mMsgQueueIn` */
    var msgQueueIn: seq<OwnedMessage<M>>
    /** `iIdCounter` */
    var idCounter: uint32
    /** The ids handed out so far, in order. */
    ghost var issued: seq<uint32>
    /** The calls made to `OnClientDisconnect`, in order; null for a call without a connection. */
    var disconnectLog: seq<Connection?<M>>
    /** The calls made to `OnMessage`, in order. */
    var messageLog: seq<OwnedMessage<M>>

    ghost predicate Valid()
      reads this
    {
      RegistryValid() && CounterValid()
    }

    /** Registered connections are distinct, and a server with the default
        policy has none. */
    ghost predicate RegistryValid()
      reads this`connections
    {
      Unique(connections, null) &&
      (denyAll ==> connections == [] && onClientConnect == DenyAll)
    }

    /** `iIdCounter` holds the id of the next approval; the ids issued so far
        are those of the earlier approvals, in order. */
    ghost predicate CounterValid()
      reads this`idCounter, this`issued
    {
      idCounter == IdOfApproval(|issued|) &&
      forall k :: 0 <= k < |issued| ==> issued[k] == IdOfApproval(k)
    }

    /** Within the first 2^32 approvals, no two approved connections share an id. */
    lemma IssuedDistinct()
      requires CounterValid() && |issued| <= 0x1_0000_0000
      ensures forall i, j :: 0 <= i < j < |issued| ==> issued[i] != issued[j]
    {
      forall i, j | 0 <= i < j < |issued|
        ensures issued[i] != issued[j]
      {
        IdsNeverRepeat(i, j);
      }
    }

    /** A server whose subclass overrides `OnClientConnect` with `policy`. */
    constructor (policy: Connection<M> -> bool)
      ensures Valid() && onClientConnect == policy && !denyAll
      ensures connections == [] && msgQueueIn == [] && idCounter == FirstId
      ensures issued == [] && disconnectLog == [] && messageLog == []
    {
      onClientConnect, denyAll := policy, false;
      connections, msgQueueIn, idCounter := [], [], FirstId;
      issued, disconnectLog, messageLog := [], [], [];
    }

    /** A server with the default hooks. */
    constructor Default()
      ensures Valid() && denyAll
      ensures onClientConnect == DenyAll
      ensures connections == [] && msgQueueIn == [] && idCounter == FirstId
      ensures issued == [] && disconnectLog == [] && messageLog == []
    {
      onClientConnect, denyAll := DenyAll, true;
      connections, msgQueueIn, idCounter := [], [], FirstId;
      issued, disconnectLog, messageLog := [], [], [];
    }

    /** One completion of `async_accept`: `ec` is the error flag. Without an
        error a connection is created and offered to the policy; an approved one
        is registered under the next id. The returned connection is the one
        created (null on error). */
    method AcceptCompleted(ec: bool) returns (newConn: Connection?<M>)
      requires Valid()
      modifies this`connections, this`idCounter, this`issued
      ensures Valid()
      ensures (newConn == null) == ec
      ensures newConn != null ==> fresh(newConn) && newConn.connected && newConn.outbox == []
      ensures if newConn != null && onClientConnect(newConn) then
                connections == old(connections) + [newConn] &&
                newConn.id == old(idCounter) &&
                idCounter == NextId(old(idCounter)) &&
                issued == old(issued) + [old(idCounter)]
              else
                connections == old(connections) && idCounter == old(idCounter) && issued == old(issued)
    {
      if ec {
        newConn := null;
        return;
      }
      newConn := new Connection();
      if onClientConnect(newConn) {
        assert newConn !in connections;
        AppendKeepsUnique(connections, newConn, null);
        connections := connections + [newConn];
        newConn.ConnectToClient(idCounter);
        issued := issued + [idCounter];
        idCounter := NextId(idCounter);
      }
    }

    /** The `OnClientDisconnect` hook: its default body does nothing; the call is recorded. */
    method OnClientDisconnect(client: Connection?<M>)
      modifies this`disconnectLog
      ensures disconnectLog == old(disconnectLog) + [client]
    {
      disconnectLog := disconnectLog + [client];
    }

    /** The `OnMessage` hook: its default body does nothing; the call is recorded. */
    method OnMessage(client: Connection<M>, msg: M)
      modifies this`messageLog
      ensures messageLog == old(messageLog) + [OwnedMessage(client, msg)]
    {
      messageLog := messageLog + [OwnedMessage(client, msg)];
    }

    /** `MessageClient` as written: a live client gets the message; otherwise the
        hook is told, the local handle is reset, and the registry entries equal to
        the reset (null) handle are erased, so a dead client itself stays registered. */
    method MessageClient(client: Connection?<M>, msg: M)
      requires Valid()
      modifies this`connections, this`disconnectLog, (if client != null then {client} else {})`outbox
      ensures Valid()
      ensures IsLive(client) ==>
                client.outbox == old(client.outbox) + [msg] &&
                connections == old(connections) && disconnectLog == old(disconnectLog)
      ensures !IsLive(client) ==>
                (client != null ==> client.outbox == old(client.outbox)) &&
                disconnectLog == old(disconnectLog) + [client] &&
                connections == Erase(old(connections), null)
      ensures client != null && !client.connected && client in old(connections) ==> client in connections
    {
      if client != null && client.connected {
        client.Send(msg);
      } else {
        OnClientDisconnect(client);
        var reset: Connection?<M> := null;
        EraseMembers(connections, reset);
        EraseKeepsUnique(connections, reset, null);
        connections := Erase(connections, reset);
      }
    }

    /** `MessageClient` as evidently intended: a dead client is erased by its own identity. */
    method MessageClientIntended(client: Connection?<M>, msg: M)
      requires Valid()
      modifies this`connections, this`disconnectLog, (if client != null then {client} else {})`outbox
      ensures Valid()
      ensures IsLive(client) ==>
                client.outbox == old(client.outbox) + [msg] &&
                connections == old(connections) && disconnectLog == old(disconnectLog)
      ensures !IsLive(client) ==>
                (client != null ==> client.outbox == old(client.outbox)) &&
                disconnectLog == old(disconnectLog) + [client] &&
                connections == Erase(old(connections), client)
      ensures !IsLive(client) ==> client !in connections
    {
      if client != null && client.connected {
        client.Send(msg);
      } else {
        OnClientDisconnect(client);
        EraseMembers(connections, client);
        EraseKeepsUnique(connections, client, null);
        connections := Erase(connections, client);
      }
    }

    /** `MessageAllClients(msg, ignore)`: every live entry other than `ignore`
        gets `msg` once; each dead or null entry fires the disconnect hook and is
        pruned; the live entries stay, in order. */
    method MessageAllClients(msg: M, ignore: Connection?<M>)
      requires Valid()
      modifies this`connections, this`disconnectLog, connections`outbox
      ensures Valid()
      ensures connections == old(LiveEntries(connections))
      ensures forall c: Connection<M> :: c in old(connections) ==>
                c.outbox == if IsLive(c) && c != ignore then old(c.outbox) + [msg] else old(c.outbox)
      ensures disconnectLog == old(disconnectLog) + Nulls(|old(connections)| - |connections|)
    {
      var invalidClientExists;
      ghost var s, alive, before;
      invalidClientExists, s, alive, before := BroadcastSweep(msg, ignore);
      ghost var live := Select(s, alive);
      assert old(LiveEntries(connections)) == live;
      if invalidClientExists {
        connections := Erase(connections, null);
      }
      assert connections == live;
      SelectKeepsUnique(s, alive, null);
    }

    /** The state once the range-for of `MessageAllClients` has visited the
        first `i` of the entries `s` it started from: each visited live entry
        other than `ignore` holds `msg` on top of its earlier outbox `before[k]`,
        each visited dead or null entry is nulled out and logged, and the rest is
        untouched. */
    ghost predicate SweptUpTo(i: nat, s: seq<Connection?<M>>, alive: seq<bool>, before: map<Connection<M>, seq<M>>,
                              log0: seq<Connection?<M>>, dead: nat, ignore: Connection?<M>, msg: M)
      reads this, s
    {
      |connections| == |s| && |alive| == |s| && i <= |s| &&
      (forall c: Connection<M> :: c in s ==> c in before) &&
      (forall k :: 0 <= k < |s| ==> alive[k] == IsLive(s[k])) &&
      (forall k :: 0 <= k < i ==> connections[k] == if alive[k] then s[k] else null) &&
      (forall k :: i <= k < |s| ==> connections[k] == s[k]) &&
      (forall k :: 0 <= k < |s| && s[k] != null ==>
         s[k].outbox == if k < i && alive[k] && s[k] != ignore then before[s[k]] + [msg] else before[s[k]]) &&
      dead == Dropped(alive, i) &&
      disconnectLog == log0 + Nulls(dead)
    }

    /** One pass of the range-for body over entry `i`. */
    method SweepEntry(i: nat, msg: M, ignore: Connection?<M>, ghost s: seq<Connection?<M>>, ghost alive: seq<bool>,
                      ghost before: map<Connection<M>, seq<M>>, ghost log0: seq<Connection?<M>>, ghost dead: nat)
      returns (dropped: bool, ghost dead': nat)
      requires i < |s| && Unique(s, null)
      requires SweptUpTo(i, s, alive, before, log0, dead, ignore, msg)
      modifies this`connections, this`disconnectLog, s`outbox
      ensures SweptUpTo(i + 1, s, alive, before, log0, dead', ignore, msg)
      ensures dropped <==> !alive[i]
    {
      var client := connections[i];
      dropped := false;
      dead' := dead;
      if client != null && client.connected {
        if client != ignore {
          UniqueAt(s, null, i);
          client.Send(msg);
        }
      } else {
        OnClientDisconnect(null);
        dead' := dead + 1;
        connections := connections[i := null];
        dropped := true;
      }
    }

    /** The range-for of `MessageAllClients`: sends `msg` to each live entry
        other than `ignore`, and fires the disconnect hook for each dead or null
        entry and nulls it out. `alive` records which entries were live. */
    method BroadcastSweep(msg: M, ignore: Connection?<M>)
      returns (invalidClientExists: bool, ghost s: seq<Connection?<M>>, ghost alive: seq<bool>,
               ghost before: map<Connection<M>, seq<M>>)
      requires Unique(connections, null)
      modifies this`connections, this`disconnectLog, connections`outbox
      ensures s == old(connections) && alive == old(LiveFlags(connections)) && before == old(OutboxMap(connections))
      ensures Erase(connections, null) == Select(s, alive)
      ensures !invalidClientExists ==> connections == s && s == Select(s, alive)
      ensures invalidClientExists <==> |Select(s, alive)| < |s|
      ensures disconnectLog == old(disconnectLog) + Nulls(|s| - |Select(s, alive)|)
      ensures forall c: Connection<M> :: c in s ==>
                c in before && c.outbox == if IsLive(c) && c != ignore then before[c] + [msg] else before[c]
    {
      s := connections;
      before := OutboxMap(connections);
      alive := LiveFlags(connections);
      ghost var dead;
      SweepStart(s, alive, before, ignore, msg);
      invalidClientExists, dead := SweepLoop(msg, ignore, s, alive, before, disconnectLog);
      SweepComplete(s, alive, before, old(disconnectLog), dead, ignore, msg);
    }

    /** Before the range-for, nothing is visited yet. */
    lemma SweepStart(s: seq<Connection?<M>>, alive: seq<bool>, before: map<Connection<M>, seq<M>>,
                     ignore: Connection?<M>, msg: M)
      requires connections == s && alive == LiveFlags(s) && before == OutboxMap(s)
      ensures SweptUpTo(0, s, alive, before, disconnectLog, 0, ignore, msg)
    {
    }

    /** The loop of the range-for, from the untouched entries `s` to the end. */
    method SweepLoop(msg: M, ignore: Connection?<M>, ghost s: seq<Connection?<M>>, ghost alive: seq<bool>,
                     ghost before: map<Connection<M>, seq<M>>, ghost log0: seq<Connection?<M>>)
      returns (invalidClientExists: bool, ghost dead: nat)
      requires Unique(s, null) && SweptUpTo(0, s, alive, before, log0, 0, ignore, msg)
      modifies this`connections, this`disconnectLog, s`outbox
      ensures SweptUpTo(|s|, s, alive, before, log0, dead, ignore, msg)
      ensures invalidClientExists <==> dead > 0
    {
      invalidClientExists := false;
      dead := 0;
      var i := 0;
      while i < |connections|
        invariant SweptUpTo(i, s, alive, before, log0, dead, ignore, msg)
        invariant invalidClientExists <==> dead > 0
      {
        var dropped;
        dropped, dead := SweepEntry(i, msg, ignore, s, alive, before, log0, dead);
        if dropped {
          invalidClientExists := true;
        }
        i := i + 1;
      }
    }

    /** What a finished sweep leaves: erasing the nulled entries leaves the live
        ones, one hook call per dropped entry, and each visited live entry other
        than `ignore` holds `msg` on top of its outbox before the sweep. */
    lemma SweepComplete(s: seq<Connection?<M>>, alive: seq<bool>, before: map<Connection<M>, seq<M>>,
                        log0: seq<Connection?<M>>, dead: nat, ignore: Connection?<M>, msg: M)
      requires Unique(s, null)
      requires SweptUpTo(|s|, s, alive, before, log0, dead, ignore, msg)
      ensures Erase(connections, null) == Select(s, alive)
      ensures dead == 0 ==> connections == s && s == Select(s, alive)
      ensures dead > 0 <==> |Select(s, alive)| < |s|
      ensures disconnectLog == log0 + Nulls(|s| - |Select(s, alive)|)
      ensures forall c: Connection<M> :: c in s ==>
                c in before && c.outbox == if IsLive(c) && c != ignore then before[c] + [msg] else before[c]
    {
      EraseMarkedIsSelect(s, alive, connections, null);
      SelectDropped(s, alive);
      if dead == 0 {
        SelectAll(s, alive);
        EraseAbsent(connections, null);
      }
      forall c: Connection<M> | c in s
        ensures c in before && c.outbox == if IsLive(c) && c != ignore then before[c] + [msg] else before[c]
      {
        var k :| 0 <= k < |s| && s[k] == c;
      }
    }

    /** `Update(iMaxMsgs, bWait)`: hands up to `iMaxMsgs` queued messages to
        `OnMessage`, front first. A waiting call returns only once the queue
        holds a message, so it starts with a non-empty queue. */
    method Update(maxMsgs: size_t, wait: bool)
      requires Valid()
      requires wait ==> msgQueueIn != []
      modifies this`msgQueueIn, this`messageLog
      ensures Valid()
      ensures messageLog == old(messageLog) + Pump(old(msgQueueIn), maxMsgs as nat).0
      ensures msgQueueIn == Pump(old(msgQueueIn), maxMsgs as nat).1
    {
      var numMsgs: size_t := 0;
      while numMsgs < maxMsgs && msgQueueIn != []
        invariant numMsgs <= maxMsgs && numMsgs as int <= |old(msgQueueIn)|
        invariant msgQueueIn == old(msgQueueIn)[numMsgs..]
        invariant messageLog == old(messageLog) + old(msgQueueIn)[..numMsgs]
      {
        var owned := msgQueueIn[0];
        msgQueueIn := msgQueueIn[1..];
        OnMessage(owned.conn, owned.msg);
        numMsgs := numMsgs + 1;
      }
      ghost var split := Pump(old(msgQueueIn), maxMsgs as nat);
      assert split.0 == old(msgQueueIn)[..numMsgs];
    }

    /** A connection's read cycle delivering one message to the shared inbound queue. */
    method Deliver(owned: OwnedMessage<M>)
      modifies this`msgQueueIn
      ensures msgQueueIn == old(msgQueueIn) + [owned]
    {
      msgQueueIn := msgQueueIn + [owned];
    }
  }
}
