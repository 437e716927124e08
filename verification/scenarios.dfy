/** Short server scenarios, each pinning down one promise of the registry and
    dispatch logic on concrete connections. */
module ServerScenarios {
  import opened EraseRemove
  import opened BrilliantServer

  /** An `OnClientConnect` override that approves every connection. */
  function ApproveAll<M>(c: Connection<M>): (approved: bool)
  {
    true
  }

  /** A server with the default policy registers nothing and hands out no id,
      whichever accept completions (`true` for an error) it sees. */
  method DefaultPolicyScenario<M>(errors: seq<bool>) returns (registered: nat, nextId: uint32)
    ensures registered == 0 && nextId == FirstId
  {
    var server := new Server<M>.Default();
    var i := 0;
    while i < |errors|
      invariant 0 <= i <= |errors|
      invariant server.Valid() && server.denyAll
      invariant server.idCounter == FirstId
    {
      var _ := server.AcceptCompleted(errors[i]);
      i := i + 1;
    }
    registered, nextId := |server.connections|, server.idCounter;
  }

  /** Two approvals get the ids 10000 and 10001, in registration order; a failed
      accept in between registers nothing and uses no id. */
  method IdScenario<M>() returns (ids: seq<uint32>, registered: nat)
    ensures ids == [10000, 10001] && registered == 2
  {
    var server := new Server<M>(ApproveAll);
    var a := server.AcceptCompleted(false);
    var none := server.AcceptCompleted(true);
    var b := server.AcceptCompleted(false);
    ids, registered := [a.id, b.id], |server.connections|;
  }

  /** A client that dropped after registration is reported to the disconnect
      hook by `MessageClient`, but it stays registered: the erase looks for the
      reset handle, not for the client. */
  method DeadClientStaysRegistered<M>(msg: M) returns (reported: bool, stillRegistered: bool)
    ensures reported && stillRegistered
  {
    var server := new Server<M>(ApproveAll);
    var c := server.AcceptCompleted(false);
    c.Disconnect();
    server.MessageClient(c, msg);
    reported := server.disconnectLog == [c];
    stillRegistered := c in server.connections;
  }

  /** With the erase keyed on the client itself, the same run unregisters it. */
  method DeadClientRemovedWhenIntended<M>(msg: M) returns (reported: bool, stillRegistered: bool)
    ensures reported && !stillRegistered
  {
    var server := new Server<M>(ApproveAll);
    var c := server.AcceptCompleted(false);
    c.Disconnect();
    server.MessageClientIntended(c, msg);
    reported := server.disconnectLog == [c];
    stillRegistered := c in server.connections;
  }

  /** Of three entries of which only the last has dropped, the first two survive a sweep. */
  lemma LastDropped<M>(a: Connection<M>, b: Connection<M>, c: Connection<M>)
    requires a.connected && b.connected && !c.connected
    ensures LiveEntries([a, b, c]) == [a, b]
  {
    var s: seq<Connection?<M>> := [a, b, c];
    var keep := [true, true, false];
    assert LiveFlags(s) == keep;
    assert Select(s[..0], keep[..0]) == [];
    SelectSnoc(s, keep, 0);
    SelectSnoc(s, keep, 1);
    SelectSnoc(s, keep, 2);
    assert s[..3] == s && keep[..3] == keep;
  }

  /** A server with three approved clients, of which the last has dropped. */
  method ThreeClientsLastDropped<M>() returns (server: Server<M>, a: Connection<M>, b: Connection<M>, c: Connection<M>)
    ensures fresh(server) && fresh(a) && fresh(b) && fresh(c) && server.Valid() && server.connections == [a, b, c] && server.disconnectLog == []
    ensures a != b && a.connected && b.connected && !c.connected
    ensures a.outbox == [] && b.outbox == [] && c.outbox == []
  {
    server := new Server<M>(ApproveAll);
    var a' := server.AcceptCompleted(false);
    var b' := server.AcceptCompleted(false);
    var c' := server.AcceptCompleted(false);
    a, b, c := a', b', c';
    c.Disconnect();
  }

  /** Three clients, the middle one ignored and the last one dropped: the first
      gets the message once, the ignored one nothing. */
  method BroadcastDelivery<M>(msg: M) returns (outboxes: seq<seq<M>>)
    ensures outboxes == [[msg], []]
  {
    var server, a, b, c := ThreeClientsLastDropped<M>();
    assert IsLive(a) && IsLive(b);
    server.MessageAllClients(msg, b);
    assert a.outbox == [msg] by { assert a in [a, b, c]; }
    assert b.outbox == [] by { assert b in [a, b, c]; }
    outboxes := [a.outbox, b.outbox];
  }

  /** The same broadcast prunes the dropped client with one hook call and keeps
      the other two, ignored one included, in order. */
  method BroadcastPruning<M>(msg: M) returns (kept: bool, hookCalls: nat)
    ensures kept && hookCalls == 1
  {
    var server, a, b, c := ThreeClientsLastDropped<M>();
    LastDropped(a, b, c);
    server.MessageAllClients(msg, b);
    kept := server.connections == [a, b];
    hookCalls := |server.disconnectLog|;
  }

  /** On any server, a broadcast leaves only non-null, connected entries in the
      registry: the survivors are the entries that were live, and a broadcast
      touches only outboxes. */
  method BroadcastLeavesOnlyLive<M>(server: Server<M>, msg: M, ignore: Connection?<M>)
    requires server.Valid()
    modifies server`connections, server`disconnectLog, server.connections`outbox
    ensures forall c :: c in server.connections ==> c != null && c.connected
  {
    ghost var survivors := LiveEntries(server.connections);
    LiveEntriesMembers(server.connections);
    forall c | c in survivors
      ensures c != null && c.connected
    {
      assert IsLive(c);
    }
    server.MessageAllClients(msg, ignore);
    assert server.connections == survivors;
  }

  /** `Update(1, true)` on a queue of two hands the front message to `OnMessage`
      and leaves the other queued; a default `Update` then drains the queue. */
  method PumpScenario<M>(c: Connection<M>, m1: M, m2: M) returns (firstPass: seq<OwnedMessage<M>>, left: nat, secondPass: seq<OwnedMessage<M>>)
    ensures firstPass == [OwnedMessage(c, m1)] && left == 1
    ensures secondPass == [OwnedMessage(c, m1), OwnedMessage(c, m2)]
  {
    var server := new Server<M>(ApproveAll);
    server.Deliver(OwnedMessage(c, m1));
    server.Deliver(OwnedMessage(c, m2));
    ghost var q := server.msgQueueIn;
    assert q == [OwnedMessage(c, m1), OwnedMessage(c, m2)];
    assert q[1..] == [OwnedMessage(c, m2)];
    assert Pump(q[1..], 0) == ([], q[1..]);
    assert [q[0]] + [] == [OwnedMessage(c, m1)];
    assert Pump(q, 1) == ([OwnedMessage(c, m1)], [OwnedMessage(c, m2)]);
    server.Update(1, true);
    firstPass, left := server.messageLog, |server.msgQueueIn|;
    DefaultUpdateDrains(server.msgQueueIn);
    server.Update(DefaultMaxMsgs, false);
    secondPass := server.messageLog;
  }
}
