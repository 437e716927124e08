# BrilliantServer registry and dispatch, in Dafny

This project models the server side of the BrilliantClientServer networking
library: the class template `BrilliantNetwork::Server<T>` from
`BrilliantServer.h`, restricted to its connection registry and its dispatch
logic.

- **Accept completion.** A fresh connection is offered to the
  `OnClientConnect` policy. An approved one is appended to `mConnections` and
  given the next id from `iIdCounter`, a `std::uint32_t` that starts at 10000.
- **`MessageClient`.** This sends to one client. If the client is null or
  disconnected, it fires the disconnect hook and erases from the registry.
- **`MessageAllClients`.** This broadcasts to every live entry except
  `ignore`. During the sweep, dead entries are reported and nulled out; after
  it, they are erased in one stable erase/remove pass.
- **`Update`.** This pumps up to `iMaxMsgs` owned messages from the shared
  inbound queue `mMsgQueueIn` into `OnMessage`, front first. The default `-1`
  converts to `SIZE_MAX`, so there is no limit.
- **Hooks.** The default hooks deny every connection and do nothing on
  disconnect or message. The model records each call to `OnClientDisconnect`
  and to `OnMessage` in a log.

The files:

- `erase_remove.dfy` (module `EraseRemove`) holds the sequence algebra.
  - `Erase` is `v.erase(std::remove(v.begin(), v.end(), x), v.end())`.
  - `Select` picks the flagged elements of a sequence in order.
  - `Unique` says no connection is registered twice.
- `server.dfy` (module `BrilliantServer`) holds the rest of the model.
  - The `Connection` class holds an id, a connected flag and an outbox of
    the messages handed to `Send`.
  - The `Server` class holds `connections` (`mConnections`, a sequence of
    nullable references, so pointer identity is kept), `msgQueueIn`,
    `idCounter`, the hook policy and the hook call logs.
  - Its methods are the operations above, written as loops where the source
    loops.
- `scenarios.dfy` (module `ServerScenarios`) states short concrete scenarios
  that pin each promise down on actual connections.

Two points where the code does something other than it evidently means to:

- **`MessageClient` removal.** The code evidently means to remove the client
  it was handed. It resets that handle first (line 90), so the erase at line
  91 removes the null entries instead. The model keeps the code's behaviour;
  see "Findings".
- **Ids.** Ids are meant to identify connections, but the `std::uint32_t`
  counter wraps to 0. The model wraps it. It proves that no two of the first
  2^32 approvals share an id. Approval 2^32 repeats the first id.

## Model

| member | source | states |
|---|---|---|
| `BrilliantServer.NextId` | BrilliantClientServer/include/BrilliantServer.h:64 | the post-increment of the 32-bit counter yields (id + 1) mod 2^32 |
| `BrilliantServer.IdOfApproval` | BrilliantClientServer/include/BrilliantServer.h:163 | the k-th approved connection (counting from 0) gets the id (10000 + k) mod 2^32 |
| `BrilliantServer.IdsNeverRepeat` | BrilliantClientServer/include/BrilliantServer.h:64 | any two different approvals among the first 2^32 get different ids |
| `BrilliantServer.Server.IssuedDistinct` | BrilliantClientServer/include/BrilliantServer.h:61-65 | under the counter invariant, the ids handed out so far are pairwise distinct as long as at most 2^32 have been issued |
| `BrilliantServer.ToSizeT` | BrilliantClientServer/include/BrilliantServer.h:121 | conversion to `std::size_t` agrees with its argument modulo 2^64 |
| `BrilliantServer.DefaultMaxMsgsIsSizeMax` | BrilliantClientServer/include/BrilliantServer.h:121 | the default `iMaxMsgs` of -1 is 2^64 - 1, i.e. SIZE_MAX |
| `BrilliantServer.Connection.constructor` | BrilliantClientServer/include/BrilliantServer.h:59 | a newly accepted connection is connected and has sent nothing |
| `BrilliantServer.Connection.ConnectToClient` | BrilliantClientServer/include/BrilliantServer.h:64 | the connection takes the id it is given |
| `BrilliantServer.Connection.Send` | BrilliantClientServer/include/BrilliantServer.h:85 | the message is appended to this connection's outbox and nothing else changes |
| `BrilliantServer.Connection.Disconnect` | BrilliantClientServer/include/BrilliantServer.h:83 | afterwards the connection is no longer connected |
| `BrilliantServer.IsLive` | BrilliantClientServer/include/BrilliantServer.h:83 | the test `client && client->IsConnected()`: a live handle is never null, so it is safe to send through |
| `BrilliantServer.LiveFlags` | BrilliantClientServer/include/BrilliantServer.h:100 | one flag per registry entry, set exactly when the entry is non-null and connected |
| `BrilliantServer.LiveEntries` | BrilliantClientServer/include/BrilliantServer.h:98-118 | the entries a broadcast keeps are never more than the registry held |
| `BrilliantServer.LiveEntriesMembers` | BrilliantClientServer/include/BrilliantServer.h:107-118 | an entry survives a sweep iff it was in the registry and live, and no survivor appears more often than before |
| `BrilliantServer.NoneDroppedAllLive` | BrilliantClientServer/include/BrilliantServer.h:115-118 | if the sweep drops nothing, every entry was live |
| `BrilliantServer.Nulls` | BrilliantClientServer/include/BrilliantServer.h:109 | one argument-less hook call per pruned entry |
| `BrilliantServer.Pump` | BrilliantClientServer/include/BrilliantServer.h:128-134 | the messages handled plus the rest make up the queue, and exactly min(max, queue length) are handled |
| `BrilliantServer.PumpDrains` | BrilliantClientServer/include/BrilliantServer.h:129 | a limit at least the queue length handles the whole queue and leaves it empty |
| `BrilliantServer.DefaultUpdateDrains` | BrilliantClientServer/include/BrilliantServer.h:121 | with the default limit the pump drains the whole queue |
| `BrilliantServer.DenyAll` | BrilliantClientServer/include/BrilliantServer.h:143-146 | the default `OnClientConnect` approves no connection |
| `BrilliantServer.Server.constructor` | BrilliantClientServer/include/BrilliantServer.h:158-163 | a server with an overriding policy starts with no connections, an empty queue and the counter at 10000 |
| `BrilliantServer.Server.Default` | BrilliantClientServer/include/BrilliantServer.h:143-146 | a server with the default hooks denies every connection and starts empty with the counter at 10000 |
| `BrilliantServer.Server.AcceptCompleted` | BrilliantClientServer/include/BrilliantServer.h:55-78 | an error creates nothing; an approved connection is appended last with the old counter as its id and the counter advances by one (wrapping); a denied one leaves registry and counter unchanged; the registry stays duplicate-free |
| `BrilliantServer.Server.OnClientDisconnect` | BrilliantClientServer/include/BrilliantServer.h:148-151 | the default hook only records the call |
| `BrilliantServer.Server.OnMessage` | BrilliantClientServer/include/BrilliantServer.h:153-156 | the default hook only records the call |
| `BrilliantServer.Server.MessageClient` | BrilliantClientServer/include/BrilliantServer.h:81-93 | a live client gets the message appended and nothing else changes; otherwise the hook fires once with the client, its outbox is untouched, the null entries are erased, and a dead registered client stays registered |
| `BrilliantServer.Server.MessageClientIntended` | BrilliantClientServer/include/BrilliantServer.h:89-91 | as `MessageClient`, but a dead client is erased by its own identity and is no longer registered |
| `BrilliantServer.Server.MessageAllClients` | BrilliantClientServer/include/BrilliantServer.h:95-119 | every live entry other than `ignore` gets the message exactly once and every other entry's outbox is unchanged; the registry becomes exactly its live entries in their original order; the hook fires once per pruned entry; the registry stays duplicate-free |
| `BrilliantServer.Server.BroadcastSweep` | BrilliantClientServer/include/BrilliantServer.h:97-113 | after the range-for, erasing the nulled entries leaves the live ones; the invalid-client flag is set iff some entry was dropped; if it is not set, the registry is untouched |
| `BrilliantServer.Server.SweepStart` | BrilliantClientServer/include/BrilliantServer.h:97-98 | before the range-for, no entry has been visited |
| `BrilliantServer.Server.SweepLoop` | BrilliantClientServer/include/BrilliantServer.h:98-113 | the range-for visits every entry, and the flag records whether any was dropped |
| `BrilliantServer.Server.SweepEntry` | BrilliantClientServer/include/BrilliantServer.h:100-112 | one iteration sends to a live entry other than `ignore`, or reports a dead entry, nulls it out and marks it dropped |
| `BrilliantServer.Server.SweepComplete` | BrilliantClientServer/include/BrilliantServer.h:115-118 | the nulled-out registry erased of nulls is the live selection, with one hook call per dropped entry |
| `BrilliantServer.Server.Update` | BrilliantClientServer/include/BrilliantServer.h:121-135 | `OnMessage` is called on the first min(max, queue length) queued messages in front-first order, and the queue becomes the untouched rest |
| `BrilliantServer.Server.Deliver` | BrilliantClientServer/include/BrilliantServer.h:158 | a message arriving from a connection joins the back of the inbound queue |
| `EraseRemove.Erase` | BrilliantClientServer/include/BrilliantServer.h:117 | erase/remove never lengthens the container |
| `EraseRemove.EraseMembers` | BrilliantClientServer/include/BrilliantServer.h:117 | erase/remove drops every occurrence of the value and keeps every other element as often as before |
| `EraseRemove.EraseConcat` | BrilliantClientServer/include/BrilliantServer.h:117 | erase/remove is stable: it distributes over concatenation |
| `EraseRemove.EraseAbsent` | BrilliantClientServer/include/BrilliantServer.h:91 | erasing a value not present leaves the container as it was |
| `EraseRemove.EraseIdempotent` | BrilliantClientServer/include/BrilliantServer.h:91 | erasing the same value twice erases nothing more |
| `EraseRemove.Select` | BrilliantClientServer/include/BrilliantServer.h:107-117 | the flagged selection is never longer than the original |
| `EraseRemove.SelectMembers` | BrilliantClientServer/include/BrilliantServer.h:117 | the selection holds no element more often than the original |
| `EraseRemove.SelectSnoc` | BrilliantClientServer/include/BrilliantServer.h:98 | selecting from a prefix one entry longer adds that entry iff it is flagged |
| `EraseRemove.SelectConcat` | BrilliantClientServer/include/BrilliantServer.h:117 | selection distributes over concatenation |
| `EraseRemove.DroppedPrefix` | BrilliantClientServer/include/BrilliantServer.h:111 | the count of dropped entries among the first n depends only on those n |
| `EraseRemove.SelectDropped` | BrilliantClientServer/include/BrilliantServer.h:109-111 | every entry is either selected or counted as dropped |
| `EraseRemove.SelectAll` | BrilliantClientServer/include/BrilliantServer.h:115 | a selection that keeps the full length keeps every entry |
| `EraseRemove.EraseMarkedIsSelect` | BrilliantClientServer/include/BrilliantServer.h:110-117 | nulling out the dropped entries and erasing the nulls yields exactly the selection of the kept entries |
| `EraseRemove.EraseKeepsUnique` | BrilliantClientServer/include/BrilliantServer.h:91 | erasing never registers a connection twice |
| `EraseRemove.SelectKeepsUnique` | BrilliantClientServer/include/BrilliantServer.h:117 | pruning never registers a connection twice |
| `EraseRemove.AppendKeepsUnique` | BrilliantClientServer/include/BrilliantServer.h:63 | appending a fresh connection keeps the registry duplicate-free |
| `EraseRemove.UniqueAt` | BrilliantClientServer/include/BrilliantServer.h:98-104 | a registered connection occurs at no other position, so sending to it touches one entry only |
| `ServerScenarios.DefaultPolicyScenario` | BrilliantClientServer/include/BrilliantServer.h:143-146 | under the default policy, any run of accept completions registers nothing and the counter stays at 10000 |
| `ServerScenarios.IdScenario` | BrilliantClientServer/include/BrilliantServer.h:61-64 | two approvals with a failed accept between them get ids 10000 and 10001 |
| `ServerScenarios.DeadClientStaysRegistered` | BrilliantClientServer/include/BrilliantServer.h:89-91 | `MessageClient` on a registered client that has dropped reports it to the hook but leaves it registered |
| `ServerScenarios.DeadClientRemovedWhenIntended` | BrilliantClientServer/include/BrilliantServer.h:89-91 | the intended version reports the dropped client and unregisters it |
| `ServerScenarios.LastDropped` | BrilliantClientServer/include/BrilliantServer.h:107-117 | of three entries of which only the last has dropped, the first two survive |
| `ServerScenarios.ThreeClientsLastDropped` | BrilliantClientServer/include/BrilliantServer.h:55-66 | three approved accepts register three distinct fresh connections in order |
| `ServerScenarios.BroadcastDelivery` | BrilliantClientServer/include/BrilliantServer.h:98-106 | a broadcast that ignores the second of three clients delivers once to the first and nothing to the ignored one |
| `ServerScenarios.BroadcastPruning` | BrilliantClientServer/include/BrilliantServer.h:107-118 | the same broadcast keeps the two live clients in order, the ignored one included, with one hook call for the dropped one |
| `ServerScenarios.BroadcastLeavesOnlyLive` | BrilliantClientServer/include/BrilliantServer.h:107-118 | on any server, after a broadcast every registry entry is non-null and connected |
| `ServerScenarios.PumpScenario` | BrilliantClientServer/include/BrilliantServer.h:121-134 | `Update(1, true)` on two queued messages handles the front one and leaves one; the default `Update` then handles the other |

## Left out

- asio: the io_context, the acceptor, the sockets, re-arming `async_accept`
  (line 77) and `remote_endpoint`. These are asynchronous I/O.
  `AcceptCompleted` takes the completion's error flag and creates the
  connection itself.
- `Start`, `Stop` and the destructor (lines 21-51): thread start-up, join and
  shutdown are concurrency and lifecycle plumbing.
- The logging to `std::cout` and `std::cerr`.
- The concurrency between the I/O thread, which fills the inbound queue and
  runs the accept callback, and the application thread. Each operation is
  modelled as running alone; `Deliver` stands for a connection's read cycle
  pushing one message.
- `Connection`, `Queue` and `Message` live in `detail/*.h`, which is not part
  of this model. A connection is abstracted to an id, a connected flag and
  the outbox of messages handed to `Send`. The queue is a sequence, and a
  message is an opaque type parameter.
- `Connection.ConnectToClient`: only the id assignment is modelled. The read
  cycle it starts is not part of this model.
- `Server.Update`: the blocking `Wait()` on an empty queue never returns
  without a concurrent producer. The model therefore requires a non-empty
  queue when `wait` is set.
- `OnClientValidated` (lines 137-140) is never called from this file. Its
  default body is empty, and it is not modelled.
- `OnClientConnect` is modelled as a pure policy on the connection reference.
  An override with side effects is not captured.
- `Server.MessageAllClients`: line 109 calls `OnClientDisconnect()` with no
  argument. The only declaration of the hook (line 148) takes one parameter
  and has no default, so as written that line does not compile once
  `MessageAllClients` is instantiated. The null connection that the model
  records for such a call is the model's own choice, not the program's
  behaviour. The log shows how many entries were pruned but not which ones.
- `Server.MessageAllClients` does not restate that `ignore`'s outbox is
  unchanged. That follows from its per-entry outbox clause when `ignore` is
  registered, and from its `modifies` clause when it is not.
- `Server.MessageAllClients` does not itself state that the registry
  afterwards holds only live entries. `ServerScenarios.BroadcastLeavesOnlyLive`
  proves it for any server from the method's contract.
- `ServerScenarios.BroadcastDelivery` does not check the outbox of the dropped
  client. `MessageAllClients` states it for every entry.
- `IdsNeverRepeat`: ids are distinct only among the first 2^32 approvals.
  Approval 2^32 gets the id 10000 again, and the source does not prevent
  this reuse.

## Findings

| source | as written | input that shows it | evidently intended | confidence | as-written member | corrected member |
|---|---|---|---|---|---|---|
| BrilliantClientServer/include/BrilliantServer.h:89-91 | `client.reset()` runs before `erase(remove(..., client))`, so the erase removes the null entries rather than the client | register one client, let it disconnect, then `MessageClient(c, m)`: the hook fires but `c` stays in `mConnections` | the disconnected client is removed from the registry by its own identity | high (not executed) | `ServerScenarios.DeadClientStaysRegistered` | `BrilliantServer.Server.MessageClientIntended` |
