# Message transport of pioneers, in Dafny

This project models the networking core of pioneers (`src/network/`) and
proves properties of the model:

- **Message framing** (`message.dfy`, module `Messages`). A message is a header `{id, size}` with a
  16-bit `size` and a body of bytes. `operator<<` appends a value's raw bytes
  to the end of the body and stores the new length into the header;
  `operator>>` removes the last `sizeof` bytes. Values therefore come back
  last in, first out.
- **The double-ended queue** `queue_mt` (`queue.dfy`, module `Queues`). This is a class over a
  sequence. Each operation is one atomic step, because the source holds its
  mutex for the whole call.
- **Connections** (`connection.dfy`, module `Connections`). These are the read and write
  pipelines of `connection_base`, `connection_host` and `connection_client`.
  Every asio completion handler is an event method, called when its
  operation completes; its outcome is a parameter. The operation asio holds
  in flight is a field (`readOp`, `writeOp`). The class invariant says that
  at most one read and one write are in flight, and that a write always sends
  the front of `m_outgoing`. Ghost traces `sent` and `written` show that
  messages leave in `send` order.
- **Roster management of `server_interface`** (`server.dfy`, module `Servers`). This covers:
  - accepting and numbering clients;
  - `send`, `send_all` with its exclusion and in-place reset of dead entries;
  - erase-remove pruning;
  - the bounded drain of `process`.

  The hooks `on_client_disconnect`, `on_message` and every per-client send
  are recorded in ghost traces. The answer of `on_client_connect` is a
  parameter of the accept handler.

Shared integer types (`client_id`, `port`, the 16-bit size field, `m_next_id++`
wrap-around) are in `common.dfy` (module `Common`).

The server's invariant (`Server.Valid`) says that between calls:
- the roster holds no reset handle;
- every entry is a host connection on the server's inbox;
- each entry's id is its admission number modulo 2^32;
- entries stand in admission order.

From this, `send_all` sends each reachable client exactly once, and ids
increase strictly along the roster until the counter wraps around.

## Model

| member | source | states |
|---|---|---|
| Common.Truncate16 | src/network/message.hpp:60 | storing a body length into the `uint16_t` size field keeps it modulo 2^16, and keeps it exactly below 2^16 |
| Common.Increment32 | src/network/server.hpp:113 | `m_next_id++` on a 32-bit id is one more, modulo 2^32 |
| Messages.Empty | src/network/message.hpp:20-36 | a default message has `header.size == 0`, the value-initialised tag and an empty body, and is consistent |
| Messages.Size | src/network/message.hpp:41-43 | `size()` returns the 16-bit `header.size` field, whatever the body holds; on a consistent message that is the body length modulo 2^16 |
| Messages.Resize | src/network/message.hpp:56 | `vector::resize(n)` gives length `n`: it keeps the first `n` bytes, or keeps the whole body and pads with zeros |
| Messages.Appended | src/network/message.hpp:55-60 | appending grows the body by exactly the value's length; the old body is an unchanged prefix and the value is the new suffix; `size` is the new length modulo 2^16, and equals it below 2^16 |
| Messages.Top | src/network/message.hpp:70-71 | operator>> copies out exactly the last `n` bytes of the body |
| Messages.Popped | src/network/message.hpp:70-75 | consuming truncates the body to its first \|body\|-n bytes, keeps the tag and records the new length in `size` |
| Messages.Append | src/network/message.hpp:50-63 | operator<< (resize, then copy into the new space, then store the size) produces exactly the appended message |
| Messages.Consume | src/network/message.hpp:65-78 | operator>> needs at least `n` bytes in the body, returns the last `n` bytes and leaves the truncated message |
| Messages.SizeIsBodyLength | src/network/message.hpp:41-43 | on a consistent message shorter than 2^16 bytes, `size()` is the body length |
| Messages.SizeWrapsAround | src/network/message.hpp:41-43 | `size()` reads the header, so a body of 2^16 bytes reports size 0 |
| Messages.ConsumeAfterAppend | src/network/message.hpp:50-78 | on a consistent message, consuming right after appending returns the appended bytes and restores the previous message, header included |
| Messages.LastInFirstOut | src/network/message.hpp:55-75 | appending v1..vk and then consuming values of the matching widths gives vk..v1 and the original message |
| Messages.ValueRoundTrip | src/network/message.hpp:50-78 | for a fixed-layout value type, `m << v` followed by `>> v2` sets v2 to v and restores `m` |
| Queues.Queue.constructor | src/network/queue_mt.hpp:14 | a new queue is empty |
| Queues.Queue.Front | src/network/queue_mt.hpp:21-24 | requires a non-empty queue; returns the first element and changes nothing |
| Queues.Queue.Back | src/network/queue_mt.hpp:29-32 | requires a non-empty queue; returns the last element and changes nothing |
| Queues.Queue.PushBack | src/network/queue_mt.hpp:37-40 | the contents become the old contents followed by `t` |
| Queues.Queue.PushFront | src/network/queue_mt.hpp:45-48 | the contents become `t` followed by the old contents |
| Queues.Queue.PopFront | src/network/queue_mt.hpp:53-58 | requires a non-empty queue; returns the old first element and leaves the rest |
| Queues.Queue.PopBack | src/network/queue_mt.hpp:63-68 | requires a non-empty queue; returns the old last element and leaves all the others |
| Queues.Queue.Clear | src/network/queue_mt.hpp:73-76 | the queue becomes empty |
| Queues.Queue.Size | src/network/queue_mt.hpp:81-84 | returns the number of elements |
| Queues.Queue.Empty | src/network/queue_mt.hpp:89-91 | true exactly when `size() == 0` |
| Queues.FirstInFirstOut | src/network/queue_mt.hpp:37-58 | elements pushed with `push_back` come out of `pop_front` in the order they were pushed |
| Connections.Connection.Host | src/network/connection.hpp:170-171 | a host connection on an opened socket starts with no read or write in flight, an empty outgoing queue, not accepted |
| Connections.Connection.Client | src/network/connection.hpp:211-212 | a client connection starts closed, with no read or write in flight and an empty outgoing queue |
| Connections.Connection.Owner | src/network/connection.hpp:196-198 | a host connection's owner is the connection itself; a client connection has none (connection.hpp:231-233) |
| Connections.Connection.Id | src/network/connection.hpp:193 | `id()` is the id that `accept` recorded |
| Connections.Connection.IsConnected | src/network/connection.hpp:42 | returns whether the socket is open |
| Connections.Connection.Disconnect | src/network/connection.hpp:30-37 | leaves the socket closed and changes nothing else, so a second call has the same effect as one |
| Connections.Connection.Send | src/network/connection.hpp:47-52 | `m` joins the back of `m_outgoing`; a header write of `m` starts only if no write was in flight, and an ongoing write is left alone |
| Connections.Connection.PrimeRead | src/network/connection.hpp:55-59 | starts a header read only if the read pipeline is not running; otherwise changes nothing |
| Connections.Connection.PrimeWrite | src/network/connection.hpp:61-65 | starts a header write of the front message only if no write is in flight; otherwise changes nothing |
| Connections.Connection.PrimeReadHeader | src/network/connection.hpp:70-71 | issues one header read, only when no read is in flight |
| Connections.Connection.PrimeReadBody | src/network/connection.hpp:89-90 | issues one body read, only when no read is in flight |
| Connections.Connection.PrimeWriteHeader | src/network/connection.hpp:109-111 | issues one header write of a copy of `m_outgoing.front()`, only when no write is in flight |
| Connections.Connection.PrimeWriteBody | src/network/connection.hpp:128-130 | issues one body write of a copy of `m_outgoing.front()`, only when no write is in flight |
| Connections.Connection.FinishRead | src/network/connection.hpp:102-107 | pushes the message read, tagged with `owner()` (the connection itself on a host, nothing on a client), onto the back of the inbox exactly once; drops the tag and starts the next header read |
| Connections.Connection.FinishWrite | src/network/connection.hpp:142-148 | removes exactly the front message, which becomes the next written message; sets the flag to "more remain" and then writes the new front |
| Connections.Connection.OnHeaderRead | src/network/connection.hpp:72-86 | on success with `size > 0` the body is resized to `size` and a body read starts; with `size == 0` the message goes to the inbox with the previous body left in place; on error the socket closes and the flags and queue stay |
| Connections.Connection.OnBodyRead | src/network/connection.hpp:91-99 | on success the message with the bytes read goes to the inbox once and a header read starts; on error the socket closes, nothing is dispatched and the flags stay |
| Connections.Connection.OnHeaderWritten | src/network/connection.hpp:112-125 | on success a message whose header size is non-zero goes on to its body write, one whose header size is zero is finished (so a 2^16-byte body is never written); on error the socket closes and the flag and queue stay |
| Connections.Connection.OnBodyWritten | src/network/connection.hpp:131-139 | on success the front message is finished; on error the socket closes and the flag and queue stay |
| Connections.Connection.Accept | src/network/connection.hpp:182-188 | on an open socket it sets the id and `m_accepted` and starts reading; on a closed one it changes nothing |
| Connections.Connection.Connect | src/network/connection.hpp:217-218 | starts one connect attempt |
| Connections.Connection.OnConnected | src/network/connection.hpp:219-227 | a successful connect opens the socket and starts reading; a failed one leaves the state unchanged |
| Servers.WithoutMembers | src/network/server.hpp:103-105 | erase-remove keeps exactly the entries different from `x`: in both directions |
| Servers.WithoutConcat | src/network/server.hpp:103-105 | erase-remove keeps the relative order: it distributes over concatenation |
| Servers.WithoutAbsent | src/network/server.hpp:65 | removing a value that does not occur leaves the roster unchanged |
| Servers.WithoutAscending | src/network/server.hpp:103-105 | erase-remove keeps the entries in admission order |
| Servers.LiveMembers | src/network/server.hpp:71-86 | the pruned roster holds exactly the reachable roster entries: in both directions |
| Servers.DeadMembers | src/network/server.hpp:71-78 | the entries reported to `on_client_disconnect` are exactly the unreachable roster entries: in both directions |
| Servers.LiveConcat | src/network/server.hpp:71-86 | pruning keeps roster order: it distributes over concatenation |
| Servers.LiveDeadSplit | src/network/server.hpp:71-86 | every entry is either reachable or reported; with nothing reported, pruning keeps the whole roster |
| Servers.LiveAscending | src/network/server.hpp:71-86 | pruning keeps the entries in admission order |
| Servers.PruneNulled | src/network/server.hpp:75-86 | resetting the dead entries in place and then erasing `nullptr` leaves exactly the reachable entries, in order |
| Servers.NulledAt | src/network/server.hpp:71-77 | entry k after the walk is entry k of the roster if reachable, and `nullptr` otherwise |
| Servers.NulledMembers | src/network/server.hpp:71-77 | after the walk, every non-null entry is a reachable roster entry |
| Servers.NulledAscending | src/network/server.hpp:71-77 | resetting entries in place keeps admission order |
| Servers.NulledAllLive | src/network/server.hpp:71-86 | when every entry is reachable, the walk changes no entry |
| Servers.PrunedRoster | src/network/server.hpp:71-86 | after the walk, erasing `nullptr` (done only when an entry was reset) leaves exactly the reachable entries; with no reset the roster is unchanged |
| Servers.DeadCount | src/network/server.hpp:71-78 | `send_all` reports a connection to `on_client_disconnect` once per roster occurrence if it is unreachable, and never if it is reachable |
| Servers.BroadcastCount | src/network/server.hpp:71-83 | `send_all` sends `m` to a connection once per roster occurrence if it is reachable and not `exc`, and never otherwise |
| Servers.BroadcastTargets | src/network/server.hpp:71-83 | `send_all` sends only `m`, only to reachable roster entries, and never to `exc` |
| Servers.AscendingPairwise | src/network/server.hpp:113-116 | in admission order, any two entries with admission numbers compare by position |
| Servers.AscendingDistinct | src/network/server.hpp:113-116 | in admission order, no admitted connection occurs twice |
| Servers.BroadcastExactlyOnce | src/network/server.hpp:71-83 | on a roster in admission order, each reachable admitted entry other than `exc` is sent `m` exactly once |
| Servers.AppendAscending | src/network/server.hpp:116 | a connection admitted after every roster entry may join the back and keep admission order |
| Servers.AscendingFrame | src/network/server.hpp:113-116 | admission order depends only on the admission numbers of the roster's own entries |
| Servers.WalkStep | src/network/server.hpp:71-83 | one loop iteration of `send_all` extends the reset roster, the reports and the sends by what the next entry contributes |
| Servers.WalkAdvance | src/network/server.hpp:71-83 | the next entry of the walk is still the original entry; resetting and reporting it when unreachable, or sending to it unless it is `exc`, gives the state after that entry |
| Servers.Walk | src/network/server.hpp:70-83 | the loop of `send_all` resets each unreachable entry in place and reports it once, in roster order; it sends `m` to the other entries except `exc`; `invalid` is set exactly when an entry was reset |
| Servers.Server.constructor | src/network/server.hpp:134-137 | a new server has an empty roster, `m_next_id == 0` and an empty inbox |
| Servers.Server.IdsIncrease | src/network/server.hpp:113-116 | until `m_next_id` wraps around, ids strictly increase along the roster |
| Servers.Server.BroadcastOnce | src/network/server.hpp:71-83 | on a valid server, `send_all(m, exc)` sends `m` exactly once to each reachable client other than `exc` |
| Servers.Server.ReportedOnce | src/network/server.hpp:71-78 | on a valid server, `send_all` reports each unreachable client to `on_client_disconnect` exactly once |
| Servers.Server.NulledRoster | src/network/server.hpp:71-77 | resetting dead entries in place keeps the roster invariant |
| Servers.Server.WaitForClient | src/network/server.hpp:107-108 | arms an asynchronous accept |
| Servers.Server.OnAccept | src/network/server.hpp:108-126 | on an approved accept, the new connection gets `id == m_next_id` (the number of earlier approvals modulo 2^32) and is accepted and reading, satisfies the connection invariant and has an empty outgoing queue with no write in flight; `m_next_id` grows by one and the connection is appended to the roster; a denial or an accept error leaves roster and counter unchanged; the accept is re-armed afterwards |
| Servers.Server.Admit | src/network/server.hpp:113-116 | an approved connection joins the back of the roster and the counter grows by one, keeping the invariant |
| Servers.Server.RemoveClients | src/network/server.hpp:103-105 | erases every entry equal to `x` and keeps the other entries in their order |
| Servers.Server.Send | src/network/server.hpp:58-67 | a reachable client is sent `m`; an unreachable one is reported once to `on_client_disconnect` and the roster is unchanged (it stays in the roster) |
| Servers.Server.SendPruning | src/network/server.hpp:58-66 | corrected `send`: an unreachable client is reported once and erased from the roster |
| Servers.Server.SendAll | src/network/server.hpp:69-87 | the roster becomes its reachable entries in order; the unreachable entries, a dead `exc` included, are reported in roster order; the sends are the reachable entries other than `exc`, in roster order |
| Servers.Server.Process | src/network/server.hpp:89-95 | hands min(max, \|inbox\|) messages from the front of the inbox to `on_message`, in order, and drains the whole inbox when no maximum is given; it changes nothing else, so the server invariant is kept |
| Servers.DeadClientReportedTwice | src/network/server.hpp:58-87 | as written: after `send(c, m)` on a dead `c`, a `send_all` reports `c` to `on_client_disconnect` a second time |
| Servers.DeadClientReportedOnce | src/network/server.hpp:58-87 | with the corrected `send`, a following `send_all` does not report `c` again |

## Left out

- Mutexes, threads, `io_context::run` and `stop`. These are not modelled. Each queue operation is one atomic step. Each asio completion handler and each posted closure is an event method that runs when it is dequeued.
- Connections.Connection.Disconnect: the closure that `disconnect` posts runs at once, so the check and the close are one step.
- Connections.Connection.Send: the posted closure is taken to run at once. `Server.Send` and `Server.SendAll` record a per-client send in the `deliveries` trace instead of calling it. A send to a client that has meanwhile closed is therefore not modelled.
- Connections.Connection.OnBodyRead: the bytes read are the parameter `data`, the whole body. A partial fill of the body before an error is not modelled. The same holds for partially written messages.
- Connections.Connection.OnHeaderRead: on an error the model keeps `m_temp` as it was. The source reads straight into `m_temp.header`, so part of a header may remain there. No later step reads it, because reading does not restart on that socket.
- Socket I/O, address resolution, the acceptor and its port binding, and `socket.remote_endpoint()` are left out. The outcome of every operation and the bytes read are parameters.
- `server_interface::start` and `stop`, the destructors, `src/network/client.hpp` and all logging: thread and socket plumbing, and log messages only. `src/network/client.hpp` is not part of this model.
- The byte layout that `memcpy` produces, and host byte order. A value of `DataType` is its raw bytes; the `Layout` datatype states only that encoding has a fixed width and decodes back.
- Servers.Server.OnAccept: `on_client_connect` may inspect the new connection; here its answer is the parameter `approve`.
- Servers.Server.OnAccept: the handler logs `socket.remote_endpoint()` (server.hpp:109) before it tests the error code. That overload throws when the socket is not connected, which is the case after a failed accept. The exception would leave the handler and `m_asio.run()`, so the error log and the re-arm at server.hpp:122-125 would not be reached. `m_asio.run()` is the whole body of the thread lambda at server.hpp:31, with no `try` around it (the `try` in `start()` covers only the thread's creation), so the uncaught exception calls `std::terminate` and the whole process ends. The model drops this exception: on `ok == false` it re-arms the accept, as lines 122-125 intend.
- Servers.Server.IdsIncrease: ids strictly increase only while fewer than 2^32 clients have been approved. After that `m_next_id` wraps around; the model keeps the wrap (`Increment32`), and the lemma's precondition excludes it.
- Servers.Server.Process: the loop counter is a `nat`. The `int i` of the source, compared with a `size_t` maximum, would overflow after 2^31 messages. `max` is an optional `nat`, and its absence means the largest 64-bit `size_t`.
- Servers.Server.SendAll: the warning log at server.hpp:73 dereferences a null entry. The roster invariant `Valid` excludes null entries between calls, so that undefined behaviour cannot arise here.
- `size_t` is unbounded except where a value is stored into a narrower field: the 16-bit `header.size`, and the sentinel maximum of `process`.
- Connections.Connection.OnHeaderRead: after an empty message the body of the previous message stays in `m_temp` and is dispatched with the new header. The model reproduces this and claims no relation between `size` and the body length in that case.

## Findings

| source | as written | input that shows it | evidently intended | confidence | as-written member | corrected member |
|---|---|---|---|---|---|---|
| src/network/server.hpp:58-66 | `send` resets its local handle before `remove_clients(client)`, so only `nullptr` entries are erased and the dead client stays in `m_clients` | a roster holding a client `c` whose socket is closed; `send(c, m)` then `send_all(m)` | the dead client is erased from the roster, so `on_client_disconnect(c)` runs once | not executed; medium | Servers.DeadClientReportedTwice | Servers.Server.SendPruning |
