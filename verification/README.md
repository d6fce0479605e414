# Key-value cluster coordinator, modelled in Dafny

This project models the deterministic core of a small key-value cluster
coordinator written in Rust (`src/main.rs`). The coordinator does three things:

- **Client protocol handler** (`handle_connection`). It reads one request
  line, trims it, splits it on single spaces and dispatches on the token count
  and verb. `GET k` answers `OK <v>` or `NOT FOUND`. `PUT k v` and `DEL k`
  change the store, publish the command on the bus and answer `OK`. Anything
  else answers `ERROR`.
- **Store command application** (`handle_command`). `Put`, `Get` and `Del`
  act on a `HashMap<String, String>`. The event loop applies every command a
  second time after the handler has applied it. Applying a command is
  idempotent, so the replay is harmless as long as no other write to the
  same key comes in between.
- **Cluster event loop** (the `match` inside `main`). It is a state machine
  over the store, the membership registry (`nodes`) and the leadership cell
  (`leader`). It handles `Command`, `NewNode`, `Election`, `Leader` and
  `Heartbeat` messages. The election rule compares the textual form of peer
  addresses. Around the loop sit two pure operations over the registry:
  removing a failed peer with `retain`, and the heartbeat fan-out.

Modules, one file each:

- `Wrappers` (`wrappers.dfy`): `Option`.
- `Strings` (`strings.dfy`): Rust's `trim` and `split(' ')`. `Join` is the
  inverse of `Split`.
- `Order` (`order.dfy`): `StrLt`, the lexicographic order on strings. Rust's
  `String` comparison orders UTF-8 bytes, and UTF-8 keeps code-point order, so
  this is character-wise lexicographic order with a proper prefix sorting
  first. Dafny's `<` on sequences means "proper prefix", so the order is
  defined explicitly. The module also defines `Greatest`, the greatest
  element of a list.
- `KeyValue` (`keyvalue.dfy`): `Store`, `Command`, `Apply` (`handle_command`).
- `Messages` (`messages.dfy`): `Message`. The Rust variant `Message::Command`
  is called `CommandMsg` here. An address (`Addr`) is its `to_string()` text.
- `Protocol` (`protocol.dfy`): `ParseRequest`, `Execute` and `HandleRequest`
  (`handle_connection`). `Render` is the client's side of the wire format.
- `Membership` (`membership.dfy`): `RemoveNode` (`retain`) and `Heartbeats`
  (the fan-out).
- `Cluster` (`cluster.dfy`): `State`, `Step` (one iteration of the loop) and
  `Run` (the loop over a given sequence of received messages, with sent
  messages collected as output). `Drain` is the loop as the one long-lived
  subscriber of a FIFO bus. It feeds its own published messages back into the
  queue until the bus is empty.
- `Elections` (`elections.dfy`): properties of the leadership protocol.
- `Session` (`session.dfy`): handler and loop together: replaying published
  commands, heartbeats, and the client exchange.

Five behaviours of `src/main.rs` are easy to miss, and the model keeps them
as written:

- **A join never deposes a leader.** `NewNode` publishes an `Election` only
  while the leadership cell is empty (src/main.rs:94-96). So a join never
  replaces a leader, whatever the newcomer's address
  (`Elections.JoinNeverDeposes`). `Election` is published only in the
  `NewNode` arm (src/main.rs:95). So once a leader is set, it can be
  replaced only by an `Election` queued by an earlier leaderless join, or by
  a `Leader` message, which such an election causes.
- **A late announcement can lower the leader for a while.** The `Election`
  arm sets the leader itself (src/main.rs:101) and then announces it
  (src/main.rs:102), and a `Leader` message sets the cell unconditionally
  (src/main.rs:107). An announcement is sent only after its election set the
  cell, so every leader was first set by an election. But an announcement
  that arrives after a higher election can lower the leader until the higher
  one's announcement follows (`Elections.StaleAnnouncementLowers`). When
  every pending message is processed in FIFO order, the greatest address
  still wins (`Elections.ConcurrentJoinsElectGreatest`).
- **A failed peer can stay registered.** The acceptor only queues the
  peer's `NewNode` (src/main.rs:54), and the loop appends the peer later
  (src/main.rs:93). The `retain` runs inside the spawned handler task
  (src/main.rs:63-64). If the handler fails before the loop takes the join,
  the `retain` removes nothing, and the join then registers the failed peer
  for good (`Session.ConnectionLifecycle`).
- **A late replay can undo a newer write.** The handler inserts the value
  (src/main.rs:148) and publishes the command (src/main.rs:149), and the loop
  applies it again when it takes the message (src/main.rs:87-88). If a second
  handler writes `v2` to the same key in between, the loop's replay of the
  first `Put(k, v1)` puts `v1` back, and `GET k` answers `OK v1`
  (`Session.LateReplayReverts`).
- **The file does not compile as written.** `socket_clone` is undefined at
  src/main.rs:61, and `tx` is moved into two closures. The model follows the
  evident intent: the accepted socket goes to the handler, and both tasks
  publish on the same bus.

A client's request is modelled on the wire too. `Line` is the text a client
types for a request and `Render` adds the terminator. `ReadLine` is
`read_line`, and `HandleConnection` handles the line it reads. A request is
`Sendable` when its arguments contain neither a space nor a newline and its
last argument ends in a non-whitespace character. Arguments may start with
whitespace, because `trim` only looks at the ends of the whole line.
Whitespace typed after the last argument, such as the `\r` of a CRLF
client, is absorbed by `trim`; `Protocol.ParseRender` and
`Protocol.ServeRequest` take it as a padding parameter.

## Model

| member | source | states |
|---|---|---|
| Strings.Trim | src/main.rs:135 | `trim` returns a string with no whitespace at either end. That string sits in the input between an all-whitespace prefix and an all-whitespace suffix. Whitespace means Rust's `char::is_whitespace`. |
| Strings.TrimExact | src/main.rs:135 | When a trimmed string is surrounded by whitespace, `trim` returns exactly that string. |
| Strings.Split | src/main.rs:135 | `split(' ')` returns at least one piece. No piece contains a space, and joining the pieces with single spaces gives back the input. |
| Strings.SplitJoin | src/main.rs:135 | Splitting a space-joined, non-empty list of space-free tokens gives back the list. Together with `Split`'s contract, this makes split and join inverses. |
| Strings.SplitCount | src/main.rs:135 | A string with n spaces splits into n + 1 pieces. So a doubled space adds an empty piece and changes the token count. |
| Order.StrLt | src/main.rs:100 | The `>` on address texts. A proper prefix sorts before the longer text, and a text never sorts before one of its own prefixes. `Order.StrLtMeansLexLess` characterises it completely. |
| Order.StrLtMeansLexLess | src/main.rs:100 | `StrLt(a, b)` holds exactly when `a` is a proper prefix of `b`, or the two agree up to a first differing position where `a` has the smaller character. |
| Order.StrLtIrreflexive | src/main.rs:100 | No address text sorts before itself. |
| Order.StrLtTransitive | src/main.rs:100 | The address order is transitive. |
| Order.StrLtTotal | src/main.rs:100 | Any two address texts are equal or ordered one way or the other. |
| Order.StrLtAsymmetric | src/main.rs:100 | Two address texts are never each below the other. |
| Order.Greatest | src/main.rs:98-104 | The result is an element of the non-empty list, and every other element sorts strictly before it. |
| Order.GreatestUnique | src/main.rs:98-104 | Two lists with the same elements have the same greatest element. |
| KeyValue.Apply | src/main.rs:169-182 | `Put(k, v)` makes `k` read `v`. `Del(k)` makes `k` absent. `Get` leaves the store unchanged. Every other key reads as before. |
| KeyValue.ApplyIdempotent | src/main.rs:169-182 | Applying any command twice gives the same store as applying it once. |
| KeyValue.LastWriteWins | src/main.rs:171-173 | Two `Put`s to the same key give the same store as the later one alone. |
| Protocol.ParseRequest | src/main.rs:134-160 | A GET, PUT or DEL result means the trimmed line is exactly that verb, a space, and space-free arguments separated by single spaces. |
| Protocol.ParseGet | src/main.rs:137 | For a space-free `k`: the line parses as `GET k` if and only if the trimmed line is `GET k`. |
| Protocol.ParsePut | src/main.rs:145 | For space-free `k` and `v`: the line parses as `PUT k v` if and only if the trimmed line is `PUT k v`. |
| Protocol.ParseDel | src/main.rs:153 | For a space-free `k`: the line parses as `DEL k` if and only if the trimmed line is `DEL k`. |
| Protocol.ParseMalformed | src/main.rs:159 | A line is rejected only when its trimmed text matches none of the three request shapes, for any space-free arguments. |
| Protocol.ParseRender | src/main.rs:134-137 | A sendable request, followed by any whitespace (the terminator, a carriage return, padding after the last argument), parses back as that same request. |
| Protocol.Execute | src/main.rs:136-160 | At most one message is published. Publishing nothing means the store is unchanged. A published message is a command, and applying it to the old store gives the new store. The answer is `ERROR` exactly for a malformed request. |
| Protocol.HandleGet | src/main.rs:137-144 | `GET k` answers `OK <v>` when `k` is bound to `v`, and `NOT FOUND` otherwise. It changes nothing and publishes nothing. |
| Protocol.HandlePut | src/main.rs:145-152 | `PUT k v` answers `OK`. Afterwards `k` reads `v`, every other key is unchanged, and exactly `Command(Put(k, v))` is published. |
| Protocol.HandleDel | src/main.rs:153-158 | `DEL k` answers `OK`. Afterwards `k` is absent, every other key is unchanged, and exactly `Command(Del(k))` is published. |
| Protocol.HandleOther | src/main.rs:159 | Any line of none of the three shapes answers `ERROR`, with the store unchanged and nothing published. |
| Protocol.HandleRequest | src/main.rs:134-160 | `handle_connection` after the read. The store changes only by the one command published, if any. A line that is blank once trimmed answers `ERROR`, changes nothing and publishes nothing. `HandleGet`, `HandlePut`, `HandleDel` and `HandleOther` characterise each case. |
| Protocol.ReadLine | src/main.rs:132 | The line read is a prefix of the input with no newline before its last character, and it either ends in a newline or is the whole input. |
| Protocol.ReadLineThrough | src/main.rs:132 | A line with no inner newline, followed by its terminator, is read whole, and what follows stays unread. |
| Protocol.ServeRequest | src/main.rs:132-160 | What a client writes for a sendable request, with whitespace before the terminator and anything after it, is handled exactly as that request. |
| Protocol.HandleConnection | src/main.rs:132-160 | `handle_connection` including the `read_line`. The store changes only by the one command published. Input without a newline is handled whole as one line, and input that starts with a newline is an empty request that answers `ERROR` and changes nothing. `Protocol.ServeRequest` states what a client's request does. |
| Membership.RemoveNode | src/main.rs:63-64 | No occurrence of the failed address remains, and no new entry appears. A registry without that address is returned unchanged. |
| Membership.RemoveNodeCounts | src/main.rs:64 | Every other address keeps its exact number of occurrences. |
| Membership.RemoveNodeConcat | src/main.rs:64 | Removal distributes over concatenation, so the survivors keep their relative order. |
| Membership.JoinThenFail | src/main.rs:61-64 | A peer that joined and then failed leaves the same registry as removing it from the registry before the join. |
| Membership.RemoveNodeIdempotent | src/main.rs:64 | Removing an address twice is the same as removing it once. |
| Membership.Heartbeats | src/main.rs:77-80 | One tick sends exactly one `Heartbeat(n)` per registry entry, in registry order. |
| Membership.AfterConnection | src/main.rs:60-65 | When the handler returns normally the registry is unchanged. When it fails, no entry of the peer remains and every other peer keeps its count. |
| Cluster.Step | src/main.rs:86-112 | Only a command changes the store, and it changes it as `handle_command` does. Only a join changes the registry. Only an election or an announcement changes the leader. At most one message is sent, and it is never a command. |
| Cluster.Run | src/main.rs:84-113 | Processing a sequence of messages sends at most one message per message received. |
| Cluster.RunFrame | src/main.rs:86-112 | A stream without commands leaves the store unchanged. A stream without joins leaves the registry unchanged. The loop never publishes a command. |
| Cluster.RunAppend | src/main.rs:84-113 | Processing two batches one after the other is the same as processing their concatenation. |
| Cluster.RegistryOnlyGrows | src/main.rs:90-93 | The old registry is always a prefix of the new one: the event loop never removes a peer, it only appends. |
| Cluster.Drain | src/main.rs:84-113 | The loop as the single FIFO subscriber, until the bus is empty. The old registry stays a prefix of the new one, the loop never publishes a command, and a queue without commands leaves the store unchanged. `Cluster.DrainQueued` relates it to `Run`. |
| Cluster.DrainQueued | src/main.rs:84-85 | On a FIFO bus, the loop first handles the messages already queued and then the messages they caused. |
| Elections.ElectionsAt | src/main.rs:95 | The i-th proposal of a batch names the i-th address. |
| Elections.NewNodesAt | src/main.rs:53-54 | The i-th join of a batch names the i-th address. |
| Elections.StepElection | src/main.rs:98-104 | On `Election(a)`, `a` becomes leader and `Leader(a)` is sent exactly when there is no leader or `a` sorts strictly after it. Otherwise nothing changes. The store and registry are untouched. |
| Elections.ElectionMonotone | src/main.rs:98-104 | An election never lowers the leader. |
| Elections.StepControl | src/main.rs:90-111 | `NewNode(a)` appends `a`, keeping duplicates, and sends `Election(a)` only while there is no leader. `Leader(a)` sets the leader to `a` unconditionally. `Heartbeat` changes nothing. |
| Elections.NeverLowerWithoutAnnouncements | src/main.rs:86-112 | Under any stream without `Leader` messages, the leader never decreases. |
| Elections.StaleAnnouncementLowers | src/main.rs:98-108 | Processing `Election(a)`, then `Election(b)` with `a` below `b`, then the late `Leader(a)` leaves `a` as leader. The unconditional announcement rule can lower the leader. |
| Elections.RunElections | src/main.rs:98-104 | After a round of proposals, the leader is the greatest of the old leader and the proposals. The store and registry are untouched. |
| Elections.RoundAnnouncements | src/main.rs:98-104 | Every message a round sends is a `Leader`. The last one names the final leader. A round that starts without a leader sends at least one. |
| Elections.RoundQuiet | src/main.rs:98-104 | A round that sends nothing leaves the state unchanged. |
| Elections.ElectionsElectGreatest | src/main.rs:98-104 | The final leader of a round is `Greatest` of the old leader and the proposals. |
| Elections.ElectionOrderIrrelevant | src/main.rs:98-104 | Two rounds with the same set of proposed addresses end with the same leader, whatever the arrival order and repetitions. |
| Elections.JoinsWhileLeaderless | src/main.rs:90-97 | While there is no leader, a batch of joins appends every address and proposes each one, in order. |
| Elections.DrainAnnouncements | src/main.rs:105-108 | Draining a queue of announcements leaves the last one as leader, and nothing else changes. |
| Elections.JoinElects | src/main.rs:90-108 | When a cluster has no leader, a joining peer is registered and becomes leader once the bus has drained. |
| Elections.FirstPeerLeads | src/main.rs:40-42 | The first peer to connect to a fresh node is registered alone and leads it. |
| Elections.JoinNeverDeposes | src/main.rs:94-96 | When a cluster has a leader, a join only appends the address. The leader stays, whatever the newcomer's address. |
| Elections.ConcurrentJoinsElectGreatest | src/main.rs:90-108 | When peers join a leaderless cluster together, all are registered. Once the bus drains, the greatest of them leads. |
| Session.ReplayIsHarmless | src/main.rs:87-88 | When the loop re-applies the handler's published messages to the store the handler left, nothing changes and nothing is sent. |
| Session.AtLeastOnce | src/main.rs:148-149 | However many times (at least once) the loop receives the published messages, it ends with exactly the handler's store and the rest of the state unchanged. |
| Session.HeartbeatsAreInert | src/main.rs:109-111 | A full heartbeat round leaves the store, registry and leader unchanged and sends nothing. |
| Session.LastWriteWinsOnTheWire | src/main.rs:137-152 | After `PUT k v1` and then `PUT k v2`, `GET k` answers `OK v2`. |
| Session.LateReplayReverts | src/main.rs:87-88 | When a second handler stores `v2` under `k` (src/main.rs:148) before the loop replays the first handler's `Put(k, v1)`, the replay sends nothing and leaves `k` bound to `v1`, and `GET k` then answers `OK v1`. |
| Session.DeleteThenGet | src/main.rs:153-158 | A second `DEL k` leaves the store unchanged, and `GET k` then answers `NOT FOUND`. |
| Session.RejectsFoo | src/main.rs:159 | The line `FOO` is malformed. |
| Session.ClientSession | src/main.rs:135-160 | On a fresh store, `PUT k v`, `GET k`, `DEL k`, `GET k`, `FOO` get `OK`, `OK v`, `OK`, `NOT FOUND`, `ERROR`. |
| Session.HandleRendered | src/main.rs:134-136 | Handling the newline-terminated line of a sendable request has the same effect as executing that request. |
| Session.ConnectionLifecycle | src/main.rs:52-96 | A peer whose request completed is registered once more at the end of the registry, in either order of the join and the handler. When the loop drains the join before the handler fails, the failed peer leaves the registry as if its removal had been applied before the join. When the handler fails first, the `retain` finds nothing, and the peer ends up registered at the end of the registry with its earlier entries removed. |
| Session.JoinAppends | src/main.rs:90-96 | Once the bus drains, a join has appended the address to the registry, whether or not the cluster had a leader. |

## Left out

- TCP accept, the socket clone, and the write and flush of the response (src/main.rs:52, 123-124, 163-164). `HandleConnection` takes what the client wrote as a string, and the response is a field of the result.
- I/O errors inside `handle_connection`. `HandleConnection` models only a successful read and write. A failed `read_line` at src/main.rs:132, for example on non-UTF-8 input, returns through `?` before any parsing: the store is unchanged, nothing is published and nothing is written back. A failed write or flush at src/main.rs:163-164 comes after the store changed and the command was published. Either failure makes the acceptor call `retain`; `Membership.AfterConnection` and `Session.ConnectionLifecycle` take whether the handler failed as a parameter.
- Session.ConnectionLifecycle: covers the two orders in which the loop drains the whole join before the handler's `retain`, or the `retain` comes before the loop takes the join. A `retain` between the loop's handling of the `NewNode` and of the `Election` it queued is not stated: the peer leaves the registry, but the election that follows can still make it leader.
- Protocol.ParseRender: covers every request whose last argument has a non-whitespace character at its end. A last argument that is empty or all whitespace does not survive the wire: `trim` removes it, the line has too few tokens for its verb, and the parser rejects it. No lemma states this case on its own. A last argument with visible text followed by whitespace, such as `x\t` in `GET x\t`, is not rejected: `trim` removes its tail, and the line is read back as a different request (`GET x`).
- Session.LastWriteWinsOnTheWire: covers the three handler calls on their own. With the event loop in between, a replay of the first `Put` that lags behind the second handler's write reverts the key to `v1` (`Session.LateReplayReverts`). The second `Put`'s own replay would restore `v2`, but under the fresh subscription on each iteration (src/main.rs:85) that command can be missed, and then `v1` stays.
- The tokio tasks, the `TokioMutex` locks and the `broadcast` channel (src/main.rs:38-47, 50, 60, 73, 85). This covers the capacity of 1024, lagging, and the fresh subscription on each iteration. `Run` treats sent messages as output. `Drain` models the intended single, lossless, FIFO subscription. Messages that outside publishers send while the bus drains are not interleaved.
- The heartbeat interval (src/main.rs:29, 74-76): wall-clock scheduling. One tick is `Heartbeats`.
- `SocketAddr` parsing and formatting (src/main.rs:33, 53, 100). Addresses are their textual form already.
- `println!`/`eprintln!` logging (src/main.rs:36, 62, 91, 106, 110).
- The panics of `unwrap` on a failed `send` (src/main.rs:54, 79, 95, 102, 150, 156) and on a failed `recv` (src/main.rs:85). A `send` fails only when the bus has no receiver. Under the modelled single long-lived subscription (`Drain`) the bus always has one, so these panics cannot happen in the model. In the text as written they can: the receiver made at src/main.rs:38 is discarded, and the one from `tx.subscribe()` at src/main.rs:85 is dropped before the `match`. A panic in the handler would then come after the store changed and before `OK` is written, and it would skip the `retain` at src/main.rs:64. A panic in the event loop would end it.
- The unused `_leader` parameter of `handle_connection`.
