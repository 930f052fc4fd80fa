# realtime-gameserver core, modelled in Dafny

This project models the sequential core of a small UDP game server and its client:

- **Map files.** `MapGen` generates a random height map, saves it as a binary file, loads it back and caches it. The file holds three little-endian int32 header fields (width, height, maxVal) followed by 4-byte float32 cells in row-major order. `MapCodec` is that layout as a pure encoder/decoder over bytes. `LittleEndian` holds the int32 and word conversions. `Float32Bits` holds the exact float32 bit pattern of each small integer the generator draws.
- **Session table.** `Sessions` models the server's map from address key to session: the receive step that creates or refreshes a session and confirms new clients, the reaper that drops silent sessions, and the snapshot the server broadcasts.
- **Event registry.** `Events` models handler lists per event type. Subscription appends to a list. Dispatch fans out over the copy of the list it read, modelled as the multiset of handler invocations.
- **Client reconciliation.** `ClientState` models how the client applies server messages to its local user id and its users by id. `Wire` connects the two ends: what the client holds after the server's messages is what the server's table holds.

Every operation is a pure function on immutable values, except `Events.Dispatch` and `Sessions.CleanInactiveClients`, which are loops. External inputs are explicit parameters:

- Time is an integer clock.
- The random spawn of a new user is a `Spawn` argument.
- The random source of the generator is a `draw` function.
- The order in which Go iterates a map is an `order` sequence that lists each key once.
- The file system is a map from names to byte strings.
- What goes wrong while saving is an `IoFault` argument.

## Model

| member | source | states |
|---|---|---|
| Float32Bits.OfInt | server/map_generator.go:40 | `float32(n)` of an integer below 2^24 is a float32 bit pattern that denotes exactly `n` again |
| Float32Bits.OfIntInjective | server/map_generator.go:40 | different integer draws below 2^24 become different cells |
| Float32Bits.OfIntSamples | server/map_generator.go:40 | the patterns agree with IEEE-754 single precision: 0 is +0.0, 2^22 is 0x4A800000, 1.5·2^22 is 0x4AC00000 |
| LittleEndian.WordRoundTrip | server/map_generator.go:141 | reading back the four little-endian bytes written for a word gives the word |
| LittleEndian.BytesRoundTrip | server/map_generator.go:141 | any four bytes are the little-endian encoding of the word read from them |
| LittleEndian.Int32Word | server/map_generator.go:65 | `int32(x)` keeps the low 32 bits: the word differs from x by a multiple of 2^32; in int32 range a negative value becomes x + 2^32 |
| LittleEndian.SignedOf | server/map_generator.go:125 | a word read as int32 lies in int32 range, and truncating it again gives the same word |
| LittleEndian.Int32Of | server/map_generator.go:127-135 | a header field read from four bytes lies in int32 range and re-encodes to exactly those bytes |
| LittleEndian.Int32RoundTrip | server/map_generator.go:65-73 | an int32-range header value survives `binary.Write` followed by `binary.Read` |
| MapCodec.Encode | server/map_generator.go:65-81 | the saved file has exactly 12 + 4·width·height bytes (0 cells when a dimension is not positive); bytes 0-3, 4-7 and 8-11 are the little-endian int32 of width, height and maxVal |
| MapCodec.CellCountIsProduct | server/map_generator.go:75-76 | the nested loops visit width·height cells, and none when either dimension is not positive |
| MapCodec.EncodeRowsLength | server/map_generator.go:75-81 | equal-length rows encode to 4 bytes per visited cell |
| MapCodec.ReadRow | server/map_generator.go:140-144 | reading a row of w cells succeeds exactly when 4·w bytes remain, and yields w cells |
| MapCodec.ReadRows | server/map_generator.go:137-145 | reading h rows succeeds exactly when enough bytes remain, and yields h rows of w cells |
| MapCodec.Decode | server/map_generator.go:118-153 | a decoded map is well formed and carries the header's fields; the input is rejected as truncated exactly when it is shorter than the header or than header plus cells, and rejected for a negative length exactly when `make` would panic |
| MapCodec.RoundTrip | server/map_generator.go:127-152 | loading the bytes saved for a well-formed map, followed by any bytes at all, gives back the same width, height, maxVal and cells |
| MapCodec.DecodeEncode | server/map_generator.go:127-152 | decoding the encoding of a well-formed map returns that map |
| MapCodec.EncodeDecode | server/map_generator.go:65-81 | saving a loaded map reproduces exactly the bytes the loader consumed |
| MapCodec.HeaderOfEncoding | server/map_generator.go:127-135 | the header of a saved file reads back as the map's width, height and maxVal |
| MapCodec.CellsOfEncoding | server/map_generator.go:75-81 | after the header of a well-formed map's file come the encodings of all its rows |
| MapCodec.ReadRowsEncode | server/map_generator.go:140-144 | the bytes the loader read a grid from are that grid's encoding |
| MapCodec.ReadRowsUnique | server/map_generator.go:140-144 | two inputs that load the same cells agree on every byte the cells came from |
| MapCodec.TrailingBytesIgnored | server/map_generator.go:137-145 | bytes after the last cell never change the outcome of a load that was not truncated |
| MapCodec.PartialWriteRejected | server/map_generator.go:127-145 | every proper prefix of a saved file fails to load as truncated |
| MapCodec.CellLayout | server/map_generator.go:75-81 | cell (y, x) sits at byte offset 12 + 4·(y·width + x) of the file |
| MapCodec.EncodeRowsAt | server/map_generator.go:75-81 | in the cell area, cell (y, x) follows y whole rows and x cells |
| MapGen.NewMapGenerator | server/map_generator.go:27-31 | a new generator has no cached map and no remembered file name |
| MapGen.Intn | server/map_generator.go:40 | `rand.Intn(n)` returns a value in [0, n) |
| MapGen.Generate | server/map_generator.go:33-51 | the map records width, height and maxVal, has `height` rows of `width` cells, every cell is an integer in [0, maxVal], and it is well formed when the fields fit int32 |
| MapGen.GenerateRow | server/map_generator.go:38-42 | a generated row has `width` cells, each an integer in [0, maxVal] |
| MapGen.GeneratedCell | server/map_generator.go:40 | each cell is `float32` of an integer in [0, maxVal] |
| MapGen.SaveToFile | server/map_generator.go:53-84 | the error is nil exactly when no fault occurs; a mkdir failure and a create failure report distinct errors. On success the file holds the encoding. A mkdir or create failure changes nothing. A write failure leaves a proper prefix of the encoding. Other files never change |
| MapGen.LoadMapFromFile | server/map_generator.go:118-153 | a missing file fails to open; an existing file loads exactly when its bytes decode, and then yields the decoded map, which is well formed and whose encoding starts the file; otherwise the error is the decode error |
| MapGen.GenerateAndSave | server/map_generator.go:87-116 | the file system is exactly what SaveToFile leaves, and the error is SaveToFile's error wrapped as a save failure. It fails exactly when the save fails, and then leaves the cache, the file name and the published events untouched. On success the cache is the generated map, the file name is remembered, exactly one `map_generated` event with filename, width, height and maxVal is published, and the file holds the map's encoding |
| MapGen.GetMapData | server/map_generator.go:156-179 | returns the cache when there is one. With no cache and no file name it returns "no map found in memory". Otherwise it returns the load result, caching the map only when the load succeeded |
| MapGen.SavedMapReloads | server/map_generator.go:169-178 | after a successful GenerateAndSave, loading the file (directly or through GetMapData with the cache gone) returns exactly the generated map |
| MapGen.InterruptedSaveDoesNotLoad | server/map_generator.go:92-94 | a save cut short by a write error keeps the generator state, and the file it leaves does not load |
| MapGen.GenerateAndSavePreservesConsistency | server/map_generator.go:96-99 | the cache and the file name are set together, so "no cache implies no file name" is kept by every GenerateAndSave |
| MapGen.GetMapDataNeverLoads | server/map_generator.go:156-167 | from any state reachable within one process, GetMapData returns the cache or "no map found in memory", never reads a file and changes nothing |
| Events.NewEventManager | server/event_mananger.go:25-29 | a new manager has no handlers for any event type |
| Events.Subscribe | server/event_mananger.go:31-36 | the subscribed type's list becomes the old list with the handler appended; every other type keeps its list |
| Events.Invocations | server/event_mananger.go:44-50 | one invocation per list entry: as many as entries, each handler as often as it is listed, all with the dispatched event |
| Events.Dispatch | server/event_mananger.go:38-52 | the invocations are exactly those of the list read at the start: each listed handler runs with the event once per listing, and nothing runs for a type without handlers |
| Events.SubscribeAllAppends | server/event_mananger.go:31-36 | any run of subscriptions appends to each type's list exactly the handlers subscribed to it, in order |
| Events.SubscribedToContains | server/event_mananger.go:35 | a handler subscribed to a type appears among the handlers that type gains |
| Events.LateSubscriberNotInvoked | server/event_mananger.go:38-41 | a handler subscribed after a dispatch copied its list ends up registered but is not invoked by that dispatch |
| Sessions.RandomSpawn | server/utils.go:9-25 | the spawned user has the given id and type and is active |
| Sessions.HandleNewClient | server/server.go:154-169 | exactly one session is added under the key, with the current time and a user whose id is the key. Other sessions are untouched. The confirmation is a `connection_confirm` carrying the key |
| Sessions.Receive | server/server.go:187-196 | after a packet, the table's keys are the old keys plus the sender, and the sender's lastSeen is now. An unseen sender gets a new user and one confirmation. A known sender keeps its user and gets no confirmation. No other session changes |
| Sessions.ReceivePreservesKeyedById | server/server.go:155 | every user's id stays equal to its session key |
| Sessions.RepeatedPacketIdempotent | server/server.go:190-195 | a second packet from the same address adds no session, keeps the user, sends no confirmation and only refreshes lastSeen |
| Sessions.ReceiveAllTable | server/server.go:180-196 | over a run of packets with no reap between them, the table gains exactly the senders' keys, and ids stay equal to keys |
| Sessions.ReceiveAllConfirmsNewSenders | server/server.go:189-192 | over a run of packets with no reap between them, the confirmations are `connection_confirm` messages naming exactly the senders that had no session |
| Sessions.FreshServerRun | server/server.go:25-28 | a server that starts with an empty table holds, after a run of packets with no reap between them, one session per sender keyed by its id, and has confirmed each sender exactly once |
| Sessions.ReceiveAllConfirmsOnce | server/server.go:189-192 | within a run of packets with no reap between them, no address is confirmed twice |
| Sessions.CleanInactiveClients | server/server.go:52-63 | exactly the sessions with now − lastSeen > timeout are removed; a session exactly at the timeout stays; survivors are unchanged |
| Sessions.Project | server/server.go:78-84 | the broadcast entry copies id, type, location, orientation and active flag |
| Sessions.LiveOrder | server/server.go:73-77 | the snapshot loop keeps exactly the visited keys whose session has a non-nil user, and skips the others |
| Sessions.Snapshot | server/server.go:65-87 | the snapshot is a `world_update` with no more entries than sessions. Each entry projects the user of some session, and every session with a user is projected |
| Sessions.LiveOrderDistinct | server/server.go:73 | a map iteration visits no key twice, so neither does the snapshot |
| Sessions.SnapshotListsLiveKeys | server/server.go:73-85 | with ids equal to keys, the snapshot lists exactly the keys of sessions that have a user, each once |
| Sessions.ReapedSessionsLeaveSnapshot | server/server.go:57-61 | after reaping, a session's user is in the next snapshot exactly when the session was not stale |
| ClientState.FromUpdate | client/core/message_handler.go:45-57 | the stored user carries the entry's id, type, location, orientation and active flag, stamped with the arrival time |
| ClientState.LastUpdateFor | client/core/message_handler.go:44-59 | the entry that decides a listed id is the last of the message's entries with that id |
| ClientState.ApplyUpdates | client/core/message_handler.go:44-60 | after the update loop, the users are the old ones plus the listed ids. Each listed id holds its last entry. Unlisted users are kept |
| ClientState.HandleWorldUpdate | client/core/message_handler.go:41-67 | after a `world_update`, the user ids are exactly the ids in the message, each holding its last entry; stale ids are gone and the local id is kept |
| ClientState.HandleConnectionConfirm | client/core/message_handler.go:36-39 | the local user id becomes the message's user id; users are unchanged |
| ClientState.HandleMessage | client/core/message_handler.go:19-34 | an unparsable buffer or an unknown type changes nothing; a confirmation sets the local id; a world update replaces the users by exactly the listed ones |
| ClientState.ReceiveStep | client/core/client.go:93-130 | the receive goroutine's two `if`s behave exactly as the message handler's switch |
| ClientState.GetLocalUser | client/core/client.go:35-41 | nil while no id is assigned; otherwise the user stored under the local id, or nil if there is none |
| ClientState.WorldUpdateStoresEachEntry | client/core/message_handler.go:44-59 | with distinct ids, every entry of a `world_update` is stored as sent |
| ClientState.EmptyWorldUpdateClearsUsers | client/core/message_handler.go:62-67 | a `world_update` listing nobody empties the users |
| Wire.ConfirmAssignsKey | server/server.go:105-109 | a client that reads the confirmation of its first packet adopts its address key as local id and keeps its users |
| Wire.ParsedIds | server/types.go:15-26 | the ids the client reads from a broadcast are the ids the server listed |
| Wire.ParsedEntry | server/types.go:20-26 | each entry the client keeps for an id carries the fields of the server's user under that key |
| Wire.BroadcastReconciles | client/core/message_handler.go:41-67 | after a broadcast, the client holds exactly the users of the server's sessions that have one, under their keys, with the server's fields |
| Wire.LocalUserAfterBroadcast | client/core/client.go:35-41 | a client whose id names a session with a user finds that user after a broadcast |
| Wire.NewClientFindsItself | server/server.go:154-169 | a new client that is confirmed and then sent a snapshot finds, as its local user, the user the server spawned for its address |
| Sessions.ReapedSenderConfirmedAgain | server/server.go:57-61 | a packet from a sender whose session the reaper removed creates a fresh session and is confirmed again; a sender whose session survived is not confirmed |
| Wire.ReapedUserLeavesClient | server/server.go:52-63 | after reaping and a broadcast, a client holds a user exactly when that user's session was not stale |

## Left out

- MapGen.Generate, MapGen.GenerateRow, MapGen.GeneratedCell, MapGen.GenerateAndSave: all four require 0 <= maxVal < 2^24 whenever a cell is drawn, and Generate and GenerateAndSave also require lengths that `make` accepts. Outside those bounds Go panics (negative `make` length, `rand.Intn` of a non-positive bound), and the model does not describe the panic. Below 2^24 every draw converts to float32 exactly; above it `float32(rand.Intn(maxVal + 1))` rounds, which the model does not compute.
- Float32 arithmetic in general. Cells are kept as opaque 32-bit patterns. Locations and orientations are opaque values.
- `randomSpawn` (server/utils.go) draws random floats; it is modelled as an arbitrary `Spawn`. `NewUser` is not part of this model; it is assumed to set the given id and type and to mark the user active.
- UDP sockets: `NewServer`, `ReadFromUDP`, `WriteToUDP`, `NewUDPClient`, the send loops and the read-timeout handling. These are I/O only.
- The recipient loop of `broadcastWorldState` (server/server.go:95-102). It re-reads the table under a second lock, so the recipients may differ from the snapshot's sessions. The model makes no claim about who receives the snapshot.
- JSON encoding and decoding. A buffer either parses to a `ServerMessage` or fails. The server's structs map to the client's field by field, because their JSON tags agree.
- `json.Marshal` fails on a NaN or infinite float, and `broadcastWorldState` then returns without sending (server/server.go:89-93). The model's `Spawn` locations and orientations are unconstrained bit patterns, so the Wire lemmas carry over to Go only because `randomSpawn` yields finite values; that marshalling failure is not modelled.
- Goroutines, tickers, `RWMutex` and `WaitGroup`. Each lock-protected operation is one atomic step. The dispatch fan-out is the multiset of invocations, with no order among them.
- `DispatchAsync` runs `Dispatch` in a new goroutine. Its effect is that of `Events.Dispatch`, and it has no member of its own.
- `listClients` and `displayUserCount` only print.
- `time.Now` and `time.Sub` are an integer clock. The saturation of `time.Duration` arithmetic is not modelled.
- Each client entry gets its own `time.Now()` as LastUpdate. The model stamps a whole message with one time.
- The display color `GetColorForUserType` is not modelled. `WorldState` (world.go) is not part of this model. `UpdateUser` is assumed to insert or replace by the user's id, and `GetUser` (client/core/client.go:40) is assumed to be a plain lookup by id.
- Directory and file creation in `SaveToFile` are reduced to the `IoFault` outcome. File permissions and `Close` errors are not modelled.
- Wire.NewClientFindsItself: requires a non-empty address key. `addr.String()` is never empty, and `GetLocalUser` treats an empty id as "not connected yet".
- Rendering, camera and mobile GL code on the client are outside the core.

## Notes on the code

- The loader reads the header and exactly width·height cells and never looks further. A file with extra bytes at the end still loads (`MapCodec.TrailingBytesIgnored`). The model follows the code here, not a stricter reading of the format that would treat any extra byte as an error.
- A header with a negative height, or with a negative width and a positive height, makes Go's `make` panic. The model reports this as `NegativeLength`. A negative width with height 0 loads as an empty map.
- `SaveToFile` writes `int32(width)` and `int32(height)`. A dimension outside int32 range therefore does not survive the round trip, and `MapCodec.RoundTrip` requires int32-range fields.
- Above 2^24 the bound the generator promises does not hold. Reading Go's conversion rules (round to nearest, ties to even), `float32(rand.Intn(maxVal + 1))` can exceed maxVal: with maxVal = 2^24 + 3 and a draw of 16777219, the conversion gives 16777220. This was derived from the rules, not executed. The model therefore bounds maxVal below 2^24, where every draw converts exactly.
