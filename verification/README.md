# Synchronised audio broadcast core, in Dafny

This project models the broadcast core of the tracks API's HTTP/3 server
(`src/http3/index.ts`). The server registers WebTransport sessions and their
bidirectional streams in `activeSessions`. Every interval tick it reads the
next 64 KiB chunk of an audio file, frames it with a timestamp, and writes the
same packet to every stream. Streams whose write fails are pruned, and so are
sessions it sees as closed.

Modules, one per part of that file:

- `Base` (`base.dfy`): bytes, `Option` and `Result`.
- `Packet` (`packet.dfy`): `createSyncPacket` as a pure function, with a
  receiver-side `Decode` as its inverse. A packet is an 8-byte big-endian
  timestamp, then a 4-byte big-endian payload length, then the payload.
- `Cursor` (`cursor.dfy`): the tick's file read and its `position` update, as
  pure functions over the file's bytes. Also `Pass`, the chunks read by
  successive ticks up to the next wrap.
- `SessionRegistry` (`registry.dfy`): each change to `activeSessions` as a
  function on `map<Session, set<Stream>>`, including the net effect of
  `broadcastChunk` (`FanOut`).
- `Broadcast` (`broadcast.dfy`): class `Server`. Its fields are the module
  globals `activeSessions`, `isServerRunning`, `broadcastInterval` and
  `fileHandle`, plus the tick's `position`. Each accept-loop callback, the
  tick, `broadcastChunk` and `stopBroadcast` is a method that changes those
  fields, and each method's `ensures` ties the new state to the functions above.

Inputs from the outside world are parameters:

- whether the file read throws;
- the `Date.now()` reading;
- the set of sessions whose `closed` check is truthy when the fan-out reaches them;
- the set of streams whose write fails.

Session and stream handles are `nat`s compared by identity. The writes of one
fan-out are recorded in a ghost log of `Write(session, stream, packet, ok)`.

The model follows the code, including where its behaviour is surprising:

- Accepting a session already in the map replaces its stream set with an empty
  one (`Map.set`). It is not a no-op.
- The fan-out walks the live map, not a snapshot. Each callback here is one
  atomic step, so this makes no difference in the model.
- The ticker is never started. The only call to `startAudioBroadcast` sits
  behind `activeSessions.size !== 0`, which is checked once, before the first
  session is accepted (`Startup`). The tick is still modelled as a callable
  method.
- `createSyncPacket` throws a `RangeError` when the timestamp is outside
  [0, 2^64) or the payload is 2^32 bytes or longer. It is called inside each
  stream's `try`, so such a throw counts as a failed write for every stream
  of every open session. All those streams are then removed.
  (`FailedStreams` with `packetOk == false`.)
- For real sessions `session.closed` is a promise, so it is always truthy. The
  model keeps it as an oracle set and does not fix it to "all sessions"; see
  "## Findings" for what the code does as written.

## Model

| member | source | states |
|---|---|---|
| `Packet.ToBigEndian` | src/http3/index.ts:224-228 | a value below 256^width becomes exactly `width` bytes, and reading them back big-endian yields the value |
| `Packet.ToBigEndianOfValue` | src/http3/index.ts:224-228 | every byte string is the big-endian encoding of the value it denotes (the other direction of the round trip) |
| `Packet.CreateSyncPacket` | src/http3/index.ts:222-231 | framing succeeds exactly when 0 <= timestamp < 2^64 and the chunk is shorter than 2^32; otherwise it gives RangeError; a packet is 12 bytes longer than its chunk |
| `Packet.Decode` | src/http3/index.ts:222-231 | the receiver accepts exactly the inputs of at least 12 bytes whose length field equals the number of bytes after the header, and rejects all others as MalformedPacket |
| `Packet.PacketLayout` | src/http3/index.ts:222-231 | bytes 0..8 are the timestamp big-endian, bytes 8..12 the chunk length big-endian, bytes 12.. the chunk |
| `Packet.DecodeCreateSyncPacket` | src/http3/index.ts:222-231 | decoding a framed packet yields the timestamp and chunk that were framed |
| `Packet.CreateSyncPacketOfDecoded` | src/http3/index.ts:222-231 | every packet the decoder accepts is exactly the framer's output for what it decodes to |
| `Packet.CreateSyncPacketInjective` | src/http3/index.ts:222-231 | distinct (chunk, timestamp) pairs never produce the same packet |
| `Packet.ScenarioPacket` | src/http3/index.ts:222-231 | payload "ABCD" at timestamp 1000 frames to 00 00 00 00 00 00 03 E8, 00 00 00 04, 41 42 43 44 |
| `Cursor.Read` | src/http3/index.ts:153-154 | a read at `position` returns at most CHUNK_SIZE bytes, equal to the file's bytes at `position`; it is empty exactly at or past end of file; it is short only when it reaches the end |
| `Cursor.Next` | src/http3/index.ts:156-163 | after a successful read the offset never passes the end of the file |
| `Cursor.Pass` | src/http3/index.ts:153-163 | the non-empty chunks that successive ticks read from an offset up to the next wrap; there are none exactly when the offset is at or past the end of the file |
| `Cursor.PassConcat` | src/http3/index.ts:153-163 | the chunks successive ticks read from an offset until the wrap concatenate to the rest of the file; from 0, to the whole file |
| `Cursor.PassCount` | src/http3/index.ts:153-163 | a pass over L remaining bytes takes ceil(L / CHUNK_SIZE) non-empty reads |
| `Cursor.PassChunkSizes` | src/http3/index.ts:153-163 | every chunk of a pass is non-empty and at most CHUNK_SIZE, and every chunk but the last is exactly CHUNK_SIZE |
| `Cursor.PassLastChunk` | src/http3/index.ts:153-163 | the last chunk of a pass is L mod CHUNK_SIZE long, or CHUNK_SIZE when that is 0 |
| `Cursor.ScenarioWrap` | src/http3/index.ts:7 | a 100000-byte file reads as 65536 bytes (offset 0 to 65536), then 34464 (to 100000), then nothing, with the offset reset to 0 |
| `SessionRegistry.Accept` | src/http3/index.ts:85 | the registry after `activeSessions.set(session, new Set())`: the session is registered, with an empty stream set |
| `SessionRegistry.Drop` | src/http3/index.ts:87-93 | the registry after `activeSessions.delete(session)`: the session's key is gone and every other session keeps its streams |
| `SessionRegistry.AddStream` | src/http3/index.ts:103-107 | the registry after a stream is created: the same sessions, and the stream is in its session's set when that session is registered |
| `SessionRegistry.RemoveStream` | src/http3/index.ts:109-127 | the registry after a reader or writer closes with an error: the same sessions, and the stream is no longer in its session's set |
| `SessionRegistry.FanOut` | src/http3/index.ts:176-219 | the registry after `broadcastChunk`: the old sessions minus those observed closed, each open session keeping a subset of its streams |
| `SessionRegistry.AcceptResets` | src/http3/index.ts:85-86 | an accepted session is registered with an empty set; streams it held before are dropped; no other session changes |
| `SessionRegistry.DropCascades` | src/http3/index.ts:88-94 | a closed session disappears together with all of its streams; other sessions are untouched |
| `SessionRegistry.DropIdempotent` | src/http3/index.ts:133-136 | removing a session twice equals removing it once, and removing an absent session changes nothing |
| `SessionRegistry.AddStreamGuarded` | src/http3/index.ts:103-107 | a created stream is added exactly when its session is still registered; otherwise the registry is unchanged |
| `SessionRegistry.RemoveStreamOnly` | src/http3/index.ts:109-127 | a reader or writer that closes with an error removes exactly that (session, stream) pair, keeps the session even with no streams left, and is idempotent |
| `SessionRegistry.FanOutEffect` | src/http3/index.ts:176-219 | after a fan-out the sessions are the old ones minus those observed closed (none added, none removed for a failed write); the streams left are exactly those of open sessions whose write succeeded |
| `SessionRegistry.ScenarioOneStreamFails` | src/http3/index.ts:190-208 | three sessions with one stream each; session 2's write fails; sessions 1 and 3 keep their streams and session 2 stays registered with none |
| `SessionRegistry.FanOutAllClosed` | src/http3/index.ts:183-186 | as written (`session.closed` always truthy), a fan-out targets no stream and leaves the registry empty |
| `SessionRegistry.FanOutAllWritesFail` | src/http3/index.ts:193-201 | as written (every write fails), a fan-out keeps the open sessions but leaves them no stream |
| `Broadcast.Server.constructor` | src/http3/index.ts:16-19 | initial module state: no sessions, not running, no timer, no file handle |
| `Broadcast.Server.Open` | src/http3/index.ts:33-38 | after startup the server is running with the audio file open; nothing else changes |
| `Broadcast.Server.StartAudioBroadcast` | src/http3/index.ts:144-149 | a fresh read offset of 0 and the new interval handle |
| `Broadcast.Server.StartIfSessions` | src/http3/index.ts:68-72 | the broadcast starts exactly when some session is registered, and otherwise nothing changes |
| `Broadcast.Startup` | src/http3/index.ts:21-72 | the startup sequence leaves the server running with the file open, no sessions and no interval timer: the ticker is never started |
| `Broadcast.Server.AcceptSession` | src/http3/index.ts:85-86 | the registry becomes `Accept` of the old one; the other fields are unchanged |
| `Broadcast.Server.DropSession` | src/http3/index.ts:88-94 | the registry becomes `Drop` of the old one (used for close, close with error, and ready failure) |
| `Broadcast.Server.StreamCreated` | src/http3/index.ts:100-107 | the registry becomes `AddStream` of the old one |
| `Broadcast.Server.StreamClosed` | src/http3/index.ts:109-127 | the registry becomes `RemoveStream` of the old one |
| `Broadcast.WriteStreams` | src/http3/index.ts:188-203 | for one open session, every stream is written once with the same packet; the streams marked for removal are exactly those whose write failed, or all of them when the packet cannot be framed |
| `Broadcast.Server.RemoveStreams` | src/http3/index.ts:205-208 | the marked streams are deleted from that session's live set and nothing else changes |
| `Broadcast.Server.ServeSession` | src/http3/index.ts:188-208 | one open session receives the same packet once on each of its streams, and afterwards keeps exactly the streams whose write did not fail; the other sessions are untouched |
| `Broadcast.Server.WalkSessions` | src/http3/index.ts:180-214 | the walk keeps every session key, marks exactly the sessions observed closed, leaves their streams alone, prunes the failed streams of every other session, and delivers the packet to all of their streams |
| `Broadcast.Server.RemoveSessions` | src/http3/index.ts:216-219 | the marked sessions are deleted from the live map; all other entries keep their stream sets |
| `Broadcast.Server.BroadcastChunk` | src/http3/index.ts:176-220 | the registry becomes `FanOut` of the old one; the log writes one identical packet (one timestamp, same chunk) exactly once to every stream of every session not observed closed, and nothing to closed sessions |
| `Broadcast.Server.Tick` | src/http3/index.ts:149-173 | not running or no file handle: nothing changes; read error: offset and registry unchanged; empty read: offset 0 and nothing broadcast; otherwise the offset grows by exactly the bytes read and the chunk is fanned out; the offset never passes the end of the file |
| `Broadcast.Server.StopBroadcast` | src/http3/index.ts:233-240 | afterwards the server is not running and has no timer; the registry, offset and file handle are unchanged |
| `Broadcast.StopTwice` | src/http3/index.ts:233-240 | stopping twice leaves the state that one stop promises (stop is idempotent) |

## Left out

- Server and process plumbing is not modelled: `Http3Server` construction, the certificate and key reads, `open` of the audio file, the session reader, and the SIGINT/SIGTERM handler with `process.exit` (src/http3/index.ts:21-66, 74-83). These are I/O and foreign library calls. `Open` and `Startup` keep only their effect on the server's state.
- Promise scheduling is not modelled. Each accept-loop callback and each whole `broadcastChunk` run is one atomic step. So the model cannot show callbacks that run during the `await writer.write`, such as a session deleted or re-accepted while the fan-out is walking the live map.
- Iteration order of `Map` and `Set` is not modelled. The loops pick any pending element, so the write log's order is arbitrary; only what is written, and to which streams, is specified.
- Stream writers (`getWriter`, `releaseLock`, lock state) are not modelled. Whether a write succeeds is an oracle input. As written, the writer taken at src/http3/index.ts:119 is never released, so the `getWriter` at line 195 throws and every write fails (see "## Findings").
- The session-level `catch` at src/http3/index.ts:210-213 is not modelled. It is reached when a write rejects with a nullish reason: the per-stream handler at line 200 then throws while reading `streamErr.message`. In the source that session's remaining streams are not written, its failed streams are not pruned, and the whole session is deleted at lines 217-219. The model treats such a write like any other failed write: `FanOut`, `WalkSessions` and `BroadcastChunk` keep the session, prune only the failed streams, and write to all of its other streams.
- Timing is not modelled: `setInterval` spacing (`INTERVAL_MS`), overlapping ticks, `Date.now()` (a parameter here) and console logging.
- `Broadcast.Server.StartAudioBroadcast`: only the newest interval handle is kept. A second call would leave the first timer running in the source, and the model does not track it.
- `Cursor.Read`: the read returns min(CHUNK_SIZE, bytes left). This is what a positional read of a regular file does; short reads in the middle of the file are not modelled. The file's contents do not change while the server runs.
- `src/connect.ts` and `esbuild.config.js` are not part of this model. They hold request handlers that forward to a database layer, and build configuration.

## Findings

| source | as written | input that shows it | evidently intended | confidence | as-written member | corrected member |
|---|---|---|---|---|---|---|
| src/http3/index.ts:183-186 | `if (session.closed)` tests the session's `closed` promise, which is always truthy, so every session is deleted at the first fan-out and nothing is written | any registry with a session, e.g. session 1 with stream 11 | skip and delete only the sessions that have actually closed | not executed; medium (assumes the WebTransport session exposes `closed` as a promise) | `SessionRegistry.FanOutAllClosed` | `SessionRegistry.FanOutEffect` |
| src/http3/index.ts:193-201 | `getWriter()` is called on a stream whose writer from line 119 is never released; it throws on the locked stream, so every write fails and every stream is pruned | any registered stream of an open session | write through the writer taken at registration, or release that writer first | not executed; medium | `SessionRegistry.FanOutAllWritesFail` | `SessionRegistry.FanOutEffect` |
