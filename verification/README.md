# loglib client, modelled in Dafny

`loglib` is a client for a local logging daemon. A process uses it to
register named log sources (`NEW_LOGGER` requests) and to send levelled
log messages (`LOG_MESSAGE` requests) over a Unix-domain socket at
`/tmp/log_sock`. It keeps working when the daemon is absent: frames produced
while disconnected go into a backlog of at most 1024 entries.

This project models the whole client class:

- `wire.dfy`, module `Wire`: the byte layout of both requests as pure
  functions over byte sequences. It also holds the decoder a daemon would
  use to split a byte stream into frames by their embedded lengths. Proved:
  exact sizes, field placement, and the round trip of each frame. Also proved:
  a stream of frames sent back to back decodes frame by frame.
- `frames.dfy`, module `Frames`: the frames as the source builds them. The
  source allocates a zeroed byte vector and fills it with `memcpy` at a
  running offset. Each builder is proved to yield exactly the `Wire` frame.
- `transport.dfy`, module `Transport`: the delivery state machine of
  `sendMessage` and the loop of `flushBuffer`, as functions on a `Link`
  value. A `Link` is the `ready` flag, the backlog, and the frames the daemon
  has received. The lemmas cover the capacity, the FIFO order, a failed write
  dropping its frame, and the flush loop.
- `client.dfy`, module `Client`: class `LogLib`, with the source's fields
  (`ready`, `buffer`, `defaultName`, `minLogLevel`, `loggerList`). It also has
  the `STRICT_REGISTRATION` build switch as the constant flag
  `strictRegistration`. Each public operation and each of `trySetupConnection`,
  `sendMessage` and `flushBuffer` is a method. Each method has a `modifies`
  clause naming the fields it may change, and a postcondition giving the new
  value of those fields. The sending operations state that new value through
  `Transport` and `Wire`. `fileExists` is not a method: it is the
  `endpointExists` answer of `Transport.Outcomes`. The `logger()` accessor is
  left out (see below).
- `scenarios.dfy`, module `Scenarios`: client code that draws consequences
  from those contracts alone. It covers strict registration while the daemon
  is offline, level filtering, an empty default name, and a name longer than
  the default name.

The socket and the filesystem are not modelled. Each operation that may
touch them takes an `Outcomes` value instead. It says whether the endpoint
exists, whether `socket` succeeds, whether `connect` succeeds and whether
`send` succeeds. The frames the daemon received are kept in the ghost field
`wire`, so "no I/O" is stated as `wire` being unchanged.

Encoding conventions: bytes are `uint8`, and each 32-bit field is written
little-endian. Levels are sent as their ordinal (DEBUG = 0 to FATAL = 4).
`NEW_LOGGER` is 0 and `LOG_MESSAGE` is 1. The real values are defined in
`log/enums.h`, which is not part of this model. The proofs only use the fact
that the codes are distinct.

### Behaviour of the code worth knowing

- **Name length in `LOG_MESSAGE`.** `sendLog` takes the name length from
  the default name (src/loglib.cpp:72). It copies that many bytes out of the
  `name` argument (src/loglib.cpp:82). `Wire.EncodeLogMessage` therefore
  takes the default name's length as a separate argument.
  `Wire.LogMessageNameIntact` proves that the daemon gets the caller's name
  with its terminator exactly when `|name| == |defaultName|`. A longer name
  arrives as its first `|defaultName| + 1` bytes, with no terminator. So a
  name exactly one byte longer keeps all its characters and loses only its
  NUL, and a name two or more bytes longer also loses characters
  (`Scenarios.LongerNameIsCut`). A
  shorter name makes `memcpy` read past the string, which is undefined
  behaviour, so it is a precondition (`Wire.LogMessageFits`).
- **Sending never flushes.** `sendMessage` does not touch the backlog once
  connected. `flushBuffer` is private (include/loglib.h:68) and no
  member calls it. `Transport.Deliver` keeps the
  old backlog as a prefix of the new one.
- **A failed write discards its frame.** When `send` fails, `ready` is
  cleared and the frame is dropped (src/loglib.cpp:48-51; `Transport.Deliver`).
  Inside `flushBuffer`'s loop the front entry is lost in that case, because
  `pop` follows anyway (`Transport.FlushStep`).
- **The flush loop does not terminate while offline.** If the daemon is
  unreachable, each turn of `flushBuffer`'s loop calls `sendMessage` on the
  front frame. Below 1024 entries, `sendMessage` appends a copy of it at the
  back, and `pop` then removes the front, so the backlog rotates. At exactly
  1024 entries the append is skipped (src/loglib.cpp:54), so `pop` loses the
  front frame. The remaining 1023 entries then rotate. Either way the backlog
  never empties (`Transport.FlushCannotDrainOffline`).

## Model

| member | source | states |
|---|---|---|
| `Wire.WordRoundTrip` | src/loglib.cpp:80-81 | a 32-bit field written as four bytes reads back as the same value |
| `Wire.EncodeNewLogger` | src/loglib.cpp:142-154 | a NEW_LOGGER frame has exactly 12 + len(name) + 1 bytes |
| `Wire.NewLoggerLayout` | src/loglib.cpp:145-154 | field placement: type word at 0, name length len(name)+1 at 4, the name and its NUL at 8, logger type in the last four bytes |
| `Wire.NewLoggerRoundTrip` | src/loglib.cpp:142-154 | decoding a NEW_LOGGER frame followed by any bytes recovers the name with its NUL and the logger type, and consumes exactly the frame |
| `Wire.EncodeLogMessage` | src/loglib.cpp:72-88 | a LOG_MESSAGE frame has exactly 16 + nameLength + msgLength bytes, nameLength being the default name's length + 1 |
| `Wire.LogMessageLayout` | src/loglib.cpp:76-88 | field placement: type, nameLength, nameLength bytes of the name, msgLength = len(msg)+1, the message with its NUL, the level |
| `Wire.LogMessageRoundTrip` | src/loglib.cpp:72-88 | decoding a LOG_MESSAGE frame followed by any bytes recovers message and level exactly, and the first nameLength bytes of the name, and consumes exactly the frame |
| `Wire.LogMessageNameIntact` | src/loglib.cpp:72-82 | the decoded name equals the caller's name with its NUL if and only if the name is as long as the default name; a longer name arrives as its first len(defaultName)+1 bytes, without terminator |
| `Wire.DecodeFrame` | src/loglib.cpp:74-88 | a decoded frame is at least 12 bytes long and never extends past the input |
| `Wire.NewLoggerParses` | src/loglib.cpp:142-154 | a NEW_LOGGER frame parses on its own, whatever follows it |
| `Wire.LogMessageParses` | src/loglib.cpp:72-88 | a LOG_MESSAGE frame parses on its own, whatever follows it |
| `Wire.StreamRoundTrip` | src/loglib.cpp:39-56 | frames written back to back are recovered one by one, in order, from their embedded lengths alone |
| `Frames.MemCopy` | src/loglib.cpp:82 | memcpy places the first n source bytes at the offset; the bytes before the offset and after the copied range keep their values |
| `Frames.Put` | src/loglib.cpp:82-83 | copying a field whose bytes are those the frame holds at the running offset extends the part of the buffer that agrees with the frame by that field |
| `Frames.BuildNewLogger` | src/loglib.cpp:142-154 | filling the zeroed vector field by field at a running offset yields exactly the NEW_LOGGER frame |
| `Frames.BuildLogMessage` | src/loglib.cpp:72-88 | filling the zeroed vector field by field at a running offset yields exactly the LOG_MESSAGE frame |
| `Transport.Deliver` | src/loglib.cpp:39-56 | sendMessage: queued frames are never removed or reordered; the new frame goes at most once to the daemon or to the back of the backlog; the backlog only grows when still disconnected and below 1024 entries, so it never exceeds 1024; a failed write clears ready and discards the frame |
| `Transport.BacklogFillsInOrder` | src/loglib.cpp:41-55 | while the daemon is unreachable, successive frames are appended in call order up to 1024 entries; later ones are dropped and earlier ones kept |
| `Transport.FlushStep` | src/loglib.cpp:107-110 | one loop turn never grows the backlog; a failed write loses the front frame; while disconnected and below 1024 entries the front frame is moved to the back, and with 1024 entries it is lost |
| `Transport.FlushLoop` | src/loglib.cpp:107-110 | the loop never grows the backlog and keeps it within 1024 entries |
| `Transport.Flush` | src/loglib.cpp:103-111 | flushBuffer changes nothing when not ready or when the backlog is empty |
| `Transport.FlushDeliversInOrder` | src/loglib.cpp:107-110 | when every write succeeds, the loop sends the whole backlog to the daemon in FIFO order and empties it |
| `Transport.FlushCannotDrainOffline` | src/loglib.cpp:107-110 | when disconnected and the daemon stays unreachable, the backlog never empties and nothing is sent |
| `Client.LogLib.constructor` | src/loglib.cpp:8-15 | a new client has an empty backlog, default level INFO, an empty default name, no registered names, and is ready exactly when the first connection attempt succeeds |
| `Client.LogLib.TrySetupConnection` | src/loglib.cpp:17-37 | ready becomes true only when the endpoint exists and socket and connect succeed; otherwise it is unchanged |
| `Client.LogLib.SendMessage` | src/loglib.cpp:39-56 | the state changes exactly as Transport.Deliver says, and the backlog stays within 1024 entries |
| `Client.LogLib.SendLog` | src/loglib.cpp:58-90 | an empty name, or in strict mode an unregistered name, changes nothing; otherwise the LOG_MESSAGE frame is delivered through sendMessage |
| `Client.LogLib.SendLogDefault` | src/loglib.cpp:92-95 | sendLog with the default name |
| `Client.LogLib.FlushBuffer` | src/loglib.cpp:103-111 | the state changes exactly as Transport.Flush says |
| `Client.LogLib.SetDefaultName` | src/loglib.cpp:113-116 | only the default name changes, and it becomes the argument |
| `Client.LogLib.SetName` | src/loglib.cpp:118-123 | same effect as setDefaultName |
| `Client.LogLib.SetMinLogLevel` | src/loglib.cpp:125-128 | only the minimum level changes, and it becomes the argument |
| `Client.LogLib.RegisterLogger` | src/loglib.cpp:135-161 | an empty name changes nothing; otherwise the NEW_LOGGER frame goes through sendMessage and, in strict mode, the name is added to loggerList whatever became of the frame |
| `Client.LogLib.RegisterLoggerDefault` | src/loglib.cpp:130-133 | registerLogger with the default name |
| `Client.LogLib.DebugNamed` | src/loglib.cpp:196-201 | nothing happens when minLogLevel is above DEBUG; otherwise sendLog at DEBUG |
| `Client.LogLib.InfoNamed` | src/loglib.cpp:189-194 | nothing happens when minLogLevel is above INFO; otherwise sendLog at INFO |
| `Client.LogLib.WarningNamed` | src/loglib.cpp:203-208 | nothing happens when minLogLevel is above WARNING; otherwise sendLog at WARNING |
| `Client.LogLib.ErrorNamed` | src/loglib.cpp:210-215 | nothing happens when minLogLevel is above ERROR; otherwise sendLog at ERROR |
| `Client.LogLib.FatalNamed` | src/loglib.cpp:217-220 | always sendLog at FATAL, whatever minLogLevel is |
| `Client.LogLib.Debug` | src/loglib.cpp:168-171 | debug with the default name |
| `Client.LogLib.Info` | src/loglib.cpp:163-166 | info with the default name |
| `Client.LogLib.Warning` | src/loglib.cpp:173-176 | warning with the default name |
| `Client.LogLib.Error` | src/loglib.cpp:178-181 | error with the default name |
| `Client.LogLib.Fatal` | src/loglib.cpp:183-186 | fatal with the default name, never filtered |
| `Client.LogLib.LogNamed` | include/loglib.h:28-32 | LOG_X_N(name, msg) behaves as X(msg, name): filtered below the minimum level except for FATAL, otherwise sendLog at that level |

## Left out

- The socket, `connect`, `send` and the filesystem check of the endpoint are
  oracle answers (`Transport.Outcomes`), not system calls. A partial write
  counts as a successful one.
- `Transport.Deliver`: a failed `send` is modelled as harmless: `ready` is
  cleared and the frame is dropped. The call at src/loglib.cpp:47 passes no
  `MSG_NOSIGNAL` flag. A write to a stream socket whose daemon end has closed
  therefore raises `SIGPIPE`, which by default ends the host process. The
  model assumes the host ignores `SIGPIPE`, so that the branch at
  src/loglib.cpp:48-51 is reached.
- The `sockaddr_un` construction is left out. That includes its use before
  it is initialised: the constructor calls `trySetupConnection` first.
- All diagnostics written to standard output and standard error are left out.
- The `logger()` singleton accessor and the deleted copy operations are left
  out. Dafny references have no static local initialisation. Thread safety is
  left out too: the source has no locks.
- The `_F` and `_NF` macros are left out, because they call `std::format`.
  The plain `LOG_X(msg)` macros are the default-name methods (`Info`, ...).
- Native endianness, `sizeof(int)` and `sizeof` of the enumerations are
  fixed to little-endian 4-byte words. The numeric enumeration values are
  replaced by ordinals.
- Lengths that overflow the source's `int` variables are out of scope. In
  C++20 such a conversion wraps modulo 2^32. In `sendLog` the vector would
  then be sized differently from what the `memcpy` calls write, or a
  negative size would throw `std::length_error` (src/loglib.cpp:72-75).
  `Wire.LogMessageFits` therefore requires `nameLength`, `msgLength` and
  `messageSize` to stay at most `INT_MAX`. In `registerLogger` only
  `nameLength` is an `int`, and the frame size is a `size_t`
  (src/loglib.cpp:142-146). So `Wire.NewLoggerFits` requires only
  `len(name) + 1 <= INT_MAX`.
- `Transport.FlushLoop`: the source loop runs until the backlog is empty.
  The model takes one oracle answer per turn and stops when the answers run
  out. It therefore does not capture a loop that never terminates, except
  through `Transport.FlushCannotDrainOffline`.
