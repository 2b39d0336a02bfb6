# dobot-api-rs, modelled in Dafny

A model of the protocol and dispatch core of `dobot-api-rs`, a host-side
driver for the Dobot robotic arm over a serial link, with the properties
its code promises proved about the model.

- **Command ids** (`protocol_id.dfy`, module `ProtocolIds`): the
  `ProtocolID` enumeration as a group of commands and an offset within
  that group's block of ten. Each group has a base number (0, 10, …,
  220, 240). The module has the numeric value of every command, the
  table read back from numbers, and the facts the firmware depends on.
- **Messages** (`message.dfy`, module `Messages`): `Message` with its
  fixed 167-byte parameter buffer, `Message::new` and the "left space"
  probe message.
- **Packets** (`packet.dfy`, module `Packets`): `Packet::from_message`,
  `to_message`, the additive checksum, `to_bytes` into a truncating
  `&mut [u8]` writer, and `from_bytes` / `from_bytes_impl` with nom's
  `complete::take`. u8 wrap-around is written out (`wire.dfy`, module
  `Wire`).
- **Dispatcher** (`communicator.dfy`, module `Communication`): the FIFO of
  pending requests, `insert_message` with its `BufferFull` back-pressure,
  `run` with its left-space probe and up to four attempts per exchange,
  `send_and_wait_command_ack` and `check_retry`. The serial transport is
  an oracle: `replies[i]` is the packet read after the i-th write, and
  `None` stands for silence until the timeout. Every written packet is
  recorded. A one-shot channel is a handle number, and sending on it is
  a `Resolution`.
- **API** (`api_types.dfy` and `api.dfy`, modules `ApiTypes` and `Api`):
  - the suction-cap and handheld-teaching trigger-mode encoders;
  - the messages `set_ptp_cmd` and `set_queued_cmd_start_exec` submit,
    and how each maps the dispatcher's status to a result;
  - the `search_dobot` product-name filter and the `connect_dobot` port
    and baud-rate selection, over a port list given as a parameter.

Where the code differs from what one might expect, the model follows
the code:
- The sync bytes are never checked on decode.
- Input that stops before the end of a frame is a parse failure, not a
  request for more bytes.
- `to_bytes` into a buffer that is too small writes a truncated frame
  and reports its length. It does not fail.
- `insert_message` refuses only when the queue already holds more than
  128 entries, so the queue can hold 129.
- The queue index `set_ptp_cmd` returns for a queued command is the first
  reply byte alone.
- `connect_dobot` runs the port search even when it is given a port
  name, and fails with `PortNotFound` when the search finds nothing (see
  Findings).

u8 arithmetic follows release-build semantics: `payload_len - 2` wraps
instead of panicking, so a length byte of 0 or 1 declares 254 or 255
parameter bytes. Operations that would index out of bounds in the source
take that as a precondition: `Packets.Encodable` for `from_message` and
`Packets.Serialisable` for `to_bytes`.

## Model

| member | source | states |
|---|---|---|
| `Wire.WrappingSumFrom` | src/protocol/packet.rs:73-79 | the u8 `wrapping_add` loop leaves the running sum plus the bytes' sum, modulo 256 |
| `ProtocolIds.Value` | src/protocol/protocol_id.rs:25-164 | every command's id lies in its group's block `[base, base + 10)` and is at most 247, so it fits in a byte |
| `ProtocolIds.GroupAt` | src/protocol/protocol_id.rs:1-23 | a block start found in the base table is that group's base |
| `ProtocolIds.FromValue` | src/protocol/protocol_id.rs:25-164 | reading a byte back through the table yields only a command with that id |
| `ProtocolIds.ValueRoundTrip` | src/protocol/protocol_id.rs:25-164 | every command is recovered from its id |
| `ProtocolIds.BlockBase` | src/protocol/protocol_id.rs:1-23 | every group base is a multiple of ten and locates its group |
| `ProtocolIds.ValueInjective` | src/protocol/protocol_id.rs:25-164 | no two commands share an id |
| `ProtocolIds.UnassignedBlockStarts` | src/protocol/protocol_id.rs:142-146 | the check-model and pulse-mode blocks start at offset 1, so 180 and 190 are never ids |
| `ProtocolIds.QueuedCmdBlock` | src/protocol/protocol_id.rs:155-163 | StartExec is 240, CurrentIndex 246, LeftSpace 247, and the queued-command group stays within 240..247 |
| `ProtocolIds.SampleValues` | src/protocol/protocol_id.rs:35-76 | PTPCmd is the PTP base plus 4 = 84; GetPose 10, HHTTrigMode 40, EndEffectorSuctionCup 62 |
| `ProtocolIds.MaximumValue` | src/protocol/protocol_id.rs:156-163 | LeftSpace, 247, is the largest id |
| `Messages.ParamsSizeValue` | src/protocol/message.rs:7-8 | the parameter buffer holds (0xAA - 1) - 2 = 167 bytes |
| `Messages.ZeroParams` | src/protocol/message.rs:48 | the empty parameter buffer is all zero |
| `Messages.New` | src/protocol/message.rs:44-58 | id is the command's value; rw is copied; the queued byte is exactly 1 or 0 as the flag says; no value gives length 0 and zero params; a value gives its size truncated to a byte and its buffer |
| `Messages.NewGetLeftSpace` | src/protocol/message.rs:60-68 | the probe has id 247, rw 0, is not queued, declares no parameters and has an all-zero buffer |
| `Messages.LeftSpaceIsNew` | src/protocol/message.rs:60-68 | the probe is what `Message::new` builds for the left-space command with no value |
| `Packets.Ctrl` | src/protocol/packet.rs:46 | ctrl is below 4, its bit 0 is rw's bit 0 and its bit 1 the queued byte's bit 0 |
| `Packets.Checksum` | src/protocol/packet.rs:72-81 | id + ctrl + the declared params + checksum is 0 modulo 256 |
| `Packets.SameDeclaredSameChecksum` | src/protocol/packet.rs:72-81 | the checksum depends only on id, ctrl and the declared params, so bytes past payload_len - 2 do not affect it |
| `Packets.ChecksumUnique` | src/protocol/packet.rs:72-81 | the checksum is the only byte that balances that sum |
| `Packets.FromMessage` | src/protocol/packet.rs:39-56 | both sync bytes are 0xAA, payload_len is params_len + 2, id and params are copied, ctrl is the two-bit flag byte of rw and the queued byte, the checksum is valid and the declared params are the message's first params_len bytes |
| `Packets.NewMessageCtrl` | src/protocol/packet.rs:44-48 | the packet of a `Message::new` carries rw in ctrl bit 0 and the queued flag in bit 1 |
| `Packets.Write` | src/protocol/packet.rs:85-88 | a slice write copies as many bytes as fit, reports that count and never fails |
| `Packets.WriteExtends` | src/protocol/packet.rs:85-88 | successive slice writes leave their concatenation at the front of the buffer, truncated |
| `Packets.FrameBytes` | src/protocol/packet.rs:83-90 | a frame occupies payload_len - 2 + 6 bytes |
| `Packets.WritesCompose` | src/protocol/packet.rs:83-90 | the four writes of `to_bytes` put the frame's bytes in wire order and their counts add up to the bytes written |
| `Packets.ToBytes` | src/protocol/packet.rs:83-90 | the reported size is min(buffer length, frame length); the buffer starts with that much of the frame and is unchanged beyond it |
| `Packets.ToMessage` | src/protocol/packet.rs:58-70 | id copied, rw and queued flag read from ctrl bits 0 and 1, params_len from the header, params copied over zeros as far as they fit |
| `Packets.MessageRoundTrip` | src/protocol/packet.rs:39-70 | `to_message(from_message(m))` is m with rw and the queued byte reduced to bit 0 |
| `Packets.MessageRoundTripExact` | src/protocol/packet.rs:39-70 | when rw and the queued byte are 0 or 1 and params_len is at most 167, `to_message(from_message(m))` is m itself, all 167 params included |
| `Packets.ParseFrame` | src/protocol/packet.rs:104-133 | a frame is parsed exactly when the input holds header, id, ctrl, the declared params and the checksum; the frame's bytes then precede the remainder |
| `Packets.ParseFrameBytes` | src/protocol/packet.rs:104-133 | parsing a frame's bytes gives back the packet and leaves what followed |
| `Packets.ParsedChecksum` | src/protocol/packet.rs:95-99 | a parsed frame's stored checksum equals the recomputed one exactly when id, ctrl, the declared params and the checksum sum to 0 modulo 256 |
| `Packets.FromBytes` | src/protocol/packet.rs:92-102 | a packet comes back exactly when the input holds a whole frame whose bytes sum to zero; it then has a valid checksum and is the input's first frame |
| `Packets.WireRoundTrip` | src/protocol/packet.rs:83-133 | writing a message's packet into a buffer with room for it and parsing the buffer gives back the message, with its flags reduced to one bit and undeclared params zeroed |
| `Packets.PacketRoundTrip` | src/protocol/packet.rs:83-133 | a packet with a valid checksum, written into a buffer with room for its frame, parses back as itself cut down to its declared params |
| `Packets.CorruptionUnbalances` | src/protocol/packet.rs:72-81 | changing one byte after the header of a frame whose bytes sum to zero leaves a sum that is not zero |
| `Packets.SingleByteCorruptionDetected` | src/protocol/packet.rs:92-102 | changing any one of the id, ctrl, declared-param or checksum bytes of a decodable frame makes it undecodable |
| `Packets.SyncBytesIgnored` | src/protocol/packet.rs:104-114 | the sync bytes do not affect whether a frame decodes |
| `Packets.TruncatedFrameRejected` | src/protocol/packet.rs:104-133 | every proper prefix of a decodable frame fails to decode |
| `Communication.New` | src/communicator.rs:39-47 | a new dispatcher has an empty queue and left_space 128 |
| `Communication.InsertMessage` | src/communicator.rs:49-61 | a queue of more than 128 entries refuses with `BufferFull` and is unchanged; otherwise exactly the new entry is appended at the back |
| `Communication.InsertAllBounded` | src/communicator.rs:49-61 | inserts alone accept the first 129 - size requests of a batch, in order, and never grow the queue past 129 |
| `Communication.SendAndWaitCommandAck` | src/communicator.rs:97-120 | an attempt succeeds exactly when its reply carries the request's id, and then returns that reply's message; every failure is `Retry` |
| `Communication.CheckRetry` | src/communicator.rs:123-128 | another attempt is asked for exactly when the outcome is the error `Retry`; a result or `Abort` stops the loop |
| `Communication.RetryLoop` | src/communicator.rs:84-87 | the loop stops at the first acknowledged attempt or after the third retry, and every attempt before the last was unacknowledged |
| `Communication.SendWithRetry` | src/communicator.rs:82-87 | an exchange makes 1 to 4 attempts; it fails exactly when none of the four replies acknowledges, and otherwise returns the first acknowledging reply |
| `Communication.Request` | src/communicator.rs:82-94 | the request packet is written 1 to 4 times, and exactly 4 times when the entry times out; the entry times out exactly when no reply among four acknowledges, and otherwise gets the acknowledging reply, whose id is the request's |
| `Communication.FirstAcknowledgementDecides` | src/communicator.rs:82-94 | if attempt k is the first acknowledged one, k + 1 copies are written and the entry resolves with that reply |
| `Communication.ProbeThenRequest` | src/communicator.rs:69-94 | the probe is written first; if none of its four attempts is acknowledged the entry times out after exactly four probe writes and the request is never written; a reply ends with the request's packet |
| `Communication.ProbeAcknowledged` | src/communicator.rs:69-94 | if probe attempt k is the first acknowledged one, k - pos + 1 probes are written, then the request exchange from write k + 1, and the entry gets that exchange's status: its reply, or `Timeout` when none of its four attempts is acknowledged |
| `Communication.Process` | src/communicator.rs:69-94 | a queued entry starts with the left-space probe, a non-queued one is never probed; at most 8 writes; the status is a timeout or a reply with the request's id |
| `Communication.QueuedProcess` | src/communicator.rs:69-94 | a queued entry is handled exactly by the probe-then-request exchange with the left-space message as the probe |
| `Communication.Run` | src/communicator.rs:63-95 | an empty queue is unchanged and nothing is written; otherwise only the front entry leaves, its handle is resolved once, and left_space is untouched |
| `Communication.RunOnce` | src/communicator.rs:63-95 | a run on a non-empty queue removes exactly the front entry, resolves its handle with the status of the exchange for it from the current write, writes exactly that exchange's packets (at most 8) and keeps left_space |
| `Communication.Drain` | src/communicator.rs:63-95 | repeated runs resolve every entry once, in FIFO order: entry i gets the status of the exchange that starts where entry i - 1's ended, the written packets are those exchanges' packets in order, each status is a timeout or a reply for its own command, and each entry costs at most 8 writes |
| `ApiTypes.SuctionCapParams` | src/api/types.rs:30-47 | Off is (false, false), In is (true, true), Out is (true, false): controlled unless off, sucking only when in |
| `ApiTypes.SuctionCapState` | src/api/types.rs:30-47 | the flag pair (false, true) names no state; every other pair names the state whose control flag it carries |
| `ApiTypes.SuctionCapRoundTrip` | src/api/types.rs:30-47 | a state is recovered from its flag pair |
| `ApiTypes.SuctionCapStateExact` | src/api/types.rs:30-47 | a pair that names a state is that state's pair |
| `ApiTypes.SuctionCapInjective` | src/api/types.rs:30-47 | distinct states give distinct flag pairs |
| `ApiTypes.HhtTrigModeParams` | src/api/types.rs:67-77 | size 1; key release is byte 0 and the periodic trigger byte 1; every byte of the buffer holds it |
| `ApiTypes.HhtTrigModeOf` | src/api/types.rs:71-74 | a message names a trigger mode only if it declares a first byte of 0 or 1 |
| `ApiTypes.HhtTrigModeRoundTrip` | src/api/types.rs:67-77 | a trigger-mode message written to the wire and parsed back still names its mode |
| `Api.PtpCmdMessage` | src/api/mod.rs:68-73 | the request has id 84, rw 1, the caller's queued flag and the encoded parameters |
| `Api.PtpCmdMessageFits` | src/api/mod.rs:68-73 | that request can be framed exactly when its encoded size, as a byte, is at most 167 |
| `Api.PtpCmdOutcome` | src/api/mod.rs:76-84 | a reply gives `Some(first reply byte)` for a queued command and `None` otherwise; any other status is returned inside `CommunicationError` |
| `Api.PtpCmdExchange` | src/api/mod.rs:67-85 | run through the dispatcher, `set_ptp_cmd` fails exactly on `Timeout`; on success it yields an index exactly when queued |
| `Api.PtpCmdImmediateTimeout` | src/api/mod.rs:67-85 | an immediate `set_ptp_cmd` fails exactly when none of four replies carries id 84 |
| `Api.StartExecMessage` | src/api/mod.rs:88-93 | the request has id 240, rw 1, is not queued and declares no parameters |
| `Api.StartExecOutcome` | src/api/mod.rs:95-99 | a reply gives `Ok(())`; any other status is returned inside `CommunicationError` |
| `Api.SubmitToIdle` | src/communicator.rs:49-95 | a request submitted to an empty queue is accepted, and the next run resolves its handle and empties the queue |
| `Api.Contains` | src/api/mod.rs:36-40 | a needle at the front of the string is contained |
| `Api.ContainsOccurs` | src/api/mod.rs:36-40 | `Contains` holds exactly when the needle occurs at some index |
| `Api.Candidate` | src/api/mod.rs:33-44 | a port is kept exactly when it is USB, has a product name and that name contains one of the five bridge names; it is kept under its port name |
| `Api.SearchDobot` | src/api/mod.rs:30-46 | at most one name per port, and none exactly when no port is a candidate |
| `Api.SearchDobotAppend` | src/api/mod.rs:30-46 | searching a concatenation concatenates the searches, so the list order is kept |
| `Api.SearchDobotSingle` | src/api/mod.rs:30-46 | a one-port list yields its name exactly when it is a candidate |
| `Api.SearchDobotMembers` | src/api/mod.rs:30-46 | a name is offered exactly when some port is a candidate under that name |
| `Api.ConnectDobot` | src/api/mod.rs:48-61 | baud defaults to 115200; `PortNotFound` exactly when no port is a candidate, even with a given name; a given name is used, otherwise a searched one |
| `Api.ConnectDobotPicksFirst` | src/api/mod.rs:48-50 | without a name, the first candidate in list order is opened |
| `Api.ExplicitPortNeedsCandidate` | src/api/mod.rs:50 | a given port name with no candidate port still fails with `PortNotFound` |
| `Api.ConnectDobotWithLazySearch` | src/api/mod.rs:50 | with the search deferred, a given name always succeeds and only an empty search fails |
| `Api.LazySearchAgrees` | src/api/mod.rs:50 | the deferred-search selection differs from the code's exactly when a name is given and no port is a candidate |

## Left out

- `src/connector.rs` is not part of this model: opening and configuring the TTY, blocking reads, the 10 ms delays and the read timeout are I/O and timing. The reply oracle replaces the whole connector, and its byte-accumulating read loop with it.
- The asynchronous machinery is not modelled: `oneshot` channels, `Arc`/`RwLock` and `Dobot::start`. A `run` is one sequential step, and a handle is a number.
- The `ToParams` derive macro (`derives/src/lib.rs`) generates code at compile time; a value's encoding enters the model as an `EncodedParams`.
- f32 payloads are not modelled: the encodings of `PTPCmd`, `EndEffectorParams` and `PTPCommonParams`, and `Pose::from_params`. They are IEEE-754 serialisation through external crates.
- `serialport::available_ports` and `Connector::connect` are foreign I/O. The port list is a parameter, and the connection ends at the settings the port would be opened with.
- Api.ConnectDobot: never produces `ConnectorError`, because `Connector::connect` is not modelled; the firmware-type and version arguments are passed through to it untouched and are left out for the same reason.
- The example binaries under `example/` are application scripts and are not modelled.
- The queue-index tracker and waiting on queue positions have no implementation in the source.
- The 500 ms wait time only sizes the read timeout. Silence is an oracle `None`.
- The `unwrap` calls on the transport write and on sending to a handle are assumed to succeed.
- Debug-build overflow panics on u8 arithmetic are not modelled: arithmetic wraps as in a release build.
- `ProtocolID`'s 88 variants are written as pairs of a group and an offset within the group's block, with one named constant per variant.

## Findings

| source | as written | input that shows it | evidently intended | confidence | as-written member | corrected member |
|---|---|---|---|---|---|---|
| src/api/mod.rs:50 | `unwrap_or` evaluates its argument eagerly, so the port search and its `?` run even when a port name is given | port name `/dev/ttyUSB0` with only a PCI port present: `PortNotFound` | a given port name is used without searching (`unwrap_or_else`) | medium, not executed | `Api.ExplicitPortNeedsCandidate` | `Api.ConnectDobotWithLazySearch` |
