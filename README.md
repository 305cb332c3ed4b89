# Adapter configuration over the Bluetooth Management interface

This project models the adapter-configuration part of Gobbledegook, a BLE
peripheral server. The modelled part is `ggk::Mgmt` in `src/Mgmt.cpp`. It
builds packed binary command frames for the Linux kernel's Bluetooth
Management interface (the BlueZ management API) and hands them, one at a
time, to the management channel (`HciAdapter`).

Every frame is a 6-byte header followed by an opcode-specific payload. The
header holds three little-endian `uint16_t` fields: `code`,
`controllerId` and `dataSize`. The payloads modelled are these:

- Set Local Name: a 249-byte name field and an 11-byte short-name field. Each
  is zero-filled with `memset` and then written with `snprintf("%s")`.
- Add Advertising: an 11-byte fixed block (Instance, Flags, Duration,
  Timeout, and the two data lengths), then the advertising data, then the
  scan-response data.
- Set Discoverable: the mode byte, then a little-endian timeout.
- The one-byte state commands: Set Powered, Set BR/EDR, Set Secure
  Connections, Set Bondable, Set Connectable, Set Low Energy and Set
  Advertising.

Files:

- `bytes.dfy` (module `Bytes`) holds the building blocks. These are the
  `u8`/`u16`/`u32` types, little-endian fields, the C-string view of a byte
  string (`CStr`), and the fixed character field that `memset` plus `snprintf`
  produce (`CStringField`).
- `frames.dfy` (module `Frames`) holds the opcodes, the header and frame
  codec, and one encoder per request struct. Each encoder is paired with a
  reference decoder. For the header and frame, Add Advertising and Set
  Discoverable, lemmas prove encoder and decoder mutually inverse. Set Local
  Name can only be read back for names that contain no NUL and fit their
  fields, because `%s` drops everything after a NUL.
- `mgmt.dfy` (module `Management`) holds `truncateName` and
  `truncateShortName`, and the class `Mgmt`. The class stores
  `controllerIndex` and a `trace` of everything handed to the channel. Its
  setters are imperative methods. Each one states the new trace in terms of
  the frame encoders.

The channel is modelled as an oracle. `Mgmt.SendCommand` appends
`Sent(frame, accepted)` to the trace, and `accepted` may be either value.
Every setter returns exactly the verdict recorded for its last frame. A
trace function, `LastRequestedPower`, gives the power state last requested
of the adapter. It is used to show that the advertising sequence leaves
power-off as the last power state requested. This holds whether or not the
channel accepted the power-off, whose verdict the code ignores.

Two points where the code differs from a plausible design for this
component. The model follows the code in both:

- `setRawAdvertisingData` does not power the adapter back on after adding
  advertising data.
- No encoder rejects anything. The two data lengths are `uint8_t` fields
  supplied by the caller, so they cannot exceed their length bytes. The
  caller must supply blocks of exactly those lengths
  (`RawAdvertisingData.WellFormed`), because the code copies that many bytes
  with `memcpy`.

`Mgmt.h` is not part of this model, so two kinds of constant had to be
chosen:

- Opcodes: the values follow the numbering of the BlueZ Management API
  (Set Powered 0x0005 … Add Advertising 0x003E). The proofs rely only on
  their being distinct.
- `kMaxAdvertisingNameLength` and `kMaxAdvertisingShortNameLength`: these
  are taken as 248 and 10, one less than their field widths.

## Model

| member | source | states |
|---|---|---|
| `Bytes.LE16` | src/Mgmt.cpp:64-66 | a `uint16_t` field is two bytes, and reading them back little-endian gives the value |
| `Bytes.LE16OfRead` | src/Mgmt.cpp:64-66 | any two bytes read as a `uint16_t` and written back are the same bytes (the codec is a bijection) |
| `Bytes.LE32` | src/Mgmt.cpp:110 | a `uint32_t` field is four bytes that read back little-endian as the value |
| `Bytes.LE32OfRead` | src/Mgmt.cpp:92 | any four bytes read as a `uint32_t` and written back are the same bytes |
| `Bytes.Zeros` | src/Mgmt.cpp:68-71 | `n` NUL bytes, what `memset(…, 0, n)` leaves in a field |
| `Bytes.CStr` | src/Mgmt.cpp:69 | what `%s` reads from a string: the longest NUL-free prefix, stopped by a NUL or by the end of the string |
| `Bytes.CStrOfPrefix` | src/Mgmt.cpp:69 | reading a C string from a prefix gives the matching prefix of the C string |
| `Bytes.CStringField` | src/Mgmt.cpp:68-72 | a `memset` plus `snprintf` field has exactly its width and always ends in NUL; it holds a prefix of the string's C string, all of it when it fits, otherwise `width - 1` bytes; every byte after it is zero |
| `Frames.EncodeHeader` | src/Mgmt.cpp:63-66 | the header is 6 bytes, and `code`, `controllerId` and `dataSize` read back from it |
| `Frames.EncodeFrame` | src/Mgmt.cpp:63-66 | the frame is header plus payload; `dataSize` is the payload's length; the frame decodes back to its code, controller and payload |
| `Frames.EncodeOfDecodeFrame` | src/Mgmt.cpp:63-66 | every buffer that decodes as a frame is that frame's encoding (the decoder is the encoder's exact inverse) |
| `Frames.SetLocalNamePayload` | src/Mgmt.cpp:57-61 | the Set Local Name payload is exactly 260 bytes |
| `Frames.EncodeSetLocalName` | src/Mgmt.cpp:57-72 | the frame is 266 bytes with `dataSize` 260 under Set Local Name; the name field is bytes 6-254 and the short-name field is bytes 255-265; both fields end in NUL |
| `Frames.SetLocalNameRoundTrip` | src/Mgmt.cpp:57-72 | names without NUL that fit their fields are read back unchanged from the payload |
| `Frames.AddAdvertisingPayload` | src/Mgmt.cpp:89-133 | the payload is the 11-byte fixed block plus both blocks, and it decodes back to the parameters it was built from |
| `Frames.EncodeOfDecodeAddAdvertising` | src/Mgmt.cpp:89-98 | every payload that decodes as Add Advertising parameters is their encoding |
| `Frames.RawAdvertisingParams` | src/Mgmt.cpp:108-115 | the parameters built from raw advertising data always fit their length bytes |
| `Frames.EncodeAddAdvertising` | src/Mgmt.cpp:100-133 | `dataSize` is 11 + advDataLen + rspDataLen and the frame is 6 bytes longer; Instance=1, Flags=0, Duration=0, Timeout=0, then the two length bytes; the advertising data starts right after the fixed block and the scan-response data right after that |
| `Frames.SetDiscoverablePayload` | src/Mgmt.cpp:150-161 | the payload is 3 bytes that decode back to `disc` and `timeout` |
| `Frames.EncodeOfDecodeSetDiscoverable` | src/Mgmt.cpp:150-154 | every 3-byte payload is the encoding of the `disc` and `timeout` it decodes to |
| `Frames.EncodeSetDiscoverable` | src/Mgmt.cpp:150-161 | a 9-byte frame with `dataSize` 3 under Set Discoverable; byte 6 is `disc` and bytes 7-8 are `timeout`, little-endian, for every value |
| `Frames.EncodeSetState` | src/Mgmt.cpp:179-188 | a 7-byte frame whose header carries `commandCode`, `controllerId` and `dataSize` 1, and whose one payload byte is `newState` |
| `Frames.EncodeSetStateInjective` | src/Mgmt.cpp:179-188 | two state frames are equal only when their command, controller and state are all equal |
| `Management.TruncateName` | src/Mgmt.cpp:262-270 | the result is a prefix of the name; it is the name itself when the name is at most 248 bytes, and exactly 248 bytes otherwise |
| `Management.TruncateShortName` | src/Mgmt.cpp:274-282 | the same with 10 bytes |
| `Management.TruncateNameIdempotent` | src/Mgmt.cpp:262-270 | the result is at most 248 bytes, and truncating it again changes nothing |
| `Management.TruncateShortNameIdempotent` | src/Mgmt.cpp:274-282 | the result is at most 10 bytes, and truncating it again changes nothing |
| `Management.FieldIgnoresPrefixCut` | src/Mgmt.cpp:68-72 | cutting a string to `width - 1` bytes before writing it into a `width`-byte field changes nothing |
| `Management.NameFieldIgnoresTruncation` | src/Mgmt.cpp:54-69 | the name field is the same whether or not `truncateName` ran first |
| `Management.ShortNameFieldIgnoresTruncation` | src/Mgmt.cpp:55-72 | the short-name field is the same whether or not `truncateShortName` ran first |
| `Management.LongNameField` | src/Mgmt.cpp:54-69 | a NUL-free name longer than 248 bytes gives a field of its first 248 bytes followed by NUL |
| `Management.SetNameDeliversTruncatedNames` | src/Mgmt.cpp:51-72 | for NUL-free names, the Set Local Name frame carries exactly the truncated name and short name |
| `Management.LastRequestedPowerAfterSetPowered` | src/Mgmt.cpp:202-205 | after a Set Powered frame, the requested power state is the one that frame carries |
| `Management.LastRequestedPowerAfterOtherState` | src/Mgmt.cpp:177-188 | a state frame with any other opcode leaves the requested power state unchanged |
| `Management.AdvertisingLeavesPowerOff` | src/Mgmt.cpp:85-141 | power-off, the delay and Add Advertising leave 0 as the last power state requested, whatever the channel's verdicts |
| `Management.StateByte` | src/Mgmt.cpp:204 | `newState ? 1 : 0`: true is 1 and false is 0 |
| `Management.Mgmt.constructor` | src/Mgmt.cpp:36-42 | stores `controllerIndex`, 0 when omitted, and records the synchronisation with that adapter |
| `Management.Mgmt.SendCommand` | src/Mgmt.cpp:74 | appends the frame and the channel's verdict to the trace and returns that verdict |
| `Management.Mgmt.Sleep` | src/Mgmt.cpp:86 | appends the delay to the trace |
| `Management.Mgmt.FormatCString` | src/Mgmt.cpp:68-72 | after the zero fill and the bounded copy, the buffer is exactly `CStringField` of the string |
| `Management.Mgmt.SetName` | src/Mgmt.cpp:51-81 | sends one Set Local Name frame built from the truncated names for `controllerIndex`, and returns its verdict |
| `Management.Mgmt.SetRawAdvertisingData` | src/Mgmt.cpp:83-142 | appends exactly power-off, then a 200 ms delay, then Add Advertising; those are exactly two frames in that order; returns only the Add Advertising verdict; afterwards the requested power state is 0 |
| `Management.Mgmt.SetDiscoverable` | src/Mgmt.cpp:148-170 | sends one Set Discoverable frame with `disc` and `timeout`, neither validated, and returns its verdict |
| `Management.Mgmt.SetState` | src/Mgmt.cpp:177-197 | sends one state frame with the given command, controller and state, and returns its verdict |
| `Management.Mgmt.SetPowered` | src/Mgmt.cpp:202-205 | sends Set Powered with 1 for true and 0 for false, returns its verdict, and leaves that as the requested power state |
| `Management.Mgmt.SetBredr` | src/Mgmt.cpp:210-213 | sends Set BR/EDR with 1 or 0 for `controllerIndex` and returns its verdict |
| `Management.Mgmt.SetSecureConnections` | src/Mgmt.cpp:218-221 | sends Set Secure Connections with the byte passed through unchanged and returns its verdict |
| `Management.Mgmt.SetBondable` | src/Mgmt.cpp:226-229 | sends Set Bondable with 1 or 0 and returns its verdict |
| `Management.Mgmt.SetConnectable` | src/Mgmt.cpp:234-237 | sends Set Connectable with 1 or 0 and returns its verdict |
| `Management.Mgmt.SetLE` | src/Mgmt.cpp:242-245 | sends Set Low Energy with 1 or 0 and returns its verdict |
| `Management.Mgmt.SetAdvertising` | src/Mgmt.cpp:251-254 | sends Set Advertising with the byte passed through unchanged and returns its verdict |

## Left out

- `HciAdapter::getInstance().sync` and `sendCommand` (socket I/O and response correlation): their code is not part of this model. The constructor records `Synced(controllerIndex)`. `SendCommand` records the frame and returns an unconstrained verdict. In the source one `HciAdapter` instance serves the whole process. In the model each `Mgmt` object has its own `trace`. Frames that two `Mgmt` objects send to one adapter therefore interleave on the real channel but not in the model, and `LastRequestedPower` sees only the frames of one object.
- `usleep(200*1000)`: only timing. It appears in the trace as `Slept(200000)`.
- `Logger::warn` and the `kCommandCodeNames` lookup: these only write diagnostics. This includes the failure message of `setRawAdvertisingData`, which reads "Failed to set discoverable".
- The decoders `DecodeHeader`, `DecodeFrame`, `DecodeSetLocalName`, `DecodeAddAdvertising` and `DecodeSetDiscoverable`: these are not in the source. They are reference definitions, added so that the encoders can be proved against them.
- The update-notification queue, the run-state and health state machine, and the logging callbacks of `include/Gobbledegook.h`: the header holds only declarations, and those parts exist for concurrency. Only `RawAdvertisingData` (include/Gobbledegook.h:63-69) is used.
- Memory layout: the packed structs are modelled as byte sequences with the layout written out. This assumes the little-endian host the kernel interface expects. The variable-length stack buffer of `setRawAdvertisingData` becomes a fresh sequence.
- The values of the opcodes and of the two maximum-length constants: `Mgmt.h` is not part of this model. The values chosen are given above.
