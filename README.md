# Sensor serial protocol, host side — a Dafny model

This project models the host side of a sensor module's framed serial protocol. It has three parts:

- **The response classifiers (`connection.py`).**
  - `send_frame` reads the device's answer one byte at a time. It drops noise until the start byte STX. It reads the opcode at the second position. It fixes the expected frame length from the opcode and the request's operation. For an ACK to a read, it takes that length from the response's own 16-bit little-endian length field. Once the length is reached, it checks that the last byte is ETX and classifies ACK and READY as success.
  - `ping_module` collects bytes until the line goes quiet. It then requires the exact length, ETX in place and an ACK or READY opcode.
- **The register page decoder (`module.py`).** The `Module` object holds one sensor's fields. `deserialize` overwrites them from a 256-byte register page: single bytes, three little-endian binary32 values and a little-endian u32 device id. The object can also serialise and set its control byte.
- **The register map (`registers.py`).** The byte offset of every field and the page size.

Files:

| file | module | contents |
|---|---|---|
| `Bytes.dfy` | `Bytes` | `byte`; the unbounded bitwise OR and `<<` the source uses; little-endian u16/u32 assembly and its inverse |
| `Registers.dfy` | `Registers` | register offsets, page size, layout lemmas |
| `SensorModule.dfy` | `SensorModule` | `_u16`/`_u32`/`_f32`, the page decoder as a function, the `Module` class with its methods |
| `Protocol.dfy` | `Protocol` | the frame constants imported from `protocol.py`, as one record with the facts the model relies on |
| `Connection.dfy` | `Connection` | `send_frame` and `ping_module` as methods over a sequence of read results, their specifications and properties |

Each serial read becomes a `Poll`:

- `Byte(b)`: a byte arrived.
- `Silent(elapsedNs)`: the read timed out empty. The value is the time since the exchange began, which is what the source's clock check compares.
- `PortError`: the port raised a serial exception.

How the classifiers are modelled:

- `send_frame` becomes the method `SendFrame`. Its loop keeps the source's own variables. It is proved equal to `Exchange`, a state machine that reads the opcode and the expected length off the buffer. The `send_frame` properties are then proved about `Exchange`.
- `ping_module` becomes the method `PingModule`. It is proved equal to the declarative `PingAccepts`.

`protocol.py` is not part of this model. Its constants (STX, ETX, ACK, NACK, READY, the `*_LENGTH` values, `FRAME_*_POS`, `FRAME_PROTOCOL_OVERHEAD`, `FRAME_PROTOCOL_PREFIX_LEN`, `OPERATION_READ`, `OPERATION_WRITE`) are fields of `Protocol.Constants`. Every operation takes them as a parameter. `Constants.Valid` states all that is assumed of them:

- ACK, NACK and READY are distinct.
- The length field lies inside the prefix.
- ETX's distance from the end and the opcode position fit inside each fixed-length response the ping accepts.

The `send_frame` model needs only the second of these. The statements that tabulate its opcode lengths, and those that rule out success on NACK, also use the first.

The model follows the code where it departs from the evident design of the protocol:

- An unknown opcode does not fail `send_frame` at once. It leaves the expected length at zero, so the call can end only by timeout or fault (`UnknownOpcodeNeverDecided`).
- An over-long frame is not a separate outcome. The frame is judged as soon as its expected length is reached (`DecidedAtFirstOpportunity`).
- The length field is re-read on every byte once the prefix is in, not once. The value cannot change (`ExpectedLengthSettled`).
- `ping_module` does not stop at the expected length. It reads until the line goes quiet, and a 0x00 byte counts as quiet (see Findings).

## Model

| member | source | states |
|---|---|---|
| Bytes.Le16IsBitwiseOr | connection.py:135-137 | `lo OR (hi << 8)` on bytes is `lo + 256*hi`, below 2^16 |
| Bytes.Le32IsBitwiseOr | module.py:65-66 | `b0 OR b1<<8 OR b2<<16 OR b3<<24` on bytes is the little-endian value, below 2^32 |
| Bytes.Le16Bytes | module.py:61-62 | the low and high bytes are recovered from a little-endian u16 |
| Bytes.Le32Bytes | module.py:65-66 | each of the four bytes is recovered from its position in a little-endian u32 |
| Bytes.Le32Injective | module.py:65-66 | two byte groups give the same u32 exactly when they are the same bytes |
| Registers.PageSize | registers.py:32-35 | the page size is REG_LAST, 256 |
| Registers.OffsetsInsidePage | registers.py:7-30 | 22 field offsets, each below the page size |
| Registers.OffsetsDistinct | registers.py:7-30 | no two fields share an offset |
| Registers.FloatFieldsContiguous | registers.py:13-25 | each binary32 field is four consecutive ascending offsets |
| Registers.ControlAndStatus | registers.py:11-12 | control at 0x04, status at 0x06, 0x05 read by no field |
| Registers.DeviceIdPlacement | registers.py:26-30 | the device id is 0x7C..0x7F, contiguous, in the first half of the page |
| SensorModule.U16 | module.py:61-62 | `_u16` is below 2^16; its low byte is `data[lo]` and its high byte `data[hi]` |
| SensorModule.HelpersMatchBitwiseForm | module.py:61-66 | `_u16` and `_u32` equal the OR/shift formulas the source writes; `_u16` is `data[lo] + 256*data[hi]` |
| SensorModule.U32 | module.py:65-66 | `_u32` is below 2^32 and its four bytes, least significant first, are the bytes at the four offsets |
| SensorModule.F32 | module.py:69-70 | the decoded binary32, as a bit pattern (floating point is left out), gives back exactly its four source bytes, least significant first |
| SensorModule.PageSnapshot | module.py:76-109 | what `deserialize` stores: the six single-byte fields are bytes; each binary32 bit pattern and the device id are encoded by their own four page bytes |
| SensorModule.PageSnapshotReadsOnlyTheMap | module.py:73-110 | pages that agree on the mapped offsets decode to the same fields: no other byte is read |
| SensorModule.PageSnapshotKeepsTheMap | module.py:82-109 | pages that decode to the same fields, with binary32 fields compared as bit patterns (floating point is left out), agree on every mapped offset: no byte is lost |
| SensorModule.ModuleIdOfPage | module.py:103-109 | the device id is `_u32` of bytes 0x7C..0x7F and lies in [0, 2^32) |
| SensorModule.Module.constructor | module.py:6-19 | a new module has every integer and float field zero |
| SensorModule.Module.Deserialize | module.py:73-110 | success exactly when the buffer holds a full page; a short buffer changes nothing; otherwise every field is the page's decoding |
| SensorModule.Module.SerializeControl | module.py:114-116 | address 0x04 and one byte congruent to `control` mod 256 (`& 0xFF`), equal to it when it already fits in a byte |
| SensorModule.Module.ControlStartMeasurementSet | module.py:118-119 | control becomes 0x01, nothing else changes |
| SensorModule.Module.ControlStartSht40MeasurementSet | module.py:121-122 | control becomes 0x02, nothing else changes |
| SensorModule.Module.ControlStoreSettingsToFlash | module.py:124-125 | control becomes 0x04, nothing else changes |
| Connection.FromFirstStx | connection.py:107-113 | the candidate frame is no longer than the stream and, when not empty, starts with STX |
| Connection.FromFirstStxIsSuffixAtFirstStx | connection.py:107-113 | the candidate frame is the suffix of the stream from its first STX; no STX precedes it |
| Connection.FromFirstStxConcat | connection.py:107-115 | once a frame has started, later bytes are appended; before that, later bytes are searched |
| Connection.ExpectedLength | connection.py:117-141 | the expected length is unknown (zero) before the opcode arrives, and known only for ACK, NACK and READY |
| Connection.Verdict | connection.py:144-151 | a judged frame is never a timeout or fault; it is a bad terminator exactly when its last byte is not ETX; it succeeds exactly when it ends in ETX with ACK or READY; with distinct opcodes NACK never succeeds |
| Connection.Exchange | connection.py:98-153 | the `send_frame` state machine keeps every byte already buffered except on a port fault, which returns an empty buffer, and classifies a frame only once its expected length is known and reached |
| Connection.SendFrame | connection.py:98-151 | the loop over the source's variables returns exactly what the `Exchange` state machine returns |
| Connection.FrameStartsAtFirstStx | connection.py:107-113 | any returned buffer is a prefix of the stream from its first STX and starts with STX |
| Connection.DecidedAtFirstOpportunity | connection.py:143-151 | a classified frame is judged at the first length where its expected length is known and reached; the result is its verdict |
| Connection.SuccessIffEtxAndAckOrReady | connection.py:143-151 | success exactly when the judged frame ends in ETX with opcode ACK or READY; NACK never succeeds; a missing ETX gives the bad-terminator outcome |
| Connection.UnknownOpcodeNeverDecided | connection.py:129-144 | after an unknown opcode no frame is judged and the call never returns `True` |
| Connection.AckToReadLength | connection.py:133-141 | an ACK to a read, prefix in: overhead plus `b[LSB] OR (b[MSB] << 8)` when positive, else ACK_EMPTY_LENGTH |
| Connection.ExpectedLengthSettled | connection.py:133-141 | once the prefix and opcode are buffered, later bytes never change the expected length |
| Connection.OpcodeLengthTable | connection.py:117-131 | NACK gives NACK_LENGTH, READY gives READY_LENGTH, an ACK to a write gives 5, an unknown opcode gives 0 |
| Connection.QuietPollWithinBudgetIgnored | connection.py:99-103 | an empty read within one second can be removed without changing the result |
| Connection.TimeoutNeedsLateQuietPoll | connection.py:99-103 | a timeout needs an empty read reported after more than one second |
| Connection.QuietLineTimesOut | connection.py:99-103 | with no byte arriving, the first empty read past one second ends the call with a timeout |
| Connection.NoiseBeforeStxDropped | connection.py:107-110 | non-STX bytes before the frame do not change the result |
| Connection.RecognisesFrameAfterNoise | connection.py:107-151 | a frame that starts with STX and is first judged at its full length is returned whole and classified, after any noise and whatever follows |
| Connection.FrameAccepted | connection.py:59-71 | the ping's final test: an accepted frame has one of the three fixed response lengths and no NACK at the opcode position |
| Connection.PingAccepts | connection.py:36-71 | the ping answers `True` only when the port did not fail and the bytes collected until the line went quiet include STX and at least two bytes, from the first STX forming an accepted frame |
| Connection.UnknownOpcodeRejected | connection.py:49-57 | once the second frame byte is an unknown opcode the ping is rejected, whatever bytes follow |
| Connection.PingModule | connection.py:36-81 | the loop over the source's variables answers exactly `PingAccepts` with a zero byte counting as quiet |
| Connection.PingStopsAtQuiet | connection.py:36-41 | reception ends at the first empty read (as written, also a zero byte); nothing after it matters |
| Connection.ZeroByteCutsReception | connection.py:37-41 | as written, a zero byte leaves a proper prefix of the bytes sent |
| Connection.PingRecognisesFrameAfterNoise | connection.py:36-69 | a frame after noise and before a quiet read is accepted exactly when it has a known opcode, that opcode's length, ETX in place and ACK or READY (as written: no 0x00 among the noise and frame bytes) |
| Connection.PingRejectsFrameWithZeroByte | connection.py:37-41 | as written, a well-formed response containing 0x00 is rejected; the intended test accepts it |
| Connection.PingRejectsEmptyAck | connection.py:37-41 | the response `[STX, ACK, 0, 0, ETX]` is rejected as written and accepted as intended |

## Left out

- The serial port itself is not modelled. This covers opening at 115200 baud, writing the request frame, closing, and the 0.05 s and 0.1 s per-read timeouts. The request `frame` argument of `send_frame` is only written to the port, so it is not a parameter. Every read-time serial exception becomes the `PortError` poll.
- The wall clock is read only on an empty read. It is modelled as the elapsed time carried by `Silent`. Nothing assumes that successive readings increase.
- Connection.SendFrame: the source loops until it returns. The model reads a finite sequence of polls, and when they run out first it gives `Pending` with the buffer so far.
- Connection.PingModule: the "too many bytes" check and the one-second check after the loop both return `False`, like the fall-through. They do not change the result, so they are folded into it.
- Floating point is not modelled. Binary32 fields keep their IEEE 754 bit pattern (`Float32`), which is what the four page bytes determine. `_as_f32` quantisation in the property setters, and unpacking into a Python float, are not modelled.
- SensorModule.PageSnapshotKeepsTheMap: "no byte is lost" holds of the bit patterns the model keeps, not of the program's float fields. Python compares -0.0 equal to 0.0 and a NaN unequal to itself, so pages whose float bytes differ (00 00 00 00 against 00 00 00 80) give fields the program considers equal.
- `protocol.py` (`build_frame`, `process_frame` and the constants' values) is not part of this model. The constants are abstract, with the assumptions listed above. An index error that would follow from constants violating them is not modelled.
- `client.py` is left out. Its three request-frame builders only pass arguments to the unmodelled `build_frame`.
- `cli.py` and `main.py` are left out: measurement sequencing, sleeps, CSV logging and console output.
- `Module.__str__` is left out because it only formats text.
- SensorModule.Module.Deserialize: the page is a sequence of bytes. Python would accept any indexable sequence of integers.

## Findings

| source | as written | input that shows it | evidently intended | confidence | as-written member | corrected member |
|---|---|---|---|---|---|---|
| connection.py:37-41 | `if not byte` ends reception on a received 0x00 as well as on an empty read | the empty-read answer `[STX, ACK, 0x00, 0x00, ETX]`, whose length field is zero (ACK_LENGTH 5, ETX last, opcode at index 1): reception stops at the first 0x00 and the ping fails | end reception only when the read returns nothing (`if not resp`, as `send_frame` does), so every response byte is collected | medium (the response layout depends on `protocol.py`); not executed | Connection.PingRejectsEmptyAck | Connection.PingRecognisesFrameAfterNoise |

`PingAccepts` and its helpers take a `zeroIsSilence` flag:

- `true` is the code as written. `PingModule` implements that case.
- `false` is the intended reception test. With it, `PingRecognisesFrameAfterNoise` holds for every frame, including frames that contain zero bytes.
