# SMBus post-box read, modelled in Dafny

This project models the post-box reader of `smbpbisensor`. The reader is a small
command-line tool. It reads a register block of at most eight bytes (a "post-box")
from a device on an I2C/SMBus bus.

- The register offset is sent as one address byte, or as two big-endian bytes when it does not fit in a byte.
- The address write and the data read travel as one combined I2C transfer.
- The read is accepted only when the transport reports that both messages were sent.

The `read` subcommand does these steps in order:

1. It opens the bus device.
2. It refuses sizes above `MAX_POST_BOX_SIZE` (8, the size of a `u64`).
3. It reads into the first `size` bytes of a zeroed eight-byte value.
4. It prints the whole eight-byte value.

Modules, one per part of the program:

- `Wrappers`: the `Result` type that stands for Rust's `Result`/`anyhow::Result`.
- `Bytes`: the `u8`, `u16` and `u32` newtypes, and `BigEndianValue`. That function reads a byte string most significant byte first, as the device reads the address.
- `OffsetEncoding`: the offset encoder as a pure function, with its round trip in both directions, its minimality and its injectivity.
- `I2c`: the transport boundary. `ByteSlice` stands for a borrowed prefix `&mut arr[..len]`. `Message` is a write or a read. `Reply` is how the bus answers. The class `Platform` is the machine the command runs on. Its ghost `log` records every combined transfer issued on it. The class `I2cDevice` is a handle opened on a platform. Its `Transfer` stores the reply's bytes through every read slice, and nowhere else. It appends the transfer to its platform's log.
- `SmbPbiSensor`: the rest of the core.
  - The completion check and `smbus_read_post_box`, written imperatively over the device and the caller's array.
  - The `read` arm of `main`, as the method `ReadCommand`.
  - `ReadOutcome` and `ReadCommandOutcome`, the pure functions that specify the two methods, with the lemmas about them.

The model follows the code's order and output:

- The device is opened before the size is checked. So a failed open is reported even for an oversized request. An oversized request on an opened device fails before any transfer.
- The subcommand prints the whole eight-byte array, not just `size` bytes. Bytes from `size` on are always zero.

Two preconditions stand for guarantees Rust gives by construction:

- `SmbusReadPostBox` requires its slice to lie inside its array. In Rust, the slice `value[..size]` exists only when `size <= 8`; otherwise the slicing panics. So the verifier proves the bound at the call in `ReadCommand`, right after the size check.
- `Transfer` requires read messages to use distinct arrays. This is stronger than Rust's rule, which only forbids overlapping borrows: two halves from `split_at_mut` share one array. It costs nothing here, because `smbus_read_post_box` builds exactly one read message.

## Model

| member | source | states |
|---|---|---|
| `OffsetEncoding.ToBeBytes` | src/smbpbisensor.rs:53 | `to_be_bytes` gives two bytes whose big-endian value is the offset |
| `OffsetEncoding.EncodeOffset` | src/smbpbisensor.rs:48-55 | the address is always one or two bytes long |
| `OffsetEncoding.EncodeOffsetCases` | src/smbpbisensor.rs:49-54 | offsets up to 255 give the single byte `offset`; larger ones give `[offset / 256, offset % 256]` |
| `OffsetEncoding.EncodeOffsetLength` | src/smbpbisensor.rs:49-55 | the address has one byte exactly when the offset is at most `u8::MAX`, and two bytes otherwise |
| `OffsetEncoding.EncodeOffsetRoundTrip` | src/smbpbisensor.rs:48-55 | reading the address bytes big-endian gives back the offset |
| `OffsetEncoding.EncodeOffsetMinimal` | src/smbpbisensor.rs:49-55 | the address is the shortest big-endian form: a two-byte address never starts with zero |
| `OffsetEncoding.EncodeOffsetInjective` | src/smbpbisensor.rs:48-55 | different offsets never share an address |
| `OffsetEncoding.EncodeOffsetComplete` | src/smbpbisensor.rs:48-55 | every minimal one- or two-byte address is the encoding of the offset it denotes |
| `I2c.Overwrite` | src/smbpbisensor.rs:56-59 | a read through `arr[..len]` keeps the array's length, changes nothing from `len` on, and puts the transport's bytes below `len` |
| `I2c.I2cDevice.constructor` | src/smbpbisensor.rs:79 | a new handle belongs to the given platform, bus and address, and answers with the platform's reply |
| `I2c.I2cDevice.Transfer` | src/smbpbisensor.rs:58-60 | one combined transfer is appended to the platform's log; its result is the transport's count or its error; each read buffer changes only through its slice |
| `SmbPbiSensor.CheckCompletion` | src/smbpbisensor.rs:61-64 | success exactly when the reported count `n` equals the number of messages `m`; otherwise the error carries both `n` and `m` |
| `SmbPbiSensor.ReadOutcomeSuccess` | src/smbpbisensor.rs:58-64 | the read succeeds exactly when the transport reports 2 messages sent |
| `SmbPbiSensor.ReadOutcomeBusError` | src/smbpbisensor.rs:58-60 | a transport error fails the read with that error, and no count is checked |
| `SmbPbiSensor.ReadOutcomeIncomplete` | src/smbpbisensor.rs:61-64 | any count other than 2 fails with `Incomplete(n, 2)` |
| `SmbPbiSensor.SmbusReadPostBox` | src/smbpbisensor.rs:47-66 | exactly one transfer of `[Write(EncodeOffset(offset)), Read(out)]` is appended to the platform's log; `out` is filled only through its slice; the result is `ReadOutcome` of the transport's answer |
| `SmbPbiSensor.OpenDevice` | src/smbpbisensor.rs:79-80 | opening fails with the platform's error, or yields a fresh handle on that platform for that bus and address |
| `SmbPbiSensor.ReadCommand` | src/smbpbisensor.rs:77-91 | the result is `ReadCommandOutcome`; the platform's log is unchanged when the open fails or the size is above 8; otherwise exactly one transfer is appended: the address write, then a read of the first `size` bytes of a fresh 8-byte value |
| `SmbPbiSensor.OpenFailureFirst` | src/smbpbisensor.rs:79-86 | a failed open is reported whatever the size, because opening comes before the size check |
| `SmbPbiSensor.OversizeRejected` | src/smbpbisensor.rs:82-86 | on an open device, a size above 8 fails with `SizeTooLarge(8)` |
| `SmbPbiSensor.ReadCommandSuccess` | src/smbpbisensor.rs:79-91 | the subcommand succeeds exactly when the open succeeds, the size is at most 8 and the transport reports 2 messages sent |
| `SmbPbiSensor.PrintedValue` | src/smbpbisensor.rs:82-91 | the printed value has 8 bytes; bytes below `size` are the transport's; bytes from `size` on are zero |
| `SmbPbiSensor.EchoedBytesPrinted` | src/smbpbisensor.rs:82-91 | when the transport sends both messages and stores `size` bytes, the output is those bytes followed by zeros |
| `SmbPbiSensor.ScenarioSmallOffset` | src/smbpbisensor.rs:49-51 | offset 0x10 is one address byte; a four-byte read of DE AD BE EF prints those bytes and four zeros |
| `SmbPbiSensor.ScenarioWideOffset` | src/smbpbisensor.rs:52-54 | offset 0x1234 is sent as 0x12, 0x34 |
| `SmbPbiSensor.ScenarioNineBytes` | src/smbpbisensor.rs:83-86 | a nine-byte request fails with the maximum of 8 |
| `SmbPbiSensor.ScenarioOneOfTwo` | src/smbpbisensor.rs:61-64 | a transport sending 1 of 2 messages makes the subcommand fail with `Incomplete(1, 2)` |

## Left out

- Command-line parsing (`Args`, `Subcommand`, clap): the subcommand's fields are the parameters of `ReadCommand`.
- The device path `/dev/i2c-{bus}`, and the operating system's open of it. The platform's answer is the `DeviceNode` parameter of `ReadCommand`.
- The internals of the I2C library (`LinuxI2CDevice`, `I2CMessage`, the ioctl behind `transfer`). The transport is modelled only at its boundary, by the `Reply` the handle was opened with: an error or a count, and the bytes it stores into read buffers. A handle gives the same reply to every transfer; the subcommand issues only one.
- Error context strings and the hexadecimal printing of the value. Errors are the variants of `ReadError` and `CommandError`, carrying the values the messages mention. The printed value is the returned eight-byte sequence.
- `size` is a `usize` in the source and a `nat` here. No arithmetic is done on it, so its width does not matter.
- The `n as u64 == m as u64` comparison is modelled as a comparison of integers. Both casts are lossless: `n` is a `u32` and `m` is 2.
- `src/hello.rs`, the D-Bus greeter service. It shares no code or data with the post-box reader.
