/**
 * The SMBus post-box read: encode the register offset, issue the address write and
 * the data read as one combined I2C transfer, and accept the result only when the
 * transport reports both messages sent. `ReadCommand` is the `read` subcommand:
 * open the device, bound the size, read into a zeroed eight-byte value and return
 * that whole value for printing.
 */
module SmbPbiSensor {
  import opened Bytes
  import opened Wrappers
  import opened OffsetEncoding
  import opened I2c

  /** `size_of::<u64>()`: the largest post-box the protocol defines, in bytes. */
  const MAX_POST_BOX_SIZE: nat := 8

  /** Messages in one post-box read: the address write and the data read. */
  const READ_MESSAGES: nat := 2

  /** Why `smbus_read_post_box` failed. */
  datatype ReadError =
    | TransferFailed(cause: BusError)    // the transport refused the combined transfer
    | Incomplete(sent: u32, built: nat)  // only `sent` of the `built` messages went through

  /** Why the `read` subcommand failed, with the context the source attaches. */
  datatype CommandError =
    | OpenFailed(bus: u8, address: u16, cause: BusError)
    | SizeTooLarge(max: nat)
    | ReadFailed(offset: u16, size: nat, reason: ReadError)

  /** What the platform does when the device node of the bus is opened at the address. */
  datatype DeviceNode = Unavailable(cause: BusError) | Available(reply: Reply)

  /** The completion check: a transfer is complete when all `m` messages it carried were sent. */
  function CheckCompletion(n: u32, m: nat): (r: Result<(), ReadError>)
    ensures r.Success? <==> n as int == m
    ensures r.Failure? ==> r.error == Incomplete(n, m)
  {
    if n as int == m then Success(()) else Failure(Incomplete(n, m))
  }

  /** The result `smbus_read_post_box` returns once the transport answered `t`. */
  function ReadOutcome(t: Result<u32, BusError>): Result<(), ReadError>
  {
    match t
    case Failure(e) => Failure(TransferFailed(e))
    case Success(n) => CheckCompletion(n, READ_MESSAGES)
  }

  /** The read succeeds exactly when the transport reports both messages sent. */
  lemma ReadOutcomeSuccess(t: Result<u32, BusError>)
    ensures ReadOutcome(t).Success? <==> t == Success(READ_MESSAGES as u32)
  {
  }

  /** A transport error fails the read with that error; no count is looked at. */
  lemma ReadOutcomeBusError(e: BusError)
    ensures ReadOutcome(Failure(e)) == Failure(TransferFailed(e))
  {
  }

  /** A short count fails the read with both the reported and the expected count. */
  lemma ReadOutcomeIncomplete(n: u32)
    requires n as int != READ_MESSAGES
    ensures ReadOutcome(Success(n)) == Failure(Incomplete(n, READ_MESSAGES))
  {
  }

  /**
   * `smbus_read_post_box`: one combined transfer of the offset's address bytes and a
   * read filling all of `out`, then the completion check.
   */
  method SmbusReadPostBox(dev: I2cDevice, offset: u16, out: ByteSlice) returns (r: Result<(), ReadError>)
    requires out.Valid()
    modifies dev.platform`log, out.arr
    ensures dev.platform.log == old(dev.platform.log) + [[Write(EncodeOffset(offset)), Read(out)]]
    ensures out.arr[..] == Overwrite(old(out.arr[..]), out.len, dev.reply.fill)
    ensures r == ReadOutcome(dev.reply.result)
  {
    var address := EncodeOffset(offset);
    var messages := [Write(address), Read(out)];
    var m := |messages|;
    assert messages[0].Write? && messages[1].out == out;
    assert ReadTargets(messages) <= {out.arr};
    var t := dev.Transfer(messages);
    if t.Failure? {
      return Failure(TransferFailed(t.error));
    }
    var n := t.value;
    r := CheckCompletion(n, m);
  }

  /** `n` zero bytes. */
  function Zeros(n: nat): (r: seq<u8>)
    ensures |r| == n && forall k :: 0 <= k < n ==> r[k] == 0
  {
    seq(n, _ => 0)
  }

  /** What the `read` subcommand ends in: the eight bytes it prints, or its error. */
  function ReadCommandOutcome(bus: u8, address: u16, offset: u16, size: nat, node: DeviceNode): Result<seq<u8>, CommandError>
  {
    match node
    case Unavailable(cause) => Failure(OpenFailed(bus, address, cause))
    case Available(reply) =>
      if size > MAX_POST_BOX_SIZE then Failure(SizeTooLarge(MAX_POST_BOX_SIZE))
      else match ReadOutcome(reply.result)
        case Failure(e) => Failure(ReadFailed(offset, size, e))
        case Success(_) => Success(Overwrite(Zeros(MAX_POST_BOX_SIZE), size, reply.fill))
  }

  /** `LinuxI2CDevice::new`: open the bus's device node on `platform` and bind it to the address. */
  method OpenDevice(platform: Platform, bus: u8, address: u16, node: DeviceNode) returns (r: Result<I2cDevice, BusError>)
    ensures node.Unavailable? ==> r == Failure(node.cause)
    ensures node.Available? ==>
              r.Success? && fresh(r.value) && r.value.platform == platform &&
              r.value.bus == bus && r.value.address == address && r.value.reply == node.reply
  {
    match node
    case Unavailable(cause) =>
      r := Failure(cause);
    case Available(reply) =>
      var dev := new I2cDevice(platform, bus, address, reply);
      r := Success(dev);
  }

  /**
   * The `read` subcommand, run on `platform`. The only combined transfer it may
   * issue is the post-box read, into a fresh eight-byte value of which it lends
   * the first `size` bytes.
   */
  method ReadCommand(platform: Platform, bus: u8, address: u16, offset: u16, size: nat, node: DeviceNode)
    returns (r: Result<seq<u8>, CommandError>)
    modifies platform`log
    ensures r == ReadCommandOutcome(bus, address, offset, size, node)
    ensures node.Unavailable? || size > MAX_POST_BOX_SIZE ==> platform.log == old(platform.log)
    ensures node.Available? && size <= MAX_POST_BOX_SIZE ==>
              |platform.log| == |old(platform.log)| + 1 &&
              platform.log[..|old(platform.log)|] == old(platform.log) &&
              var t := platform.log[|old(platform.log)|];
              |t| == READ_MESSAGES &&
              t[0] == Write(EncodeOffset(offset)) &&
              t[1].Read? && t[1].out.len == size &&
              t[1].out.arr.Length == MAX_POST_BOX_SIZE && fresh(t[1].out.arr)
  {
    var handle := OpenDevice(platform, bus, address, node);
    if handle.Failure? {
      return Failure(OpenFailed(bus, address, handle.error));
    }
    var i2c := handle.value;
    var value := new u8[MAX_POST_BOX_SIZE](_ => 0);
    assert value[..] == Zeros(MAX_POST_BOX_SIZE);
    if size > MAX_POST_BOX_SIZE {
      return Failure(SizeTooLarge(MAX_POST_BOX_SIZE));
    }
    var res := SmbusReadPostBox(i2c, offset, ByteSlice(value, size));
    assert platform.log[..|old(platform.log)|] == old(platform.log);
    if res.Failure? {
      return Failure(ReadFailed(offset, size, res.error));
    }
    r := Success(value[..]);
  }

  /** Opening the device comes first: a failed open is reported whatever the size. */
  lemma OpenFailureFirst(bus: u8, address: u16, offset: u16, size: nat, cause: BusError)
    ensures ReadCommandOutcome(bus, address, offset, size, Unavailable(cause)) == Failure(OpenFailed(bus, address, cause))
  {
  }

  /** On an opened device, a size beyond the maximum is refused, naming the maximum. */
  lemma OversizeRejected(bus: u8, address: u16, offset: u16, size: nat, reply: Reply)
    requires size > MAX_POST_BOX_SIZE
    ensures ReadCommandOutcome(bus, address, offset, size, Available(reply)) == Failure(SizeTooLarge(8))
  {
  }

  /** The subcommand succeeds exactly when the device opens, the size fits and both messages are sent. */
  lemma ReadCommandSuccess(bus: u8, address: u16, offset: u16, size: nat, node: DeviceNode)
    ensures ReadCommandOutcome(bus, address, offset, size, node).Success? <==>
              node.Available? && size <= MAX_POST_BOX_SIZE && node.reply.result == Success(2)
  {
  }

  /**
   * The printed value is eight bytes; the first `size` hold what the transport stored
   * (zero where it stored nothing) and the rest stay zero whatever the transport did.
   */
  lemma PrintedValue(bus: u8, address: u16, offset: u16, size: nat, node: DeviceNode)
    requires ReadCommandOutcome(bus, address, offset, size, node).Success?
    ensures var v := ReadCommandOutcome(bus, address, offset, size, node).value;
            |v| == MAX_POST_BOX_SIZE &&
            (forall k :: 0 <= k < size && k < |node.reply.fill| ==> v[k] == node.reply.fill[k]) &&
            (forall k :: 0 <= k < MAX_POST_BOX_SIZE && (k >= size || k >= |node.reply.fill|) ==> v[k] == 0)
  {
  }

  /** A transport that sends both messages and stores exactly `size` bytes: those bytes are printed, then zeros. */
  lemma EchoedBytesPrinted(bus: u8, address: u16, offset: u16, data: seq<u8>)
    requires |data| <= MAX_POST_BOX_SIZE
    ensures ReadCommandOutcome(bus, address, offset, |data|, Available(Reply(Success(2), data))) ==
              Success(data + Zeros(MAX_POST_BOX_SIZE - |data|))
  {
    var v := ReadCommandOutcome(bus, address, offset, |data|, Available(Reply(Success(2), data))).value;
    PrintedValue(bus, address, offset, |data|, Available(Reply(Success(2), data)));
    assert v == data + Zeros(MAX_POST_BOX_SIZE - |data|);
  }

  /** Offset 0x10, four bytes, the device answers DE AD BE EF. */
  lemma ScenarioSmallOffset()
    ensures EncodeOffset(0x10) == [0x10]
    ensures ReadCommandOutcome(0, 0x20, 0x10, 4, Available(Reply(Success(2), [0xDE, 0xAD, 0xBE, 0xEF]))) ==
              Success([0xDE, 0xAD, 0xBE, 0xEF, 0, 0, 0, 0])
  {
    EchoedBytesPrinted(0, 0x20, 0x10, [0xDE, 0xAD, 0xBE, 0xEF]);
    assert [0xDE, 0xAD, 0xBE, 0xEF] + Zeros(4) == [0xDE, 0xAD, 0xBE, 0xEF, 0, 0, 0, 0];
  }

  /** Offset 0x1234 is sent as 0x12 then 0x34. */
  lemma ScenarioWideOffset()
    ensures EncodeOffset(0x1234) == [0x12, 0x34]
  {
  }

  /** Nine bytes are refused, naming the maximum of 8. */
  lemma ScenarioNineBytes(reply: Reply)
    ensures ReadCommandOutcome(0, 0x20, 0, 9, Available(reply)) == Failure(SizeTooLarge(8))
  {
  }

  /** A transport that sends one message out of two fails the read with 1 of 2. */
  lemma ScenarioOneOfTwo(fill: seq<u8>)
    ensures ReadCommandOutcome(0, 0x20, 0, 4, Available(Reply(Success(1), fill))) ==
              Failure(ReadFailed(0, 4, Incomplete(1, 2)))
  {
  }
}
