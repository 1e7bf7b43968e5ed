/**
 * The boundary of the I2C transport the post-box read runs on: the messages a
 * combined transfer carries, the device handle, and what a transfer does to the
 * caller's buffers. How the bus answers is not computed here: it is the `Reply`
 * the handle was opened with.
 */
module I2c {
  import opened Bytes
  import opened Wrappers

  /** A mutable borrow `&mut arr[..len]`: the first `len` bytes of `arr`. */
  datatype ByteSlice = ByteSlice(arr: array<u8>, len: nat) {
    predicate Valid() { len <= arr.Length }
  }

  /** One message of a combined transfer: bytes to write, or a buffer for the device to fill. */
  datatype Message = Write(bytes: seq<u8>) | Read(out: ByteSlice)

  /** An I/O failure reported by the transport (absent device, NACK, bus fault, timeout). */
  datatype BusError = BusError(errno: int)

  /**
   * How the bus answers one combined transfer: the number of messages it reports
   * as sent, or an error, and the bytes it stores into each read buffer (it may store
   * them whatever it reports).
   */
  datatype Reply = Reply(result: Result<u32, BusError>, fill: seq<u8>)

  function Min(a: nat, b: nat): nat { if a <= b then a else b }

  /**
   * The contents `s` of a buffer after the transport has stored `fill` through a
   * slice of its first `len` bytes.
   */
  function Overwrite(s: seq<u8>, len: nat, fill: seq<u8>): (r: seq<u8>)
    requires len <= |s|
    ensures |r| == |s|
    ensures r[len..] == s[len..]
    ensures forall k :: 0 <= k < len ==> r[k] == if k < |fill| then fill[k] else s[k]
  {
    var c := Min(len, |fill|);
    fill[..c] + s[c..]
  }

  /** Every read message's slice lies inside its array. */
  predicate SlicesValid(msgs: seq<Message>)
  {
    forall i :: 0 <= i < |msgs| && msgs[i].Read? ==> msgs[i].out.Valid()
  }

  /**
   * No two read messages use the same array. This is stronger than Rust's rule, which
   * only forbids overlapping borrows; a post-box read builds a single read message.
   */
  predicate SlicesDisjoint(msgs: seq<Message>)
  {
    forall i, j :: 0 <= i < j < |msgs| && msgs[i].Read? && msgs[j].Read? ==> msgs[i].out.arr != msgs[j].out.arr
  }

  /** The arrays a transfer of `msgs` may store into. */
  function ReadTargets(msgs: seq<Message>): set<array<u8>>
  {
    set i | 0 <= i < |msgs| && msgs[i].Read? :: msgs[i].out.arr
  }

  /**
   * The machine the command runs on. Its ghost log records every combined transfer
   * issued through any device handle opened on it, oldest first.
   */
  class Platform {
    ghost var log: seq<seq<Message>>

    constructor ()
      ensures log == []
    {
      log := [];
    }
  }

  /** An open handle on one device of one I2C bus of `platform`. */
  class I2cDevice {
    const platform: Platform
    const bus: u8
    const address: u16
    const reply: Reply

    constructor (platform: Platform, bus: u8, address: u16, reply: Reply)
      ensures this.platform == platform && this.bus == bus && this.address == address && this.reply == reply
    {
      this.platform := platform;
      this.bus := bus;
      this.address := address;
      this.reply := reply;
    }

    /**
     * `I2CTransfer::transfer`: issue all of `msgs` as one combined bus operation.
     * The result is the transport's count of messages sent, or its error; each read
     * buffer gets the reply's bytes through its slice and is unchanged beyond it.
     */
    method Transfer(msgs: seq<Message>) returns (r: Result<u32, BusError>)
      requires SlicesValid(msgs) && SlicesDisjoint(msgs)
      modifies platform`log, ReadTargets(msgs)
      ensures platform.log == old(platform.log) + [msgs]
      ensures r == reply.result
      ensures forall i :: 0 <= i < |msgs| && msgs[i].Read? ==>
                msgs[i].out.arr[..] == Overwrite(old(msgs[i].out.arr[..]), msgs[i].out.len, reply.fill)
    {
      forall i, k | 0 <= i < |msgs| && msgs[i].Read? && 0 <= k < Min(msgs[i].out.len, |reply.fill|) {
        msgs[i].out.arr[k] := reply.fill[k];
      }
      platform.log := platform.log + [msgs];
      r := reply.result;
    }
  }
}
