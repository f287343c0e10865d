/**
 * The blocking I2C transport the ICM-42670-P driver is generic over: any
 * value offering embedded-hal's `Write` (send bytes to a 7-bit address) and
 * `WriteRead` (send bytes, then read into a buffer, as one combined
 * transaction), both failing with the same error type `E`.
 *
 * The transport is modelled as a bus object that records every transaction
 * it carries in `log`. What the device on the other side answers is a
 * parameter of the bus: `fault` says whether a transaction fails, and with
 * which error, and `reply` gives the bytes a successful read delivers. Both
 * may depend on the whole history of earlier transactions, so a stateful
 * device (one whose registers change when written) is covered as well.
 */
module I2c {

  /** An unsigned 8-bit value (Rust's `u8`). */
  type Byte = b: int | 0 <= b < 0x100

  datatype Option<T> = None | Some(value: T)

  /** Rust's `Result<T, E>`. */
  datatype Result<T, E> = Ok(value: T) | Err(error: E)

  /** One transaction on the wire, as the bus records it. */
  datatype Txn =
    | Write(addr: Byte, bytes: seq<Byte>)
    | WriteRead(addr: Byte, bytes: seq<Byte>, readLen: nat)

  class Bus<E> {
    /** Every transaction carried so far, oldest first. */
    var log: seq<Txn>

    /** `fault(h, t)` is the error transaction `t` fails with after history `h`, if any. */
    const fault: (seq<Txn>, Txn) -> Option<E>

    /** `reply(h, t, i)` is byte `i` a successful read `t` delivers after history `h`. */
    const reply: (seq<Txn>, Txn, nat) -> Byte

    constructor (fault: (seq<Txn>, Txn) -> Option<E>, reply: (seq<Txn>, Txn, nat) -> Byte)
      ensures this.fault == fault && this.reply == reply
      ensures log == []
    {
      this.fault := fault;
      this.reply := reply;
      log := [];
    }

    /** The status transaction `t` ends with when it follows history `h`. */
    function Status(h: seq<Txn>, t: Txn): Result<(), E>
    {
      match fault(h, t)
      case Some(e) => Err(e)
      case None => Ok(())
    }

    /**
     * `write(addr, bytes)`: one transaction, recorded whether it succeeds or
     * not; the result is the device's status for it.
     */
    method Write(addr: Byte, bytes: seq<Byte>) returns (r: Result<(), E>)
      modifies this
      ensures log == old(log) + [Txn.Write(addr, bytes)]
      ensures r == Status(old(log), Txn.Write(addr, bytes))
    {
      r := Status(log, Txn.Write(addr, bytes));
      log := log + [Txn.Write(addr, bytes)];
    }

    /**
     * `write_read(addr, bytes, buf)`: one combined transaction whose read
     * phase asks for exactly `buf.Length` bytes. On success `buf` holds the
     * device's reply; after a failure its contents are unspecified.
     */
    method WriteRead(addr: Byte, bytes: seq<Byte>, buf: array<Byte>) returns (r: Result<(), E>)
      modifies this, buf
      ensures log == old(log) + [Txn.WriteRead(addr, bytes, buf.Length)]
      ensures r == Status(old(log), Txn.WriteRead(addr, bytes, buf.Length))
      ensures r.Ok? ==> forall i :: 0 <= i < buf.Length ==>
                buf[i] == reply(old(log), Txn.WriteRead(addr, bytes, buf.Length), i)
    {
      var t := Txn.WriteRead(addr, bytes, buf.Length);
      r := Status(log, t);
      if r.Ok? {
        for i := 0 to buf.Length
          invariant log == old(log)
          invariant forall k :: 0 <= k < i ==> buf[k] == reply(log, t, k)
        {
          buf[i] := reply(log, t, i);
        }
      }
      log := log + [t];
    }
  }
}
