/**
 * The start-up sequence of the I2C driver exercise: construct the driver
 * for the device strapped to AD0, read its identity register and expect
 * 0x67 (103). The bus is a stub standing in for the hardware I2C master.
 */
module SensorInit {
  import opened I2c
  import opened Icm42670p

  /** A device at 0x68 whose WHO_AM_I register holds 0x67; every other read yields 0. */
  function IdentityStub(h: seq<Txn>, t: Txn, i: nat): Byte
  {
    if t == WriteRead(0x68, [0x75], 1) then 0x67 else 0
  }

  /** A transport that never fails. */
  function NoFault(h: seq<Txn>, t: Txn): Option<()>
  {
    None
  }

  /** A transport on which every transaction fails with `e`. */
  function AlwaysFault<E>(e: E): (seq<Txn>, Txn) -> Option<E>
  {
    (h: seq<Txn>, t: Txn) => Some(e)
  }

  /** Against a device answering 0x67, the identity read returns 103 after one transaction. */
  method ReadIdentity() returns (id: Result<Byte, ()>, log: seq<Txn>)
    ensures id == Ok(103)
    ensures log == [WriteRead(0x68, [0x75], 1)]
  {
    var bus := new Bus<()>(NoFault, IdentityStub);
    var created := ICM42670P.New(bus, AD0);
    var sensor := created.value;
    id := sensor.ReadDeviceIdRegister();
    log := bus.log;
  }

  /** A failing transport's error reaches the caller unchanged, after exactly one attempt. */
  method ReadIdentityFailing<E>(e: E) returns (id: Result<Byte, E>, log: seq<Txn>)
    ensures id == Err(e)
    ensures log == [WriteRead(0x68, [0x75], 1)]
  {
    var bus := new Bus<E>(AlwaysFault(e), IdentityStub);
    var created := ICM42670P.New(bus, AD0);
    var sensor := created.value;
    id := sensor.ReadDeviceIdRegister();
    log := bus.log;
  }

  /**
   * A register-file device: a read of offset `o` at bus address `addr`
   * yields the last byte written to `o` at `addr`, or 0 if none was.
   */
  function LastWritten(h: seq<Txn>, addr: Byte, offset: Byte): Byte
    decreases |h|
  {
    if h == [] then 0
    else match h[|h| - 1]
      case Write(a, bytes) =>
        if a == addr && |bytes| == 2 && bytes[0] == offset then bytes[1]
        else LastWritten(h[..|h| - 1], addr, offset)
      case WriteRead(_, _, _) => LastWritten(h[..|h| - 1], addr, offset)
  }

  /** The replies of the register-file device: every byte of a read is the addressed register. */
  function RegisterFile(h: seq<Txn>, t: Txn, i: nat): Byte
  {
    if t.bytes == [] then 0 else LastWritten(h, t.addr, t.bytes[0])
  }

  /**
   * Writing a register and reading it back returns the byte written, on a
   * bus that never fails and whose device is a register file, whatever was
   * carried before; the bus carries exactly the two transactions.
   */
  method WriteThenRead(sensor: ICM42670P<()>, register: Register, value: Byte) returns (r: Result<Byte, ()>)
    requires sensor.i2c.fault == NoFault && sensor.i2c.reply == RegisterFile
    modifies sensor.i2c
    ensures r == Ok(value)
    ensures sensor.i2c.log == old(sensor.i2c.log)
              + [Encode(RegWrite(sensor.address, register, value)), Encode(RegRead(sensor.address, register))]
  {
    var written := sensor.WriteRegister(register, value);
    r := sensor.ReadRegister(register);
  }
}
