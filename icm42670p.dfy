/**
 * Register-level driver for the TDK InvenSense ICM-42670-P inertial
 * measurement unit (datasheet DS-000451): the two strap-selectable bus
 * addresses, the register map, and the driver that reads and writes single
 * registers over any I2C transport.
 */
module Icm42670p {
  import opened I2c

  /**
   * The device's 7-bit bus address. The datasheet fixes it to 0b110100X,
   * where X is the logic level of the AP_AD0 pin (section 3.3.2, table 4).
   */
  datatype DeviceAddr = AD0 | AD1 {
    /** The address as a number (`self as u8`). */
    function Value(): (b: Byte)
      ensures b < 0x80
      ensures b / 2 == 0x34
      ensures b % 2 == (if this == AD1 then 1 else 0)
    {
      match this
      case AD0 => 0x68
      case AD1 => 0x69
    }
  }

  /** The strap setting a 7-bit bus address belongs to, if any. */
  function DeviceAt(b: Byte): (r: Option<DeviceAddr>)
  {
    if b == 0x68 then Some(AD0)
    else if b == 0x69 then Some(AD1)
    else None
  }

  /** `DeviceAt` inverts `Value`: an address selects a strap exactly when that strap's value is it. */
  lemma DeviceAtValue(b: Byte, a: DeviceAddr)
    ensures DeviceAt(b) == Some(a) <==> a.Value() == b
  {
  }

  /** The registers the driver knows, each with its offset (datasheet table 14.1). */
  datatype Register =
    | MclkRdy
    | WhoAmI
    | IntConfig
    | TempData1
    | TempData0
    | AccelDataX1
    | AccelDataX0
    | AccelDataY1
    | AccelDataY0
    | AccelDataZ1
    | AccelDataZ0
    | GyroDataX1
    | GyroDataX0
    | GyroDataY1
    | GyroDataY0
    | GyroDataZ1
    | GyroDataZ0
  {
    /** The register's offset in the device's register file (`*self as u8`). */
    function Address(): (b: Byte)
      ensures b <= 0x75
    {
      match this
      case MclkRdy => 0x00
      case WhoAmI => 0x75
      case IntConfig => 0x06
      case TempData1 => 0x09
      case TempData0 => 0x0A
      case AccelDataX1 => 0x0B
      case AccelDataX0 => 0x0C
      case AccelDataY1 => 0x0D
      case AccelDataY0 => 0x0E
      case AccelDataZ1 => 0x0F
      case AccelDataZ0 => 0x10
      case GyroDataX1 => 0x11
      case GyroDataX0 => 0x12
      case GyroDataY1 => 0x13
      case GyroDataY0 => 0x14
      case GyroDataZ1 => 0x15
      case GyroDataZ0 => 0x16
    }
  }

  /** Every register, in declaration order. */
  const AllRegisters: seq<Register> :=
    [MclkRdy, WhoAmI, IntConfig, TempData1, TempData0,
     AccelDataX1, AccelDataX0, AccelDataY1, AccelDataY0, AccelDataZ1, AccelDataZ0,
     GyroDataX1, GyroDataX0, GyroDataY1, GyroDataY0, GyroDataZ1, GyroDataZ0]

  lemma AllRegistersListed()
    ensures forall r: Register :: r in AllRegisters
  {
    forall r: Register ensures r in AllRegisters {
      match r
      case MclkRdy => assert AllRegisters[0] == r;
      case WhoAmI => assert AllRegisters[1] == r;
      case IntConfig => assert AllRegisters[2] == r;
      case TempData1 => assert AllRegisters[3] == r;
      case TempData0 => assert AllRegisters[4] == r;
      case AccelDataX1 => assert AllRegisters[5] == r;
      case AccelDataX0 => assert AllRegisters[6] == r;
      case AccelDataY1 => assert AllRegisters[7] == r;
      case AccelDataY0 => assert AllRegisters[8] == r;
      case AccelDataZ1 => assert AllRegisters[9] == r;
      case AccelDataZ0 => assert AllRegisters[10] == r;
      case GyroDataX1 => assert AllRegisters[11] == r;
      case GyroDataX0 => assert AllRegisters[12] == r;
      case GyroDataY1 => assert AllRegisters[13] == r;
      case GyroDataY0 => assert AllRegisters[14] == r;
      case GyroDataZ1 => assert AllRegisters[15] == r;
      case GyroDataZ0 => assert AllRegisters[16] == r;
    }
  }

  /** The first register of `rs` that lives at offset `b`, if any. */
  function Lookup(rs: seq<Register>, b: Byte): (r: Option<Register>)
    ensures r.Some? ==> r.value in rs && r.value.Address() == b
    ensures r.None? ==> forall x :: x in rs ==> x.Address() != b
  {
    if rs == [] then None
    else if rs[0].Address() == b then Some(rs[0])
    else Lookup(rs[1..], b)
  }

  /** The register at offset `b`, if the driver knows one there. */
  function RegisterAt(b: Byte): (r: Option<Register>)
    ensures r.Some? ==> r.value.Address() == b
    ensures r.None? ==> forall x: Register :: x.Address() != b
  {
    AllRegistersListed();
    Lookup(AllRegisters, b)
  }

  /** No two registers share an offset. */
  lemma AddressInjective(r1: Register, r2: Register)
    requires r1.Address() == r2.Address()
    ensures r1 == r2
  {
  }

  /** `RegisterAt` inverts `Address`. */
  lemma RegisterAtAddress(r: Register)
    ensures RegisterAt(r.Address()) == Some(r)
  {
    var found := RegisterAt(r.Address());
    AddressInjective(found.value, r);
  }

  /** A single-register access, as the driver performs it. */
  datatype Access =
    | RegRead(dev: DeviceAddr, reg: Register)
    | RegWrite(dev: DeviceAddr, reg: Register, value: Byte)

  /** The access a transaction carries, read back from the wire. */
  function Parse(t: Txn): Option<Access>
  {
    match t
    case WriteRead(addr, bytes, n) =>
      if |bytes| == 1 && n == 1 && DeviceAt(addr).Some? && RegisterAt(bytes[0]).Some?
      then Some(RegRead(DeviceAt(addr).value, RegisterAt(bytes[0]).value))
      else None
    case Write(addr, bytes) =>
      if |bytes| == 2 && DeviceAt(addr).Some? && RegisterAt(bytes[0]).Some?
      then Some(RegWrite(DeviceAt(addr).value, RegisterAt(bytes[0]).value, bytes[1]))
      else None
  }

  /**
   * The bus transaction an access becomes: a read writes the one-byte
   * offset and reads one byte back in a single combined transaction; a
   * write sends the offset followed by the value. The wire format loses
   * nothing: the device, the register and the value are recovered from it.
   */
  function Encode(a: Access): (t: Txn)
    ensures Parse(t) == Some(a)
  {
    DeviceAtValue(a.dev.Value(), a.dev);
    RegisterAtAddress(a.reg);
    match a
    case RegRead(dev, reg) => WriteRead(dev.Value(), [reg.Address()], 1)
    case RegWrite(dev, reg, v) => Write(dev.Value(), [reg.Address(), v])
  }

  /** Only encoded accesses parse: a transaction that parses is the encoding of what it parses to. */
  lemma EncodeParse(t: Txn)
    requires Parse(t).Some?
    ensures Encode(Parse(t).value) == t
  {
    var a := Parse(t).value;
    DeviceAtValue(t.addr, a.dev);
    match t
    case WriteRead(_, bytes, _) => assert [bytes[0]] == bytes;
    case Write(_, bytes) => assert [bytes[0], bytes[1]] == bytes;
  }

  /**
   * The driver: owns a transport and the device's bus address. Neither is
   * ever replaced; every register access issues exactly one transaction and
   * reports the transport's outcome without retrying.
   */
  class ICM42670P<E> {
    const i2c: Bus<E>
    const address: DeviceAddr

    constructor (i2c: Bus<E>, address: DeviceAddr)
      ensures this.i2c == i2c && this.address == address
    {
      this.i2c := i2c;
      this.address := address;
    }

    /** `new`: always succeeds, and does not touch the bus. */
    static method New(i2c: Bus<E>, address: DeviceAddr) returns (r: Result<ICM42670P<E>, E>)
      ensures r.Ok? && fresh(r.value)
      ensures r.value.i2c == i2c && r.value.address == address
      ensures i2c.log == old(i2c.log)
    {
      var sensor := new ICM42670P(i2c, address);
      r := Ok(sensor);
    }

    /** `read_device_id_register`: a read of `WhoAmI`, offset 0x75. */
    method ReadDeviceIdRegister() returns (r: Result<Byte, E>)
      modifies i2c
      ensures i2c.log == old(i2c.log) + [Encode(RegRead(address, WhoAmI))]
      ensures var t := Encode(RegRead(address, WhoAmI));
              match i2c.fault(old(i2c.log), t)
              case Some(e) => r == Err(e)
              case None => r == Ok(i2c.reply(old(i2c.log), t, 0))
    {
      r := ReadRegister(WhoAmI);
    }

    /**
     * `write_register`: one two-byte write `[offset, value]` to the device;
     * the transport's status is the result.
     */
    method WriteRegister(register: Register, value: Byte) returns (r: Result<(), E>)
      modifies i2c
      ensures i2c.log == old(i2c.log) + [Encode(RegWrite(address, register, value))]
      ensures var t := Encode(RegWrite(address, register, value));
              match i2c.fault(old(i2c.log), t)
              case Some(e) => r == Err(e)
              case None => r == Ok(())
    {
      var byte := value;
      r := i2c.Write(address.Value(), [register.Address(), byte]);
    }

    /**
     * `read_register`: one combined transaction writing the offset and
     * reading one byte into a fresh buffer. A transport error is returned as
     * it is; otherwise the byte read is the result (`u8::from_le_bytes` of a
     * one-byte array is that byte).
     */
    method ReadRegister(register: Register) returns (r: Result<Byte, E>)
      modifies i2c
      ensures i2c.log == old(i2c.log) + [Encode(RegRead(address, register))]
      ensures var t := Encode(RegRead(address, register));
              match i2c.fault(old(i2c.log), t)
              case Some(e) => r == Err(e)
              case None => r == Ok(i2c.reply(old(i2c.log), t, 0))
    {
      var data := new Byte[] [0];
      var status := i2c.WriteRead(address.Value(), [register.Address()], data);
      if status.Err? {
        return Err(status.error);
      }
      r := Ok(data[0]);
    }
  }
}
