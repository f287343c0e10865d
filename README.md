# ICM-42670-P register driver

A Dafny model of the hand-written ICM-42670-P driver from the I2C driver exercise. The driver talks to the TDK InvenSense ICM-42670-P inertial measurement unit (datasheet DS-000451). The model has three modules:

- `I2c` (`i2c.dfy`) is the blocking transport the driver is generic over. It offers embedded-hal's `write` and `write_read`, both failing with one error type `E`. It is modelled as a `Bus<E>` object that records every transaction in `log`. The connected device's behaviour is a parameter of the bus. `fault(history, txn)` says whether a transaction fails and with which error. `reply(history, txn, i)` gives byte `i` of a successful read. Both may depend on the whole history, so a device whose registers change when written is covered too.
- `Icm42670p` (`icm42670p.dfy`) holds the two strap-selectable device addresses (`DeviceAddr`), the register map (`Register` with `Address`), and the driver class `ICM42670P<E>`. The driver's operations are `New`, `ReadDeviceIdRegister`, `WriteRegister` and `ReadRegister`. The module also gives the wire format of one register access. `Encode` turns an access into a transaction. `Parse` reads an access back from a transaction. Each driver method's contract gives the one transaction it appends to the bus log as the encoding of the access it performs.
- `SensorInit` (`sensor_init.dfy`) is the start-up sequence of the exercise's `main`. It builds the driver for the device strapped to AD0 and reads the identity register. Against a stub device answering 0x67, the result is 103. Against a failing bus, the bus error comes back unchanged after a single attempt. Against a register-file device, writing a register and reading it back returns the byte written.

## Model

| member | source | states |
|---|---|---|
| `I2c.Bus.Write` | adv/i2cd/src/icm42670p.rs:27-31 | The `write` capability appends exactly one `Write(addr, bytes)` record to the log. It returns the device's status for that transaction. |
| `I2c.Bus.WriteRead` | adv/i2cd/src/icm42670p.rs:27-31 | The `write_read` capability appends exactly one combined transaction whose read length is the buffer's length. It returns the device's status. On success, the buffer holds the device's reply byte by byte. |
| `Icm42670p.DeviceAddr.Value` | adv/i2cd/src/icm42670p.rs:18-24 | A device address fits in 7 bits and has the form 0b110100X. The low bit X is 1 exactly for AD1, so AD0 is 0x68 and AD1 is 0x69. |
| `Icm42670p.DeviceAtValue` | adv/i2cd/src/icm42670p.rs:20-24 | Decoding a bus address gives back strap `a` exactly when `a`'s value is that address, in both directions. So the two addresses are distinct. |
| `Icm42670p.Register.Address` | adv/i2cd/src/icm42670p.rs:94-98 | Every register offset is at most 0x75 (`WhoAmI`). |
| `Icm42670p.AllRegistersListed` | adv/i2cd/src/icm42670p.rs:73-92 | The enumeration of the register map lists every register variant. |
| `Icm42670p.RegisterAt` | adv/i2cd/src/icm42670p.rs:74-98 | Decoding an offset yields a register at that offset. It yields none only when no register lives there. |
| `Icm42670p.AddressInjective` | adv/i2cd/src/icm42670p.rs:74-92 | No two registers share an offset. |
| `Icm42670p.RegisterAtAddress` | adv/i2cd/src/icm42670p.rs:94-98 | Decoding a register's offset gives back that register. |
| `Icm42670p.Encode` | adv/i2cd/src/icm42670p.rs:50-68 | The wire layout of one access: a read is a combined transaction writing `[offset]` and reading 1 byte, a write sends `[offset, value]`, both to the device's address. The access is recovered from its transaction: device address, register and written value. |
| `Icm42670p.EncodeParse` | adv/i2cd/src/icm42670p.rs:50-68 | A transaction that decodes as a register access is exactly the driver's encoding of that access. |
| `Icm42670p.ICM42670P.constructor` | adv/i2cd/src/icm42670p.rs:9-16 | The driver holds exactly the given transport and address. |
| `Icm42670p.ICM42670P.New` | adv/i2cd/src/icm42670p.rs:32-37 | `new` always returns `Ok`. The new driver holds the given transport and address. The transport's log is unchanged, so no bus transaction happens. |
| `Icm42670p.ICM42670P.ReadDeviceIdRegister` | adv/i2cd/src/icm42670p.rs:39-45 | Appends exactly one transaction, the encoding of a read of `WhoAmI` (write `[0x75]`, read 1 byte) at the driver's address. The result is the transport's error if it fails, or else the byte the device returned. |
| `Icm42670p.ICM42670P.WriteRegister` | adv/i2cd/src/icm42670p.rs:47-56 | Appends exactly one transaction, the encoding of a write of that value to that register: `[offset, value]` to the driver's address. The result is the transport's status, unchanged. |
| `Icm42670p.ICM42670P.ReadRegister` | adv/i2cd/src/icm42670p.rs:58-68 | Appends exactly one transaction, the encoding of a read of that register: write `[offset]`, read 1 byte, at the driver's address. A transport error is returned unchanged and no second transaction follows. On success, the result is the single byte read. |
| `SensorInit.ReadIdentity` | adv/i2cd/src/main.rs:31-35 | With a driver built for AD0 over a device that answers 0x67 for register 0x75, the identity read returns `Ok(103)`. The bus then has carried exactly the one transaction `write_read(0x68, [0x75], 1)`. |
| `SensorInit.ReadIdentityFailing` | adv/i2cd/src/main.rs:31-33 | Over a bus where every transaction fails with `e`, the identity read returns `Err(e)` after exactly one transaction. |
| `SensorInit.WriteThenRead` | adv/i2cd/src/icm42670p.rs:50-68 | For every register, value and device address, on a bus that never fails and whose device is a register file, `write_register` followed by `read_register` of the same register returns `Ok(value)`, whatever the bus carried before. The bus carries exactly the write and then the read. |

## Left out

- The transport's internals are not modelled: embedded-hal's I2C traits, the ESP32 I2C master, electrical timing and bus arbitration. The transport is a parameter of the model and is described only by what each call appends to its log and what it answers.
- The driver holds a reference to the bus instead of owning it. Rust's move of the `I2C` value into the struct is not modelled. Aliasing of the bus by another party is therefore not ruled out by the types. The driver's contracts still state its whole effect on the bus.
- The device on the bus is deterministic: `fault` and `reply` are functions of the history and the transaction, so random bus errors cannot be expressed. Every driver call makes a single transport call, so no driver property depends on this.
- The register-file device in `SensorInit` is a test device, not the ICM-42670-P's register behaviour. Its registers read 0 until written, every register is writable, and `WhoAmI` is not read-only.
- The buffer contents after a failed `write_read` are left unspecified, as embedded-hal leaves them. The driver never reads them.
- Write-phase and read-phase failures are not told apart. The code has a single error type `E` shared by `write` and `write_read`, and the model follows the code.
- `read_device_id_register` returns `Result<u8, E>` in the code, not a bare byte. The model follows the code. Comparing the identity against 0x67 is left to the caller, as in `main`.
- Range decoding, multi-register sample assembly, unit scaling, bus sharing and the edge-interrupt bridge are not part of this driver file, so they are not modelled. The MQTT, HTTP, interrupt and shared-bus programs are I/O or foreign-crate plumbing and are not part of this model either.
- The board bootstrap in `main` is not modelled: taking the peripherals, configuring the I2C master, the 500 ms delay loop and the console output. The `assert_eq!` panic is stated as the postcondition `id == Ok(103)` of `SensorInit.ReadIdentity` instead.
- `#[derive(Debug)]`, `Clone`, `Copy` and `PartialEq` have no behaviour to model beyond Dafny's built-in datatype equality.
