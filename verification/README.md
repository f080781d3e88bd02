# proddata register engine in Dafny

A model of the production-data engine of `proddata`: the `DeviceData` class
that stores a device's calibration dataset in two versioned, checksummed
registers, the `vector_operations::replace` splice it relies on, and the
`Proddata` front end that turns hex strings into bytes.

What is modelled:

- **Layouts** (`layouts.dfy`, module `Layouts`). The four field tables of
  `device_data.h` sit in a `Registry`. Register0 has version 1. Register1 has
  versions 0, 1 and 2. The lookups `SelectRegLayout`, `GetDataField`,
  `GetCRCOffset` and `GetRegisterSize` (`RegisterSize`) are modelled too.
  `ValidRegistry` is what the engine relies on of a registry: every layout
  is well-formed (CRC field at the base, version byte after it, contiguous
  fields, distinct names), fits its register's space, has no field named
  `SERIAL`, and no field name is in both registers. The shipped tables
  (`ProdRegistry`) are proved to satisfy it. The engine is stated over any
  valid registry.
- **Checksum framing** (`crc.dfy`, module `Crc`). `CalculateDataCRC` folds
  the per-byte step `update_crc_16` over the payload from 0. The step comes
  from the CRC library. Here it is CRC-16/ARC: reflected polynomial 0xA001,
  initial value 0. The checksums of the unit tests' buffers are worked
  through in `crc_test_vectors.dfy`. The framing properties do not depend on
  the step.
- **Storage** (`storage.dfy`). A `Device` is the byte array behind
  `FlashAccess` plus the factory serial number. Every engine call returns a
  `Run`: its result (`Ok` or one of the error kinds of `errors.dfy`, each
  with the exception text the source throws) and the trace of storage
  operations it issued. `Apply` performs a trace's writes. A write splices
  its buffer into storage, as `MTDAccess::Write` does per sector.
- **Engine** (`device_data.dfy`). `ReadVersionFromOTP`,
  `ReadVersionFromData`, `ParseData`, `Write`, `GetRegisterName`,
  `WriteField`, `Read` and `ReadField` each resolve their layouts per call.
  `WriteLocated`/`RewriteField` and `ReadLocated` are the parts of
  `WriteField` and `ReadField` after the field has been located.
  `device_data_proofs.dfy` holds the lemmas that relate the operations:
  write-then-read round trips, the outcome of every call under the shipped
  tables, and the exact storage effect of a field write.
- **Front end** (`proddata.dfy`). `FormatString` decodes hex pairs. `ToHex`
  is `main.cc`'s `PrintData`. `Write`/`WriteField` refuse odd-length
  strings before reaching the engine.

Where the code does something its tests or its names do not suggest, the model follows the code:

- The unit test `WriteVersionThrowsError` expects two version reads before a
  version field is refused. The code refuses `VERSION_REG*` names before any
  storage access (`DeviceData.WriteField`). The test's name lacks the `Test`
  prefix that the other cases carry.
- `WriteField` does not check the stored checksum before rewriting a
  register. A corrupted register is silently re-checksummed.
- `WriteField("CRC_REG0", …)` (and `CRC_REG1`) is accepted. The two bytes
  it writes are overwritten at once by the recomputed checksum, so the
  field keeps the checksum value. `DeviceDataProofs.WriteFieldEffect`
  therefore excludes the checksum names.
- The unit test `TestWriteFieldInvalidReg1Version` expects "No valid reg
  version" when the stored versions are 1 and 0. Register1 has a version 0
  (only the checksum and the version byte), so these versions resolve, and
  writing `DCXO` fails on the name instead, with "Invalid data field: DCXO"
  (`DeviceDataProofs.WriteFieldReg1Version0`).

## Model

| member | source | states |
|---|---|---|
| VectorOperations.Splice | src/mtd_access.cc:54 | the spliced sequence keeps its length, holds the replacement in its range and every other element unchanged |
| VectorOperations.Replace | src/vector_operations.cc:26-36 | fails with the "Cannot replace" error exactly when the replacement would run past the end; otherwise the length is kept, the range holds the replacement and nothing else changes |
| VectorOperations.ReplaceWithCurrentContents | src/vector_operations.cc:34-35 | replacing a range with its own contents is the identity |
| VectorOperations.ReplaceWithEmpty | src/vector_operations.cc:34-35 | replacing with an empty vector at any in-range position is the identity |
| Crc.Crc16FromAppend | src/device_data.cc:34-41 | the CRC fold over a concatenation continues from the fold over the first part |
| Crc.WordOfBytes | src/device_data.cc:43-44 | the high and the low checksum byte reassemble the 16-bit CRC |
| Crc.WordInjective | src/device_data.cc:43-49 | two checksum byte pairs with the same 16-bit value are the same bytes |
| Crc.CalculateDataCrc | src/device_data.cc:33-52 | the loop returns exactly two bytes, the high then the low byte of the CRC folded from 0 over the whole payload |
| Crc.AddDataCrc | src/device_data.cc:54-57 | the framed buffer is two bytes longer, ends with the payload and starts with its CRC |
| Crc.CheckDataCrc | src/device_data.cc:59-68 | succeeds exactly when bytes 0 and 1 are the CRC of bytes 2 on; otherwise "Data corrupted:CRC failed" |
| Crc.ReplaceDataCrc | src/device_data.cc:70-75 | keeps the length and every byte from index 2 on, and the result passes the check |
| Crc.CheckAfterAdd | src/device_data.cc:54-68 | every framed payload passes the check and keeps its payload |
| Crc.CheckIffFramed | src/device_data.cc:59-68 | a buffer passes the check exactly when it is its own payload framed |
| Crc.ReplaceFixpoint | src/device_data.cc:70-75 | recomputing the checksum is the identity exactly on valid buffers, and is idempotent |
| CrcTestVectors.ReadBufferChecks | utest/test_device_data.h:177 | the whole-dataset read test's buffer carries the CRC 0x76AA of its payload |
| CrcTestVectors.OldReg1BufferChecks | utest/test_device_data.h:68-70 | the register1 buffer of the DCXO test passes the check |
| CrcTestVectors.NewReg1BufferChecks | utest/test_device_data.h:77-79 | the updated register1 buffer of the DCXO test passes the check |
| CrcTestVectors.Reg0BufferChecks | utest/test_device_data.h:220-223 | the register0 buffer of the field read test passes the check |
| CrcTestVectors.DcxoUpdateTestVector | utest/test_device_data.h:67-108 | splicing DCXO 0x1A into the old register1 buffer and recomputing the CRC yields exactly the buffer the test expects written |
| Storage.Fetch | src/flash_access.h:42-49 | a storage read returns the bytes of the range asked for |
| Storage.Store | src/mtd_access.cc:39-55 | a storage write overwrites exactly its range; the size and the serial number are kept |
| Storage.ApplyAppend | src/device_data.cc:176-177 | two writes one after the other have the effect of the trace that holds both |
| Layouts.SelectRegLayout | src/device_data.cc:111-119 | succeeds exactly when the register's version map has the version, with that layout; otherwise "No valid reg version", with no fallback |
| Layouts.GetDataField | src/device_data.cc:138-148 | finds an entry exactly when the layout has the name, and returns that entry's field; otherwise "Invalid data field: name" |
| Layouts.RegisterSizeAppend | src/device_data.cc:121-128 | the summed size of two tables laid end to end is the sum of their sizes |
| Layouts.RegisterSizePermutation | src/device_data.cc:121-128 | the summed size does not depend on the order of the entries, so summing the offset-ordered table gives what the name-ordered map gives |
| Layouts.GetCrcOffset | src/device_data.cc:130-136 | the CRC field's offset is the register base in every well-formed layout |
| Layouts.LookupDistinct | src/device_data.cc:138-148 | with distinct names, looking up an entry's name returns that entry's field |
| Layouts.ProdTables | src/device_data.h:101-133 | register0's version map holds version 1 only and register1's holds exactly 0, 1 and 2, with the four tables |
| Layouts.ProdSelect | src/device_data.h:91-133 | the shipped registry resolves exactly register0 v1 and register1 v0–v2, each well-formed, summing to 39, 3, 4 and 14 bytes |
| Layouts.ProdRegistryValid | src/device_data.h:84-133 | the shipped tables fit their registers, "SERIAL" is not a field, and no name is in both registers |
| Layouts.Register0V1WellFormed | src/device_data.h:91-100 | register0 v1 starts with CRC_REG0 and VERSION_REG0 at 0 and 2 and tiles 39 bytes with distinct names |
| Layouts.Register1V0WellFormed | src/device_data.h:105-108 | register1 v0 is CRC_REG1 and VERSION_REG1 at 256 and 258, 3 bytes |
| Layouts.Register1V1WellFormed | src/device_data.h:109-113 | register1 v1 tiles 4 bytes from 256 with distinct names |
| Layouts.Register1V2WellFormed | src/device_data.h:114-128 | register1 v2 tiles 14 bytes from 256 with distinct names |
| Layouts.FieldsTileRegister | src/device_data.h:91-128 | in a well-formed layout every field satisfies `offset - crcOffset + size <= registerSize`, and earlier fields end before later ones start |
| Layouts.FieldInsideRegister | src/device_data.cc:205-209 | a found field lies inside its register, so its position in the register buffer is in range |
| Layouts.FieldAfterHeader | src/device_data.h:92-93 | every field other than the CRC and the version lies after both |
| Layouts.Register1ForwardExtending | src/device_data.h:105-128 | every register1 v0 field is unchanged in v1, and every v1 field unchanged in v2 |
| Layouts.NamesDisjoint | src/device_data.h:84-128 | no register0 field name is a register1 field name, and "SERIAL" is in neither |
| DeviceData.ReadVersionFromOTP | src/device_data.cc:88-95 | reads both version bytes at 2 and 258 first, then resolves exactly when both stored versions are in the maps; otherwise "No valid reg version" |
| DeviceData.Extent | src/device_data.cc:121-128 | the size of a register under a well-formed layout is its summed field size, at least the checksum plus the version byte |
| DeviceData.ReadVersionFromData | src/device_data.cc:97-109 | register0's version is the buffer's first byte and register1's the byte after register0's payload; an unknown register0 version gives "No valid reg version", and a buffer that ends within register0's payload gives "Data size error" |
| DeviceData.ParseData | src/device_data.cc:150-166 | accepts exactly buffers as long as both payloads; the two framed halves pass the check and their payloads concatenate to the buffer |
| DeviceData.Write | src/device_data.cc:168-178 | on error nothing is written; on success exactly two writes, register0 at its base then register1 at its base, each framed and of its register's size |
| DeviceData.GetRegisterName | src/device_data.cc:180-188 | register0 when its layout has the name, else register1 when its has, else "Invalid data field: name" |
| DeviceData.LocateField | src/device_data.cc:197-198 | the field is found exactly when one layout has the name; it belongs to that register only and lies inside it |
| DeviceData.FetchChecked | src/device_data.cc:223-226 | one read of the whole register; succeeds with its bytes exactly when they pass the check |
| DeviceData.RewriteField | src/device_data.cc:205-214 | reads the register and writes back a buffer equal to it except for the field's bytes and a valid checksum |
| DeviceData.WriteLocated | src/device_data.cc:199-214 | a value of the wrong length fails with "Invalid field size" before any storage access; otherwise one read and one write of the register |
| DeviceData.WriteField | src/device_data.cc:190-215 | version names are refused with no storage access; otherwise the version reads come first, and a failed call writes nothing |
| DeviceData.ReadRegisters | src/device_data.cc:219-235 | succeeds exactly when both stored registers pass their check, returning register0's payload followed by register1's; register0 is read and checked before register1 is read, so a failed register0 check ends the call after one read; issues no write |
| DeviceData.ReadPayloads | src/device_data.cc:221-234 | the same loop over two given storage ranges: one read when the first fails its check, otherwise two, and the two payloads concatenated on success |
| DeviceData.Read | src/device_data.cc:217-236 | starts with the two version reads, never writes, and fails only with "No valid reg version" or "Data corrupted:CRC failed"; an unknown stored version ends the call after the two version reads, otherwise the register reads follow |
| DeviceData.ReadLocated | src/device_data.cc:247-257 | one read of the register; when it passes the check the result is the field's storage range |
| DeviceData.ReadFieldBytes | src/device_data.cc:245-257 | one read of the whole register; succeeds exactly when it passes its check, and then returns the field's own storage range |
| DeviceData.ReadField | src/device_data.cc:238-258 | "SERIAL" returns the 8-byte serial number with no version reads; other names start with the version reads; never writes; fails only with an unknown version, an unknown name or a failed checksum; an unknown version or name ends the call after the two version reads, and a failed checksum after one register read more |
| DeviceDataProofs.StoreBoth | src/device_data.cc:176-177 | after the two register writes each register holds what was written to it |
| DeviceDataProofs.WrittenState | src/device_data.cc:168-178 | after a successful write storage holds both framed registers, and the stored versions resolve to the layouts the buffer named |
| DeviceDataProofs.FramedVersions | src/device_data.cc:97-104 | registers framed from a buffer store its version bytes at 2 and 258 |
| DeviceDataProofs.RegistersHold | src/device_data.cc:219-235 | registers that hold framed buffers read back as their two payloads |
| DeviceDataProofs.WrittenRegisters | src/device_data.cc:217-236 | after a successful write both registers pass their check and read back as the buffer |
| DeviceDataProofs.WriteThenRead | src/device_data.cc:168-236 | `Write(d)` then `Read()` returns `d` |
| DeviceDataProofs.ReadResolved | src/device_data.cc:217-218 | once the stored versions resolve, `Read` is the register loop under those layouts |
| DeviceDataProofs.ProdVersionsFromOTP | src/device_data.cc:88-95 | with the shipped tables, storage resolves exactly when byte 2 is 1 and byte 258 is at most 2, with the sizes 39 and 3, 4 or 14 |
| DeviceDataProofs.ProdWrite | src/device_data.cc:168-178 | with the shipped tables, `Write` accepts exactly the buffers that start with version 1, have 0, 1 or 2 at byte 37 and are as long as both payloads, reports a bad version before a bad length, and writes the first 37 bytes framed at 0 and the rest framed at 256 |
| DeviceDataProofs.WriteOutcome | src/device_data.cc:150-178 | `Write` fails as the version resolution does, then on a length mismatch, and otherwise writes the two framed halves |
| DeviceDataProofs.ProdVersionsFromData | src/device_data.cc:97-109 | with the shipped tables, a buffer resolves exactly when it starts with 1, is longer than 37 bytes and byte 37 is at most 2; each error case is named |
| DeviceDataProofs.VersionsFromDataOutcome | src/device_data.cc:97-109 | an unknown register0 version fails first, then a buffer ending in register0's payload, then an unknown register1 version |
| DeviceDataProofs.WriteFieldReg0Version0 | utest/test_device_data.h:147-157 | with stored versions 0 and 1, writing DCXO fails with "No valid reg version" after exactly the two version reads |
| DeviceDataProofs.WriteFieldReg1Version0 | utest/test_device_data.h:159-169 | with stored versions 1 and 0, the versions resolve to register0 v1 and register1 v0, and writing DCXO fails with "Invalid data field: DCXO" after the two version reads, not with the error the test expects |
| DeviceDataProofs.WriteFieldErrors | src/device_data.cc:196-203 | after the version reads, an unknown stored version, an unknown name and a wrong length fail in that order, with no further access |
| DeviceDataProofs.WriteFieldLocated | src/device_data.cc:196-214 | past the checks `WriteField` is the version reads followed by the located field's write |
| DeviceDataProofs.StoreFieldUpdate | src/device_data.cc:209-214 | for a field after the checksum, storing a field update of a register writes the field, leaves a valid checksum and changes nothing outside the field and the checksum |
| DeviceDataProofs.RewriteFieldEffect | src/device_data.cc:205-214 | the read-modify-write of a field behind the checksum writes the field and nothing else but the checksum |
| DeviceDataProofs.WriteFieldApply | src/device_data.cc:190-214 | a successful `WriteField` passed every check, and its storage effect is the located field's write |
| DeviceDataProofs.VersionNamesRefused | src/device_data.cc:191-194 | both version field names match the refused pattern |
| DeviceDataProofs.ReadFieldLocated | src/device_data.cc:242-257 | past the serial check `ReadField` is the version reads followed by the located field's read |
| DeviceDataProofs.WriteFieldEffect | src/device_data.cc:190-215 | a successful `WriteField` stores the value at the field's offset, re-checksums the register and changes no other byte |
| DeviceDataProofs.WriteLocatedEffect | src/device_data.cc:205-214 | for a located field after the checksum, writing it stores the value and a valid checksum and changes nothing else |
| DeviceDataProofs.WriteFieldKeepsVersions | src/device_data.cc:190-215 | a field write keeps both stored version bytes, so later calls resolve the same layouts |
| DeviceDataProofs.WriteFieldThenReadField | src/device_data.cc:190-258 | `WriteField(n, v)` then `ReadField(n)` returns `v` |
| DeviceDataProofs.ReadLocatedWritten | src/device_data.cc:247-257 | reading a field just written returns the written value |
| Proddata.HexDigit | src/main.cc:30 | the printed digit is a lower-case hex digit whose value is the nibble |
| Proddata.ToHex | src/main.cc:27-33 | prints two zero-padded lower-case digits per byte, high nibble first |
| Proddata.FormatString | src/proddata.cc:31-41 | decodes an even-length hex string into half as many bytes; byte j is the value of digits 2j and 2j+1, high digit first, in either case |
| Proddata.FormatToHex | src/proddata.cc:31-41 | decoding what was printed gives the bytes back |
| Proddata.ToHexFormat | src/proddata.cc:31-41 | printing what was decoded gives back the input digits in lower case, so every pair is read as its two digits in either case |
| Proddata.Write | src/proddata.cc:52-61 | a string of an odd number of bytes, whatever they are, fails with "Invalid data given" and reaches no storage; otherwise the decoded bytes go to the engine unchanged |
| Proddata.WriteField | src/proddata.cc:63-70 | the same guard, then the engine's field write with the decoded bytes |
| Proddata.WriteThenReadHex | src/proddata.cc:52-75 | a hex dataset written and read back prints as the same digits in lower case |
| Proddata.WriteFieldThenReadFieldHex | src/proddata.cc:63-80 | a hex field value written and read back is the decoded value |

## Left out

- The device access classes (`FlashAccess`, `MTDAccess`, `UserOTPAccess`) are left out. File descriptors, `ioctl`, `lseek`, sector erase and OTP region selection become the byte array `Device.mem`. Storage errors are left out. The shipped backends return a zero-filled buffer of the requested size even after a short `read`; a `FlashAccess` that returned a shorter buffer would make the engine index past it (`version[0]`, or the two checksum bytes of `CheckDataCRC`), which is undefined behaviour. `Valid` therefore demands at least the 270 addressable bytes, so every read returns what was asked for.
- `ReadSerial` is the `serial` field of the device. Its contents are whatever the factory OTP holds, and `Valid` fixes its length at the 8 bytes `FlashAccess::ReadSerial` reads.
- The CRC library's `update_crc_16` is not part of this model. The step is fixed to CRC-16/ARC because that reproduces the four checksums of the unit tests. No error-detection strength is claimed.
- `int16_t crc_16` in `CalculateDataCRC` is modelled as `bv16`. Only its two bytes are used, and `(crc_16 >> 8) & 0xff` is the high byte whatever the sign.
- Logging (`LOG`, `DLOG`) is left out, and so are the member caches `reg_version_` and `register_data_fields_`. Each call resolves its layouts locally and pure.
- The layout is a sequence of entries in offset order, where the source has a `std::map` ordered by name. Names are distinct (`DistinctNames`), so lookups do not depend on the order, and `Layouts.RegisterSizePermutation` shows that size sums do not either.
- A Dafny `string` stands for the bytes of a C++ `std::string`: each `char` is one byte, so text outside ASCII appears as its UTF-8 bytes. The odd-length check, the name comparisons and the decoding all count and compare bytes, as `data.size()` and `std::string` do in the source.
- `std::regex_match(name, "(VERSION_REG)(.*)")` is a prefix test on "VERSION_REG". Over `char`, ECMAScript's `.` fails only on the bytes `\n` and `\r`, so the rest may hold any other byte.
- `sscanf` on non-hex characters is left out. `FormatString` requires hex digits, and so do the front end's `Write` and `WriteField` for even-length strings. Strings of an odd number of bytes, whatever the bytes, are refused before decoding, as in the source.
- Undefined behaviour in the source becomes a precondition:
  - an empty buffer in `ReadVersionFromData` and `Write` (`data[0]`);
  - buffers shorter than 2 in `CheckDataCRC`;
  - a negative position in `replace` (`nat`);
  - an odd length in `FormatString`, which writes past its buffer (the front end refuses odd lengths first).
- Proddata.Write: requires a non-empty string, because the engine reads `data[0]` of the decoded buffer. An empty string is undefined behaviour.
- Proddata.Read: only forwards to the engine's `Read`. Its contract is that equality; `Proddata.WriteThenReadHex` states what it returns.
- Proddata.ReadField: only forwards to the engine's `ReadField`. Its contract is that equality; `Proddata.WriteFieldThenReadFieldHex` states what it returns.
- DeviceDataProofs.StoreFieldUpdate: requires the field to start after the checksum. In the source a write to the checksum field is overwritten by the recomputed checksum; that case is `WriteFieldEffect`'s exclusion below.
- DeviceDataProofs.WriteLocatedEffect: requires the field to start after the checksum, for the same reason.
- DeviceDataProofs.WriteFieldEffect: excludes `CRC_REG0` and `CRC_REG1`. A write to a checksum field is overwritten by the recomputed checksum, so the field does not hold the written value.
- DeviceDataProofs.WriteFieldKeepsVersions: excludes the checksum names as well, only because it goes through `WriteFieldEffect`. The version fields themselves are refused before any write.
- DeviceDataProofs.WriteFieldThenReadField: excludes the checksum names, for the reason given for `WriteFieldEffect`.
- Proddata.WriteFieldThenReadFieldHex: excludes the checksum names, for the same reason.
- DeviceData.Read: its own contract gives only the trace shape and the error kinds. What it returns is stated by `DeviceDataProofs.ReadResolved` and `DeviceDataProofs.WriteThenRead`.
- `main.cc`'s argument parsing, usage text and glog setup are left out. Only `PrintData` is modelled, as `Proddata.ToHex`.
- `Errors.Message` is left out of the table. It only lists the exception texts, one per error kind.
- The unit tests' gmock expectations are not restated one by one. Each engine call's contract gives its read/write trace instead, on success and on each error.
