/** The checksummed buffers of the unit tests, worked through the CRC step
    chunk by chunk: each passes `CheckDataCrc`, and the DCXO update turns the
    old register1 buffer into the new one. */
module CrcTestVectors {
  import opened Errors
  import opened Crc
  import VectorOperations

  // Payload of the reg0 buffer of the whole-dataset read test (utest/test_device_data.h:177), in chunks of six bytes.
  const ReadChunk0: seq<bv8> := [0x01, 0x11, 0x11, 0x11, 0x11, 0x11]
  const ReadChunk1: seq<bv8> := [0x11, 0x11, 0x11]
  const ReadPayload: seq<bv8> := ReadChunk0 + ReadChunk1
  const ReadBuffer: seq<bv8> := [0x76, 0xAA] + ReadPayload

  lemma ReadStep0()
    ensures Crc16From(0x0000, ReadChunk0) == 0xB764
  {
    assert UpdateCrc16(0x0000, 0x01) == 0xC0C1;
    assert UpdateCrc16(0xC0C1, 0x11) == 0x9CC1;
    assert UpdateCrc16(0x9CC1, 0x11) == 0x9C9D;
    assert UpdateCrc16(0x9C9D, 0x11) == 0xA59D;
    assert UpdateCrc16(0xA59D, 0x11) == 0xA5A4;
    assert UpdateCrc16(0xA5A4, 0x11) == 0xB764;
  }

  lemma ReadStep1()
    ensures Crc16From(0xB764, ReadChunk1) == 0x76AA
  {
    assert UpdateCrc16(0xB764, 0x11) == 0xE776;
    assert UpdateCrc16(0xE776, 0x11) == 0xEAA6;
    assert UpdateCrc16(0xEAA6, 0x11) == 0x76AA;
  }

  /** The stored checksum of the reg0 buffer of the whole-dataset read test (utest/test_device_data.h:177) is the CRC of its payload. */
  lemma ReadBufferChecks()
    ensures Crc16(ReadPayload) == 0x76AA
    ensures CheckDataCrc(ReadBuffer).Ok?
  {
    ReadStep0();
    ReadStep1();
    Crc16FromAppend(0, ReadChunk0, ReadChunk1);
  }

  // Payload of the register1 buffer holding DCXO 0x11 (utest/test_device_data.h:68-70), in chunks of six bytes.
  const OldReg1Chunk0: seq<bv8> := [0x01, 0x11, 0x12, 0x13, 0x14, 0x15]
  const OldReg1Chunk1: seq<bv8> := [0x16, 0x17, 0x18, 0x19, 0x20, 0x21]
  const OldReg1Chunk2: seq<bv8> := [0x22, 0x23, 0x24, 0x25, 0x26, 0x27]
  const OldReg1Chunk3: seq<bv8> := [0x28, 0x29]
  const OldReg1Payload: seq<bv8> := OldReg1Chunk0 + OldReg1Chunk1 + OldReg1Chunk2 + OldReg1Chunk3
  const OldReg1Buffer: seq<bv8> := [0x5D, 0x15] + OldReg1Payload

  lemma OldReg1Step0()
    ensures Crc16From(0x0000, OldReg1Chunk0) == 0xA0C7
  {
    assert UpdateCrc16(0x0000, 0x01) == 0xC0C1;
    assert UpdateCrc16(0xC0C1, 0x11) == 0x9CC1;
    assert UpdateCrc16(0x9CC1, 0x12) == 0x9DDD;
    assert UpdateCrc16(0x9DDD, 0x13) == 0x941C;
    assert UpdateCrc16(0x941C, 0x14) == 0xC695;
    assert UpdateCrc16(0xC695, 0x15) == 0xA0C7;
  }

  lemma OldReg1Step1()
    ensures Crc16From(0xA0C7, OldReg1Chunk1) == 0xE4E8
  {
    assert UpdateCrc16(0xA0C7, 0x16) == 0x5C60;
    assert UpdateCrc16(0x5C60, 0x17) == 0x261C;
    assert UpdateCrc16(0x261C, 0x18) == 0xC327;
    assert UpdateCrc16(0xC327, 0x19) == 0xD042;
    assert UpdateCrc16(0xD042, 0x20) == 0xE951;
    assert UpdateCrc16(0xE951, 0x21) == 0xE4E8;
  }

  lemma OldReg1Step2()
    ensures Crc16From(0xE4E8, OldReg1Chunk2) == 0x3AE5
  {
    assert UpdateCrc16(0xE4E8, 0x22) == 0x5764;
    assert UpdateCrc16(0x5764, 0x23) == 0x3217;
    assert UpdateCrc16(0x3217, 0x24) == 0x1572;
    assert UpdateCrc16(0x1572, 0x25) == 0xFE54;
    assert UpdateCrc16(0xFE54, 0x26) == 0x257E;
    assert UpdateCrc16(0x257E, 0x27) == 0x3AE5;
  }

  lemma OldReg1Step3()
    ensures Crc16From(0x3AE5, OldReg1Chunk3) == 0x5D15
  {
    assert UpdateCrc16(0x3AE5, 0x28) == 0x95FB;
    assert UpdateCrc16(0x95FB, 0x29) == 0x5D15;
  }

  /** The stored checksum of the register1 buffer holding DCXO 0x11 (utest/test_device_data.h:68-70) is the CRC of its payload. */
  lemma OldReg1BufferChecks()
    ensures Crc16(OldReg1Payload) == 0x5D15
    ensures CheckDataCrc(OldReg1Buffer).Ok?
  {
    OldReg1Step0();
    OldReg1Step1();
    OldReg1Step2();
    OldReg1Step3();
    Crc16FromAppend(0, OldReg1Chunk0, OldReg1Chunk1);
    Crc16FromAppend(0, OldReg1Chunk0 + OldReg1Chunk1, OldReg1Chunk2);
    Crc16FromAppend(0, OldReg1Chunk0 + OldReg1Chunk1 + OldReg1Chunk2, OldReg1Chunk3);
  }

  // Payload of the register1 buffer after DCXO became 0x1A (utest/test_device_data.h:77-79), in chunks of six bytes.
  const NewReg1Chunk0: seq<bv8> := [0x01, 0x1A, 0x12, 0x13, 0x14, 0x15]
  const NewReg1Chunk1: seq<bv8> := [0x16, 0x17, 0x18, 0x19, 0x20, 0x21]
  const NewReg1Chunk2: seq<bv8> := [0x22, 0x23, 0x24, 0x25, 0x26, 0x27]
  const NewReg1Chunk3: seq<bv8> := [0x28, 0x29]
  const NewReg1Payload: seq<bv8> := NewReg1Chunk0 + NewReg1Chunk1 + NewReg1Chunk2 + NewReg1Chunk3
  const NewReg1Buffer: seq<bv8> := [0x78, 0xB3] + NewReg1Payload

  lemma NewReg1Step0()
    ensures Crc16From(0x0000, NewReg1Chunk0) == 0x6162
  {
    assert UpdateCrc16(0x0000, 0x01) == 0xC0C1;
    assert UpdateCrc16(0xC0C1, 0x1A) == 0x5B80;
    assert UpdateCrc16(0x5B80, 0x12) == 0xADDA;
    assert UpdateCrc16(0xADDA, 0x13) == 0x566D;
    assert UpdateCrc16(0x566D, 0x14) == 0xE297;
    assert UpdateCrc16(0xE297, 0x15) == 0x6162;
  }

  lemma NewReg1Step1()
    ensures Crc16From(0x6162, NewReg1Chunk1) == 0xC0CD
  {
    assert UpdateCrc16(0x6162, 0x16) == 0x2761;
    assert UpdateCrc16(0x2761, 0x17) == 0xE6A6;
    assert UpdateCrc16(0xE6A6, 0x18) == 0x7066;
    assert UpdateCrc16(0x7066, 0x19) == 0xE031;
    assert UpdateCrc16(0xE031, 0x20) == 0x0C20;
    assert UpdateCrc16(0x0C20, 0x21) == 0xC0CD;
  }

  lemma NewReg1Step2()
    ensures Crc16From(0xC0CD, NewReg1Chunk2) == 0x0892
  {
    assert UpdateCrc16(0xC0CD, 0x22) == 0x8C81;
    assert UpdateCrc16(0x8C81, 0x23) == 0xB90D;
    assert UpdateCrc16(0xB90D, 0x24) == 0xDE78;
    assert UpdateCrc16(0xDE78, 0x25) == 0xF91F;
    assert UpdateCrc16(0xF91F, 0x26) == 0x1239;
    assert UpdateCrc16(0x1239, 0x27) == 0x0892;
  }

  lemma NewReg1Step3()
    ensures Crc16From(0x0892, NewReg1Chunk3) == 0x78B3
  {
    assert UpdateCrc16(0x0892, 0x28) == 0xB389;
    assert UpdateCrc16(0xB389, 0x29) == 0x78B3;
  }

  /** The stored checksum of the register1 buffer after DCXO became 0x1A (utest/test_device_data.h:77-79) is the CRC of its payload. */
  lemma NewReg1BufferChecks()
    ensures Crc16(NewReg1Payload) == 0x78B3
    ensures CheckDataCrc(NewReg1Buffer).Ok?
  {
    NewReg1Step0();
    NewReg1Step1();
    NewReg1Step2();
    NewReg1Step3();
    Crc16FromAppend(0, NewReg1Chunk0, NewReg1Chunk1);
    Crc16FromAppend(0, NewReg1Chunk0 + NewReg1Chunk1, NewReg1Chunk2);
    Crc16FromAppend(0, NewReg1Chunk0 + NewReg1Chunk1 + NewReg1Chunk2, NewReg1Chunk3);
  }

  // Payload of the register0 buffer of the field read test (utest/test_device_data.h:220-223), in chunks of six bytes.
  const Reg0Chunk0: seq<bv8> := [0x01, 0x00, 0x00, 0x00, 0x00, 0x00]
  const Reg0Chunk1: seq<bv8> := [0x00, 0x11, 0x11, 0x11, 0x11, 0x11]
  const Reg0Chunk2: seq<bv8> := [0x11, 0x22, 0x22, 0x22, 0x22, 0x22]
  const Reg0Chunk3: seq<bv8> := [0x22, 0x33, 0x33, 0x33, 0x33, 0x33]
  const Reg0Chunk4: seq<bv8> := [0x33, 0x44, 0x44, 0x44, 0x44, 0x44]
  const Reg0Chunk5: seq<bv8> := [0x44, 0x55, 0x55, 0x55, 0x55, 0x55]
  const Reg0Chunk6: seq<bv8> := [0x55]
  const Reg0Payload: seq<bv8> := Reg0Chunk0 + Reg0Chunk1 + Reg0Chunk2 + Reg0Chunk3 + Reg0Chunk4 + Reg0Chunk5 + Reg0Chunk6
  const Reg0Buffer: seq<bv8> := [0x7E, 0x6E] + Reg0Payload

  lemma Reg0Step0()
    ensures Crc16From(0x0000, Reg0Chunk0) == 0xD101
  {
    assert UpdateCrc16(0x0000, 0x01) == 0xC0C1;
    assert UpdateCrc16(0xC0C1, 0x00) == 0x9001;
    assert UpdateCrc16(0x9001, 0x00) == 0xC051;
    assert UpdateCrc16(0xC051, 0x00) == 0xFC01;
    assert UpdateCrc16(0xFC01, 0x00) == 0xC03D;
    assert UpdateCrc16(0xC03D, 0x00) == 0xD101;
  }

  lemma Reg0Step1()
    ensures Crc16From(0xD101, Reg0Chunk1) == 0xA598
  {
    assert UpdateCrc16(0xD101, 0x00) == 0xC010;
    assert UpdateCrc16(0xC010, 0x11) == 0xC001;
    assert UpdateCrc16(0xC001, 0x11) == 0xCCC1;
    assert UpdateCrc16(0xCCC1, 0x11) == 0x9CCD;
    assert UpdateCrc16(0x9CCD, 0x11) == 0x999D;
    assert UpdateCrc16(0x999D, 0x11) == 0xA598;
  }

  lemma Reg0Step2()
    ensures Crc16From(0xA598, Reg0Chunk2) == 0x8C99
  {
    assert UpdateCrc16(0xA598, 0x11) == 0xA664;
    assert UpdateCrc16(0xA664, 0x22) == 0xF227;
    assert UpdateCrc16(0xF227, 0x22) == 0x0332;
    assert UpdateCrc16(0x0332, 0x22) == 0xCC02;
    assert UpdateCrc16(0xCC02, 0x22) == 0xD8CD;
    assert UpdateCrc16(0xD8CD, 0x22) == 0x8C99;
  }

  lemma Reg0Step3()
    ensures Crc16From(0x8C99, Reg0Chunk3) == 0x3EA5
  {
    assert UpdateCrc16(0x8C99, 0x22) == 0x73CC;
    assert UpdateCrc16(0x73CC, 0x33) == 0x4033;
    assert UpdateCrc16(0x4033, 0x33) == 0x0040;
    assert UpdateCrc16(0x0040, 0x33) == 0xE541;
    assert UpdateCrc16(0xE541, 0x33) == 0x2565;
    assert UpdateCrc16(0x2565, 0x33) == 0x3EA5;
  }

  lemma Reg0Step4()
    ensures Crc16From(0x3EA5, Reg0Chunk4) == 0x2AA3
  {
    assert UpdateCrc16(0x3EA5, 0x33) == 0x6EBE;
    assert UpdateCrc16(0x6EBE, 0x44) == 0x43EE;
    assert UpdateCrc16(0x43EE, 0x44) == 0x7FC3;
    assert UpdateCrc16(0x7FC3, 0x44) == 0x623F;
    assert UpdateCrc16(0x623F, 0x44) == 0x2322;
    assert UpdateCrc16(0x2322, 0x44) == 0x2AA3;
  }

  lemma Reg0Step5()
    ensures Crc16From(0x2AA3, Reg0Chunk5) == 0xAEFC
  {
    assert UpdateCrc16(0x2AA3, 0x44) == 0x4A6A;
    assert UpdateCrc16(0x4A6A, 0x55) == 0x100A;
    assert UpdateCrc16(0x100A, 0x55) == 0x3850;
    assert UpdateCrc16(0x3850, 0x55) == 0x03F8;
    assert UpdateCrc16(0x03F8, 0x55) == 0xBDC2;
    assert UpdateCrc16(0xBDC2, 0x55) == 0xAEFC;
  }

  lemma Reg0Step6()
    ensures Crc16From(0xAEFC, Reg0Chunk6) == 0x7E6E
  {
    assert UpdateCrc16(0xAEFC, 0x55) == 0x7E6E;
  }

  /** The stored checksum of the register0 buffer of the field read test (utest/test_device_data.h:220-223) is the CRC of its payload. */
  lemma Reg0BufferChecks()
    ensures Crc16(Reg0Payload) == 0x7E6E
    ensures CheckDataCrc(Reg0Buffer).Ok?
  {
    Reg0Step0();
    Reg0Step1();
    Reg0Step2();
    Reg0Step3();
    Reg0Step4();
    Reg0Step5();
    Reg0Step6();
    Crc16FromAppend(0, Reg0Chunk0, Reg0Chunk1);
    Crc16FromAppend(0, Reg0Chunk0 + Reg0Chunk1, Reg0Chunk2);
    Crc16FromAppend(0, Reg0Chunk0 + Reg0Chunk1 + Reg0Chunk2, Reg0Chunk3);
    Crc16FromAppend(0, Reg0Chunk0 + Reg0Chunk1 + Reg0Chunk2 + Reg0Chunk3, Reg0Chunk4);
    Crc16FromAppend(0, Reg0Chunk0 + Reg0Chunk1 + Reg0Chunk2 + Reg0Chunk3 + Reg0Chunk4, Reg0Chunk5);
    Crc16FromAppend(0, Reg0Chunk0 + Reg0Chunk1 + Reg0Chunk2 + Reg0Chunk3 + Reg0Chunk4 + Reg0Chunk5, Reg0Chunk6);
  }

  /** The single-field write of the DCXO test: splicing 0x1A in at position 3
      (offset 259 less the register1 base 256) and recomputing the checksum
      yields exactly the buffer the test expects to be written. */
  lemma DcxoUpdateTestVector()
    ensures VectorOperations.Replace(OldReg1Buffer, [0x1A], 3).Ok?
    ensures ReplaceDataCrc(VectorOperations.Replace(OldReg1Buffer, [0x1A], 3).value) == NewReg1Buffer
  {
    NewReg1BufferChecks();
    var spliced := VectorOperations.Replace(OldReg1Buffer, [0x1A], 3).value;
    assert spliced[CrcSize..] == NewReg1Payload;
    CheckIffFramed(NewReg1Buffer);
  }
}
