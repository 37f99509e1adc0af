// Headers and records worked out by hand from sections 4.3.7 to 4.3.16 and 4.5 of APPNOTE.TXT, and what the writer
// makes.
module KnownBytes {
  import opened Bytes
  import opened LittleEndian
  import opened ExtraField
  import opened ZipString
  import opened DirentFormat
  import opened DirentHeader
  import opened DirentRoundTrip
  import opened CentralDirectory
  import StringEncoding

  // A file "a" of one byte, "a", that is stored.
  const A_FILE := NEW_DIRENT.(compMethod := CM_STORE, time := 0x6000, date := 0x5821, crc := 0xE8B7BE43, compSize := 1,
                              uncompSize := 1, filename := Some(ZipString([0x61], StringEncoding.Ascii)),
                                offset := 0x1234)

  lemma NoFlagsOf(d: Dirent)
    requires d.bitFlags == 0 && d.encryption == EM_NONE && !UseUtf8Flag(d)
    ensures FlagsOf(d) == 0
  {
  }

  lemma OwnFieldsOfFile(isLocal: bool, crc32: Crc32)
    ensures NamesFit(A_FILE, isLocal) && OwnFields(A_FILE, isLocal, false, crc32) == [] && FlagsOf(A_FILE) == 0
  {
    NoFlagsOf(A_FILE);
  }

  const A_FIXED := Fixed(0x33F, 10, 0, 0, 0x6000, 0x5821, 0xE8B7BE43, 1, 1, 1, 0, 0, 0, 0, 0x81B6_0000, 0x1234)

  lemma FixedOfFile(isLocal: bool, crc32: Crc32)
    ensures FixedOf(A_FILE, isLocal, 0) == A_FIXED
  {
    OwnFieldsOfFile(isLocal, crc32);
    hide FlagsOf, NamesFit, OwnFields;
  }

  lemma Numbers()
    ensures Put32(0xE8B7BE43) == [0x43, 0xBE, 0xB7, 0xE8] && Put32(0x81B6_0000) == [0, 0, 0xB6, 0x81]
    ensures Put32(1) == [1, 0, 0, 0] && Put32(0x1234) == [0x34, 0x12, 0, 0]
  {
  }

  const A_MIDDLE: seq<byte> :=
      [10, 0, 0, 0, 0, 0, 0x00, 0x60, 0x21, 0x58, 0x43, 0xBE, 0xB7, 0xE8, 1, 0, 0, 0, 1, 0, 0, 0,
                                1, 0, 0, 0]

  lemma MiddleOfFile()
    ensures Middle(A_FIXED) == A_MIDDLE
  {
    Numbers();
    hide Put32;
  }

  lemma HeaderWithoutFields(d: Dirent, isLocal: bool, crc32: Crc32)
    requires Storable(d) && NamesFit(d, isLocal) && OwnFields(d, isLocal, false, crc32) == []
    requires UserFields(d, isLocal) == []
    ensures WriteHeader(d, isLocal, false, crc32) ==
            Some(EncodeFixed(FixedOf(d, isLocal, 0), isLocal) + Raw(d.filename) + if isLocal then []
                 else Raw(d.comment))
  {
    hide FixedOf, EncodeFixed, OwnFields, NamesFit;
    var fixedPart := EncodeFixed(FixedOf(d, isLocal, 0), isLocal) + Raw(d.filename);
    assert Size([]) == 0 && Write([]) + Write([]) == [] && fixedPart + [] == fixedPart;
  }

  lemma LocalHeaderOfFile(crc32: Crc32)
    ensures WriteHeader(A_FILE, true, false, crc32) == Some([0x50, 0x4B, 3, 4] + A_MIDDLE + [0x61])
  {
    OwnFieldsOfFile(true, crc32);
    FixedOfFile(true, crc32);
    MiddleOfFile();
    hide OwnFields, NamesFit, FixedOf, Middle, A_MIDDLE, WriteHeader;
    HeaderWithoutFields(A_FILE, true, crc32);
    assert Raw(A_FILE.filename) == [0x61];
    var header := [0x50, 0x4B, 3, 4] + A_MIDDLE + [0x61];
    assert header + [] == header;
  }

  lemma CentralHeaderOfFile(crc32: Crc32)
    ensures WriteHeader(A_FILE, false, false, crc32) == Some(
      [0x50, 0x4B, 1, 2] + [0x3F, 3] + A_MIDDLE + [0, 0, 0, 0, 0, 0, 0, 0, 0xB6, 0x81, 0x34, 0x12, 0, 0] + [0x61])
  {
    OwnFieldsOfFile(false, crc32);
    FixedOfFile(false, crc32);
    MiddleOfFile();
    TailOfFile();
    hide OwnFields, NamesFit, FixedOf, Middle, A_MIDDLE, Tail, WriteHeader;
    HeaderWithoutFields(A_FILE, false, crc32);
    assert Raw(A_FILE.filename) == [0x61] && Raw(A_FILE.comment) == [];
    var header :=
          [0x50, 0x4B, 1, 2] + [0x3F, 3] + A_MIDDLE + [0, 0, 0, 0, 0, 0, 0, 0, 0xB6, 0x81, 0x34, 0x12, 0, 0] + [0x61];
    assert header + [] == header;
    assert Put16(0x33F) == [0x3F, 3];
  }

  lemma TailOfFile()
    ensures Tail(A_FIXED) == [0, 0, 0, 0, 0, 0, 0, 0, 0xB6, 0x81, 0x34, 0x12, 0, 0]
  {
    Numbers();
    hide Put32;
  }

  // Sizes of 4 GiB and one byte.
  lemma Zip64Fields()
    ensures var d := A_FILE.(compSize := 1, uncompSize := 0x1_0000_0000);
            && WriteField(Field(EF_ZIP64, Zip64Data(d, true, false))) ==
               [1, 0, 16, 0, 0, 0, 0, 0, 1, 0, 0, 0, 1, 0, 0, 0, 0, 0, 0, 0]
            && WriteField(Field(EF_ZIP64, Zip64Data(d, false, false))) == [1, 0, 8, 0, 0, 0, 0, 0, 1, 0, 0, 0]
  {
  }

  lemma AesFieldOfFile()
    ensures WriteField(AesField(A_FILE.(compMethod := CM_DEFLATE, encryption := EM_AES_256, uncompSize := 19))) ==
            [0x01, 0x99, 7, 0, 2, 0, 0x41, 0x45, 3, 8, 0]
    ensures WriteField(AesField(A_FILE.(compMethod := CM_STORE, encryption := EM_AES_128, uncompSize := 20))) ==
            [0x01, 0x99, 7, 0, 1, 0, 0x41, 0x45, 1, 0, 0]
  {
  }

  lemma TextFields(crc32: Crc32)
    requires crc32([0xC3, 0xA9]) == 0x12345678
    ensures WriteField(Utf8Field(EF_UTF_8_NAME, [0xC3, 0xA9], crc32)) ==
            [0x75, 0x70, 7, 0, 1, 0x78, 0x56, 0x34, 0x12, 0xC3, 0xA9]
    ensures WriteField(Utf8Field(EF_UTF_8_COMMENT, [0xC3, 0xA9], crc32)) ==
            [0x75, 0x63, 7, 0, 1, 0x78, 0x56, 0x34, 0x12, 0xC3, 0xA9]
  {
  }

  lemma Descriptors()
    ensures WriteDescriptor(A_FILE.(compSize := 13), false) ==
            [0x50, 0x4B, 7, 8, 0x43, 0xBE, 0xB7, 0xE8, 13, 0, 0, 0, 1, 0, 0, 0]
    ensures WriteDescriptor(A_FILE.(compSize := 13), true) ==
            [0x50, 0x4B, 7, 8, 0x43, 0xBE, 0xB7, 0xE8, 13, 0, 0, 0, 0, 0, 0, 0, 1, 0, 0, 0, 0, 0, 0, 0]
  {
  }

  lemma EndRecord()
    ensures EndRecords(1, 47, 32, 5) == [
      0x50, 0x4B, 5, 6, 0, 0, 0, 0, 1, 0, 1, 0, 47, 0, 0, 0, 32, 0, 0, 0, 5, 0]
  {
  }

  lemma LargeNumbers()
    ensures Put64(44) == [44, 0, 0, 0, 0, 0, 0, 0] && Put64(0x1_0000) == [0, 0, 1, 0, 0, 0, 0, 0]
    ensures Put64(0x2F_0000) == [0, 0, 0x2F, 0, 0, 0, 0, 0] && Put64(0x20_0000) == [0, 0, 0x20, 0, 0, 0, 0, 0]
    ensures Put64(0x4F_0000) == [0, 0, 0x4F, 0, 0, 0, 0, 0]
  {
  }

  lemma SmallNumbers()
    ensures Put32(0) == [0, 0, 0, 0] && Put32(1) == [1, 0, 0, 0] && Put16(45) == [45, 0]
    ensures Put16(0xFFFF) == [0xFF, 0xFF]
    ensures Put16(0) == [0, 0] && Put32(0x2F_0000) == [0, 0, 0x2F, 0] && Put32(0x20_0000) == [0, 0, 0x20, 0]
  {
  }

  // An archive of 65536 entries with a directory of 0x2F0000 bytes behind 0x200000 bytes of data.
  lemma Zip64Record()
    ensures Eocd64(0x1_0000, 0x2F_0000, 0x20_0000) ==
            [0x50, 0x4B, 6, 6] + [44, 0, 0, 0, 0, 0, 0, 0] + [45, 0] + [45, 0] + [0, 0, 0, 0] + [0, 0, 0, 0] +
            [0, 0, 1, 0, 0, 0, 0, 0] + [0, 0, 1, 0, 0, 0, 0, 0] + [0, 0, 0x2F, 0, 0, 0, 0, 0]
              + [0, 0, 0x20, 0, 0, 0, 0, 0]
  {
    LargeNumbers();
    SmallNumbers();
    hide Put64, Put32, Put16;
  }

  lemma Zip64Locator()
    ensures Locator(0x4F_0000) == [0x50, 0x4B, 6, 7] + [0, 0, 0, 0] + [0, 0, 0x4F, 0, 0, 0, 0, 0] + [1, 0, 0, 0]
  {
    LargeNumbers();
    SmallNumbers();
    hide Put64, Put32, Put16;
  }

  lemma MarkedEndRecord()
    ensures Eocd(0x1_0000, 0x2F_0000, 0x20_0000, 0) ==
            [0x50, 0x4B, 5, 6] + [0, 0, 0, 0] + [0xFF, 0xFF] + [0xFF, 0xFF] + [0, 0, 0x2F, 0] + [0, 0, 0x20, 0] + [0, 0]
  {
    SmallNumbers();
    hide Put32, Put16;
  }

  lemma Zip64EndRecords()
    ensures EndRecords(0x1_0000, 0x2F_0000, 0x20_0000, 0) ==
            Eocd64(0x1_0000, 0x2F_0000, 0x20_0000) + Locator(0x4F_0000) + Eocd(0x1_0000, 0x2F_0000, 0x20_0000, 0)
  {
    hide Eocd64, Locator, Eocd;
  }

  // Zip64 records are written exactly if the end record cannot hold a number; a count of 65535, or a size or an offset
  // of 0xFFFFFFFF, it can.
  lemma EndRecordsAreWide(count: uint64, size: uint64, offset: uint64, commentLength: uint16)
    requires offset + size <= UINT64_MAX
    ensures |EndRecords(count, size, offset, commentLength)| ==
            22 + if count <= 0xFFFF && size <= 0xFFFF_FFFF && offset <= 0xFFFF_FFFF then 0 else 76
  {
  }
}
