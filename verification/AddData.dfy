// Adding the data of an entry: the local header is written before the data and, where it turns out to be wrong,
// again afterwards (lib/zip_close.c:316-633).
module AddData {
  import opened Bytes
  import opened ExtraField
  import opened FlatFile
  import opened DirentFormat
  import opened DirentHeader
  import opened DirentRoundTrip
  import opened DirentIO

  // What a source says about its data, as far as it is known (lines 327-340, 352-355).
  datatype Stat = Stat(size: Option<uint64>, compSize: Option<uint64>, compMethod: Method, crc: Option<uint32>,
                       encryption: uint16)

  // What of an entry was set explicitly.
  datatype Changes = Changes(compMethod: bool, password: bool)

  // The largest size data can have after compression by a method.
  type Bound = (uint16, uint64) -> uint64

  // The largest size compressed data can have (lib/zip_algorithm_deflate.c:50-59), computed modulo 2^64.
  function DeflateBound(size: uint64): uint64 {
    var bound := (size + (size + 16383) % TWO_64 / 16384 * 5 + 6) % TWO_64;
    if bound < size then UINT64_MAX else bound
  }

  // The bound is exact, except where it would not fit 64 bits, and then it is still too large for a 32-bit header.
  lemma DeflateBoundIsSafe(size: uint64)
    ensures var exact := size + (size + 16383) / 16384 * 5 + 6;
            (exact <= UINT32_MAX <==> DeflateBound(size) <= UINT32_MAX)
              && (exact <= UINT32_MAX ==> DeflateBound(size) == exact)
  {
  }

  // The method that is to be used, and the size of the compressed data if it is known (lines 334-350).
  function Planned(d: Dirent, changes: Changes, stat: Stat): (Dirent, Option<uint64>) {
    var e := d.(bitFlags := WithBit(d.bitFlags, DATA_DESCRIPTOR, false));
    if !changes.compMethod && stat.compMethod != CM_STORE then (e.(compMethod := stat.compMethod), stat.compSize)
    else if e.compMethod == CM_STORE && stat.size.Some? then (e, stat.size)
    else (e, None)
  }

  // Whether the data will be encrypted (lines 429-436).
  predicate Encrypts(d: Dirent, changes: Changes, stat: Stat) {
    && (stat.compMethod != ActualMethod(d.compMethod) || changes.password || d.encryption != stat.encryption)
    && d.encryption != EM_NONE
  }

  // The entry as it is first written, and whether it gets a Zip64 field in any case (lines 359-401, 495-497).
  function Preliminary(d: Dirent, changes: Changes, stat: Stat, bound: Bound): (Dirent, bool) {
    var (e, compSize) := Planned(d, changes, stat);
    var descriptor := Encrypts(e, changes, stat) && e.encryption == EM_TRAD_PKWARE;
    var first := e.(crc := if stat.crc.Some? then stat.crc.value else e.crc,
                    bitFlags := WithBit(e.bitFlags, DATA_DESCRIPTOR, descriptor));
    if stat.size.None? then (first, true)
    else
      var sized := first.(uncompSize := stat.size.value);
      if compSize.Some? then (sized.(compSize := compSize.value), false)
      else (sized, bound(ActualMethod(e.compMethod), stat.size.value) > UINT32_MAX)
  }

  // The method and flags of the copy change with the attributes of the source, the sizes with its data, but not what
  // is of variable length.
  predicate SameNames(d: Dirent, e: Dirent) {
    d.filename == e.filename && d.comment == e.comment && d.local == e.local && d.encryption == e.encryption
  }

  // A size of exactly 0xFFFFFFFF with none larger.
  predicate OnTheEdge(d: Dirent) {
    NeedsZip64(d, true) && !OverLimit(d, true)
  }

  lemma {:induction false} SizeOfBoth(a: seq<Field>, b: seq<Field>)
    ensures Size(a + b) == Size(a) + Size(b)
  {
    if a == [] {
      assert a + b == b;
    } else {
      assert (a + b)[1..] == a[1..] + b;
      SizeOfBoth(a[1..], b);
    }
  }

  lemma SizeIf(on: bool, f: Field)
    ensures Size(FieldIf(on, f)) == if on then 4 + |f.data| else 0
  {
    assert Size([f][1..]) == 0;
  }

  lemma OwnSize(d: Dirent, force: bool, crc32: Crc32)
    requires NamesFit(d, true)
    ensures Size(OwnFields(d, true, force, crc32)) ==
            (if IsAes(d.encryption) then 11 else 0)
              + (if force || NeedsZip64(d, true) then 4 + |Zip64Data(d, true, force)| else 0)
            + Size(NameFields(d, true, crc32))
  {
    hide NameFields, Zip64Data, NeedsZip64, FieldIf;
    var zip64 := FieldIf(force || NeedsZip64(d, true), Field(EF_ZIP64, Zip64Data(d, true, force)));
    SizeOfBoth(FieldIf(IsAes(d.encryption), AesField(d)), zip64 + NameFields(d, true, crc32));
    SizeOfBoth(zip64, NameFields(d, true, crc32));
    SizeIf(IsAes(d.encryption), AesField(d));
    SizeIf(force || NeedsZip64(d, true), Field(EF_ZIP64, Zip64Data(d, true, force)));
  }

  // How much shorter a header is than its Zip64 field should make it.
  function Gap(d: Dirent, force: bool): nat {
    if !force && OnTheEdge(d) then 16 else 0
  }

  // Two local headers for the same entry that agree about Zip64 are of the same length, but for empty Zip64 fields.
  lemma HeaderLengths(d: Dirent, e: Dirent, force: bool, crc32: Crc32)
    requires Storable(d) && Storable(e) && SameNames(d, e)
    requires WriteHeader(d, true, force, crc32).Some? && WriteHeader(e, true, force, crc32).Some?
    requires (force || NeedsZip64(d, true)) == (force || NeedsZip64(e, true))
    ensures |WriteHeader(d, true, force, crc32).value| + Gap(d, force) ==
            |WriteHeader(e, true, force, crc32).value| + Gap(e, force)
  {
    hide EncodeFixed, OwnFields, NameFields, FixedOf, IsAes, Write, Size;
    OwnSize(d, force, crc32);
    OwnSize(e, force, crc32);
    SizeIsLength(OwnFields(d, true, force, crc32));
    SizeIsLength(OwnFields(e, true, force, crc32));
    SameNameFields(d, e, crc32);
  }

  lemma SameNameFields(d: Dirent, e: Dirent, crc32: Crc32)
    requires SameNames(d, e) && NamesFit(d, true) && NamesFit(e, true)
    ensures NameFields(d, true, crc32) == NameFields(e, true, crc32)
  {
    hide Known;
  }

  // What an entry should look like in the file.
  function Complete(d: Dirent, force: bool, data: seq<byte>, crc32: Crc32): seq<byte>
    requires Storable(d) && WriteHeader(d, true, force, crc32).Some?
  {
    WriteHeader(d, true, force, crc32).value + data + Trailer(d, force || NeedsZip64(d, true))
  }

  // Whether the two headers disagree about Zip64, which makes closing fail (lines 613-617).
  predicate Mismatch(first: Dirent, final: Dirent, force: bool) {
    (force || NeedsZip64(first, true)) != (force || NeedsZip64(final, true))
  }

  // Whether the header is written again. The method is compared as it is stored, so that the default one is not taken
  // to have changed when the data was deflated (lines 583, 589-602).
  predicate Rewritten(first: Dirent, final: Dirent) {
    ActualMethod(first.compMethod) != final.compMethod || first.(compMethod := final.compMethod) != final
  }

  // The dirent of the header that stays in the file.
  function LastWritten(first: Dirent, final: Dirent): Dirent {
    if Rewritten(first, final) then final else first
  }

  // The file after the entry was added at its cursor: header and data, the header again in its place if it changed,
  // and the descriptor behind the data (lines 542-630).
  function AddEntry(file: File, first: Dirent, final: Dirent, force: bool, data: seq<byte>,
      crc32: Crc32): (r: Option<File>)
    requires file.pos <= |file.bytes| && Storable(first) && Storable(final)
    ensures r.Some? ==> r.value.pos <= |r.value.bytes|
  {
    var header := WriteHeader(first, true, force, crc32);
    if header.None? then None
    else
      var written := file.Write(header.value).Write(data);
      if !Rewritten(first, final) then Some(written.Write(Trailer(final, force || NeedsZip64(first, true))))
      else
        var again := WriteHeader(final, true, force, crc32);
        if again.None? || Mismatch(first, final, force) then None
        else
          var rewritten := File(Overwrite(written.bytes, file.pos, again.value), written.pos);
          Some(rewritten.Write(Trailer(final, force || NeedsZip64(first, true))))
  }

  // The header that is written last takes the place of the first, and of some data if it is longer.
  lemma SecondHeader(file: File, first: Dirent, final: Dirent, force: bool, data: seq<byte>, crc32: Crc32)
    requires file.pos <= |file.bytes| && Storable(first) && Storable(final)
    requires AddEntry(file, first, final, force, data, crc32).Some?
    ensures var last := LastWritten(first, final);
            && WriteHeader(first, true, force, crc32).Some? && WriteHeader(last, true, force, crc32).Some?
            && !Mismatch(first, last, force) && !Mismatch(first, final, force)
    ensures var h := WriteHeader(first, true, force, crc32).value;
            var h' := WriteHeader(LastWritten(first, final), true, force, crc32).value;
            |h'| <= |h + data| ==>
              AddEntry(file, first, final, force, data, crc32).value ==
              file.Write(h' + (h + data)[|h'|..] + Trailer(final, force || NeedsZip64(final, true)))
    ensures AddEntry(file, first, final, force, data, crc32).value.pos ==
            file.pos + |WriteHeader(first, true, force, crc32).value| + |data|
              + |Trailer(final, force || NeedsZip64(final, true))|
  {
    assert !Rewritten(first, final) ==> NeedsZip64(first, true) == NeedsZip64(final, true);
    hide WriteHeader, NeedsZip64, Trailer, Overwrite, Rewritten;
    var h := WriteHeader(first, true, force, crc32).value;
    var h' := WriteHeader(LastWritten(first, final), true, force, crc32).value;
    WriteTwice(file, h, data);
    if |h'| <= |h + data| {
      OverwriteStart(file.bytes, file.pos, h + data, h');
      WriteTwice(file, h' + (h + data)[|h'|..], Trailer(final, force || NeedsZip64(final, true)));
      assert !Rewritten(first, final) ==> h' + (h + data)[|h'|..] == h + data;
    }
  }

  // What is added is the header that was written last, the data and the descriptor, if and only if not exactly one of
  // the two headers has an empty Zip64 field.
  lemma HeaderKeepsOffData(file: File, first: Dirent, final: Dirent, force: bool, data: seq<byte>, crc32: Crc32)
    requires file.pos <= |file.bytes| && Storable(first) && Storable(final) && SameNames(first, final)
    requires AddEntry(file, first, final, force, data, crc32).Some?
    ensures WriteHeader(LastWritten(first, final), true, force, crc32).Some?
    ensures AddEntry(file, first, final, force, data, crc32).value ==
            file.Write(Complete(LastWritten(first, final), force, data, crc32))
            <==> (force || (OnTheEdge(first) <==> OnTheEdge(final)))
  {
    LastIsLike(first, final);
    hide WriteHeader, OnTheEdge, NeedsZip64, Trailer, Overwrite, Rewritten, LastWritten;
    SecondHeader(file, first, final, force, data, crc32);
    var last := LastWritten(first, final);
    var h, h' := WriteHeader(first, true, force, crc32).value, WriteHeader(last, true, force, crc32).value;
    HeaderLengths(first, last, force, crc32);
    assert |h'| == |h| ==> (h + data)[|h'|..] == data;
  }

  // The dirent of the header differs from the final one only in the method.
  lemma LastIsLike(first: Dirent, final: Dirent)
    requires SameNames(first, final)
    ensures var last := LastWritten(first, final);
            && SameNames(first, last) && last.(compMethod := final.compMethod) == final
            && NeedsZip64(last, true) == NeedsZip64(final, true) && OnTheEdge(last) == OnTheEdge(final)
            && (forall isZip64 :: Trailer(last, isZip64) == Trailer(final, isZip64))
            && (last != final ==> last == first && last.compMethod == CM_DEFAULT && final.compMethod == CM_DEFLATE)
  {
    hide Bit;
  }

  // The default method, where it is stored in the field for AES: deflated data that changes neither checksum nor sizes.
  predicate KeepsDefault(first: Dirent, final: Dirent) {
    IsAes(first.encryption) && first.compMethod == CM_DEFAULT && final == first.(compMethod := CM_DEFLATE)
  }

  // What is added is what the final dirent says, if and only if this is neither of the two exceptions.
  lemma EntryIsComplete(file: File, first: Dirent, final: Dirent, force: bool, data: seq<byte>, crc32: Crc32)
    requires file.pos <= |file.bytes| && Storable(first) && Storable(final) && SameNames(first, final)
    requires AddEntry(file, first, final, force, data, crc32).Some?
    ensures WriteHeader(final, true, force, crc32).Some?
    ensures AddEntry(file, first, final, force, data, crc32).value == file.Write(Complete(final, force, data, crc32))
            <==> (force || (OnTheEdge(first) <==> OnTheEdge(final))) && !KeepsDefault(first, final)
  {
    LastIsLike(first, final);
    HeaderKeepsOffData(file, first, final, force, data, crc32);
    var last := LastWritten(first, final);
    if last != final {
      hide WriteHeader, Rewritten, Trailer, Overwrite, NeedsZip64, OnTheEdge;
      DefaultHeader(last, final, force, crc32);
      if IsAes(first.encryption) {
        var h, h' := WriteHeader(last, true, force, crc32).value, WriteHeader(final, true, force, crc32).value;
        WrittenDiffers(file, h, h', data, Trailer(final, force || NeedsZip64(final, true)));
      }
    }
  }

  lemma WrittenDiffers(file: File, a: seq<byte>, b: seq<byte>, data: seq<byte>, trailer: seq<byte>)
    requires file.pos <= |file.bytes| && |a| == |b| && a != b
    ensures file.Write(a + data + trailer) != file.Write(b + data + trailer)
  {
    var x, y := a + data + trailer, b + data + trailer;
    assert x[..|a|] == a && y[..|a|] == b;
    assert file.Write(x).bytes[file.pos..file.pos + |x|] == x;
    assert file.Write(y).bytes[file.pos..file.pos + |y|] == y;
  }

  // The field for AES comes first behind the name, and ends with the method.
  lemma MethodByte(d: Dirent, force: bool, crc32: Crc32)
    requires Storable(d) && IsAes(d.encryption) && WriteHeader(d, true, force, crc32).Some?
    ensures var h, at := WriteHeader(d, true, force, crc32).value, 30 + |Raw(d.filename)| + 9;
            at < |h| && h[at] == d.compMethod % 0x1_0000 % 0x100
  {
    hide FixedOf, NameFields, Zip64Data, NeedsZip64, IsAes;
    var own := OwnFields(d, true, force, crc32);
    var field := WriteField(AesField(d));
    assert own[0] == AesField(d) && Write(own) == field + Write(own[1..]);
    assert field[9] == d.compMethod % 0x1_0000 % 0x100;
    var h, start := WriteHeader(d, true, force, crc32).value, 30 + |Raw(d.filename)|;
    assert h[start..start + 11] == field;
    assert h[start..start + 11][9] == h[start + 9];
  }

  lemma SameFixedPart(d: Dirent, e: Dirent)
    requires Storable(d) && d.compMethod == CM_DEFAULT && e == d.(compMethod := CM_DEFLATE)
    ensures forall n :: FixedOf(e, true, n) == FixedOf(d, true, n)
  {
    hide Known, WithBit;
  }

  // The default method is stored like deflate, but for the field for AES.
  lemma DefaultHeader(d: Dirent, e: Dirent, force: bool, crc32: Crc32)
    requires Storable(d) && d.compMethod == CM_DEFAULT && e == d.(compMethod := CM_DEFLATE)
    requires WriteHeader(d, true, force, crc32).Some?
    ensures WriteHeader(e, true, force, crc32).Some?
    ensures |WriteHeader(e, true, force, crc32).value| == |WriteHeader(d, true, force, crc32).value|
    ensures WriteHeader(e, true, force, crc32) == WriteHeader(d, true, force, crc32) <==> !IsAes(d.encryption)
  {
    hide EncodeFixed, NameFields, FixedOf, IsAes, Write, Size, Known, WithBit;
    OwnSize(d, force, crc32);
    OwnSize(e, force, crc32);
    SameNameFields(d, e, crc32);
    SizeIsLength(OwnFields(d, true, force, crc32));
    SizeIsLength(OwnFields(e, true, force, crc32));
    SameFixedPart(d, e);
    if IsAes(d.encryption) {
      MethodByte(d, force, crc32);
      MethodByte(e, force, crc32);
    }
  }

  lemma EdgeIsRewritten(first: Dirent, final: Dirent)
    requires OnTheEdge(first) != OnTheEdge(final)
    ensures LastWritten(first, final) == final
  {
  }

  // Otherwise a longer second header overwrites the first 16 bytes of the data, and a shorter one leaves 16 bytes of
  // the first header before them.
  lemma EdgeSpoilsData(file: File, first: Dirent, final: Dirent, force: bool, data: seq<byte>, crc32: Crc32)
    requires file.pos <= |file.bytes| && Storable(first) && Storable(final) && SameNames(first, final) && |data| >= 16
    requires AddEntry(file, first, final, force, data, crc32).Some? && !force && OnTheEdge(first) != OnTheEdge(final)
    ensures WriteHeader(first, true, force, crc32).Some? && WriteHeader(final, true, force, crc32).Some?
    ensures var h, h' := WriteHeader(first, true, force, crc32).value, WriteHeader(final, true, force, crc32).value;
            && |h| >= 16
            && AddEntry(file, first, final, force, data, crc32).value ==
               file.Write(h' + (if OnTheEdge(first) then data[16..] else h[|h| - 16..] + data) +
                          Trailer(final, NeedsZip64(final, true)))
  {
    hide WriteHeader, OnTheEdge, NeedsZip64, Trailer, Overwrite, Rewritten, LastWritten, SameNames;
    EdgeIsRewritten(first, final);
    SecondHeader(file, first, final, force, data, crc32);
    var h, h' := WriteHeader(first, true, force, crc32).value, WriteHeader(final, true, force, crc32).value;
    HeaderLengths(first, final, force, crc32);
    AtLeastFixed(first, force, crc32);
    assert if OnTheEdge(first) then (h + data)[|h'|..] == data[16..] else (h + data)[|h'|..] == h[|h| - 16..] + data;
  }

  lemma AtLeastFixed(d: Dirent, force: bool, crc32: Crc32)
    requires Storable(d) && WriteHeader(d, true, force, crc32).Some?
    ensures |WriteHeader(d, true, force, crc32).value| >= 30
  {
    hide OwnFields, FixedOf;
  }

  lemma NamelessHeader(d: Dirent, force: bool, crc32: Crc32)
    requires d.filename.None? && d.comment.None? && d.local == []
    ensures WriteHeader(d, true, force, crc32).Some?
  {
    hide OwnFields, FixedOf, EncodeFixed, IsAes;
    OwnSize(d, force, crc32);
  }

  // Data of 0xFFFFFFFF bytes that is stored with PKWARE encryption: its first 16 bytes are overwritten.
  lemma StoredAndEncryptedOnTheEdge(file: File, bound: Bound, data: seq<byte>, crc32: Crc32)
    requires file.pos <= |file.bytes| && |data| == UINT32_MAX + 12
    ensures var d := NEW_DIRENT.(compMethod := CM_STORE, encryption := EM_TRAD_PKWARE);
            var stat := Stat(Some(UINT32_MAX), None, CM_STORE, None, EM_NONE);
            var (first, force) := Preliminary(d, Changes(true, true), stat, bound);
            var final := first.(compSize := |data|);
            && WriteHeader(final, true, force, crc32).Some?
            && AddEntry(file, first, final, force, data, crc32) ==
               Some(file.Write(WriteHeader(final, true, force, crc32).value + data[16..]
                               + WriteDescriptor(final, true)))
            && AddEntry(file, first, final, force, data, crc32) != Some(file.Write(Complete(final, force, data, crc32)))
  {
    hide WriteHeader, Overwrite, WriteDescriptor;
    var d := NEW_DIRENT.(compMethod := CM_STORE, encryption := EM_TRAD_PKWARE);
    var stat := Stat(Some(UINT32_MAX), None, CM_STORE, None, EM_NONE);
    var (first, force) := Preliminary(d, Changes(true, true), stat, bound);
    var final := first.(compSize := |data|);
    assert !force && OnTheEdge(first) && !OnTheEdge(final) && Bit(final.bitFlags, DATA_DESCRIPTOR);
    NamelessHeader(first, force, crc32);
    NamelessHeader(final, force, crc32);
    EdgeSpoilsData(file, first, final, force, data, crc32);
    EntryIsComplete(file, first, final, force, data, crc32);
  }

  // The data of an AES entry is replaced by the same data with AES encryption, and no method is chosen: the header is
  // not written again, and its field for AES keeps the default method, 0xFFFF.
  lemma DefaultMethodStays(file: File, crc: uint32, data: seq<byte>, crc32: Crc32)
    requires file.pos <= |file.bytes| && |data| == 88
    ensures var d :=
              NEW_DIRENT.(versionNeeded := 51, encryption := EM_AES_256, crc := crc, compSize := 88, uncompSize := 100);
            var stat := Stat(Some(100), None, CM_STORE, None, EM_NONE);
            var (first, force) := Preliminary(d, Changes(false, true), stat, (_, size) => DeflateBound(size));
            var final := first.(compMethod := CM_DEFLATE);
            && WriteHeader(first, true, force, crc32).Some? && WriteHeader(final, true, force, crc32).Some?
            && AddEntry(file, first, final, force, data, crc32) ==
               Some(file.Write(WriteHeader(first, true, force, crc32).value + data))
            && AddEntry(file, first, final, force, data, crc32) != Some(file.Write(Complete(final, force, data, crc32)))
  {
    hide WriteHeader, Overwrite;
    var d := NEW_DIRENT.(versionNeeded := 51, encryption := EM_AES_256, crc := crc, compSize := 88, uncompSize := 100);
    var stat := Stat(Some(100), None, CM_STORE, None, EM_NONE);
    var (first, force) := Preliminary(d, Changes(false, true), stat, (_, size) => DeflateBound(size));
    var final := first.(compMethod := CM_DEFLATE);
    assert KeepsDefault(first, final) && !Rewritten(first, final) && !Bit(final.bitFlags, DATA_DESCRIPTOR);
    NamelessHeader(first, force, crc32);
    NamelessHeader(final, force, crc32);
    HeaderKeepsOffData(file, first, final, force, data, crc32);
    EntryIsComplete(file, first, final, force, data, crc32);
    var h := WriteHeader(first, true, force, crc32).value;
    assert h + data + [] == h + data;
  }

  // If the source reports its sizes correctly and encryption or decryption changes them by the given amount, the two
  // headers disagree about Zip64 exactly if this makes a known size cross 0xFFFFFFFF, or, where the size is not known,
  // no Zip64 field is forced and the size the entry had before is on the other side.
  lemma Zip64Mismatch(d: Dirent, changes: Changes, stat: Stat, bound: Bound, final: Dirent, overhead: int)
    requires stat.size.Some? ==> final.uncompSize == stat.size.value
    requires var known := Planned(d, changes, stat).1;
             stat.size.Some? && known.Some? ==> final.compSize == known.value + overhead
    ensures var (planned, known) := Planned(d, changes, stat);
            var (first, force) := Preliminary(d, changes, stat, bound);
            Mismatch(first, final, force) <==>
              && stat.size.Some? && stat.size.value < UINT32_MAX
              && match known
                 case Some(c) => (c < UINT32_MAX) != (c + overhead < UINT32_MAX)
                 case None =>
                   && bound(ActualMethod(planned.compMethod), stat.size.value) <= UINT32_MAX
                   && (d.compSize < UINT32_MAX) != (final.compSize < UINT32_MAX)
  {
    hide WithBit;
  }

  // An entry that is new had no size before: if its data keeps within the bound and is not encrypted, it has to be of
  // 0xFFFFFFFF bytes, and the bound as well.
  lemma NewEntryMismatch(changes: Changes, stat: Stat, bound: Bound, d: Dirent, final: Dirent)
    requires d.compSize == 0
    requires stat.size.Some? ==> final.uncompSize == stat.size.value
    requires var known := Planned(d, changes, stat).1;
             stat.size.Some? ==>
               if known.Some? then final.compSize == known.value
               else final.compSize <= bound(ActualMethod(Planned(d, changes, stat).0.compMethod), stat.size.value)
    ensures var (planned, known) := Planned(d, changes, stat);
            var (first, force) := Preliminary(d, changes, stat, bound);
            Mismatch(first, final, force) <==>
              && stat.size.Some? && stat.size.value < UINT32_MAX && known.None?
              && bound(ActualMethod(planned.compMethod), stat.size.value) == UINT32_MAX == final.compSize
  {
    Zip64Mismatch(d, changes, stat, bound, final, 0);
  }

  // The data of an entry of 5 GiB is replaced by five bytes from a source that is to be compressed: closing fails,
  // since the entry still has its old size when the header is first written.
  lemma ReplacedByLess(file: File, data: seq<byte>, crc32: Crc32)
    requires file.pos <= |file.bytes| && |data| == 5
    ensures var d := NEW_DIRENT.(compSize := 0x1_4000_0000, uncompSize := 0x1_4000_0000);
            var stat := Stat(Some(5), None, CM_STORE, None, EM_NONE);
            var (first, force) := Preliminary(d, Changes(false, false), stat, (_, size) => DeflateBound(size));
            AddEntry(file, first, first.(compMethod := CM_STORE, compSize := |data|), force, data, crc32).None?
  {
    hide WriteHeader, WithBit;
  }

  // (lines 542-630)
  method AddToFile(file: File, first: Dirent, final: Dirent, force: bool, data: seq<byte>, crc32: Crc32)
      returns (r: Option<File>)
    requires file.pos <= |file.bytes| && Storable(first) && Storable(final)
    ensures r == AddEntry(file, first, final, force, data, crc32)
  {
    hide WriteHeader, NeedsZip64, Overwrite;
    var offstart := file.pos;
    var header := WriteDirent(first, true, force, crc32, []);
    if header.None? {
      return None;
    }
    assert [] + WriteHeader(first, true, force, crc32).value == WriteHeader(first, true, force, crc32).value;
    var (bytes, isZip64) := header.value;
    var out := file.Write(bytes);
    out := out.Write(data);
    if ActualMethod(first.compMethod) != final.compMethod || first.(compMethod := final.compMethod) != final {
      var offend := out.pos;
      out := out.(pos := offstart);
      var again := WriteDirent(final, true, force, crc32, []);
      if again.None? || isZip64 != again.value.1 {
        return None;
      }
      assert [] + WriteHeader(final, true, force, crc32).value == WriteHeader(final, true, force, crc32).value;
      out := out.Write(again.value.0);
      out := out.(pos := offend);
    }
    if Bit(final.bitFlags, DATA_DESCRIPTOR) {
      out := out.Write(WriteDescriptor(final, isZip64));
    } else {
      OverwriteNothing(out.bytes, out.pos, []);
    }
    return Some(out);
  }

  // --- the first header ---

  // The first header has what the source tells, and otherwise what the entry had before; the method is that of data
  // that is taken as it is compressed, unless another one was chosen; there is a descriptor if and only if the data
  // will be encrypted the PKWARE way.
  lemma FirstHeaderTells(d: Dirent, changes: Changes, stat: Stat, bound: Bound)
    ensures var (first, force) := Preliminary(d, changes, stat, bound);
            var taken := !changes.compMethod && stat.compMethod != CM_STORE;
            && first.compMethod == (if taken then stat.compMethod else d.compMethod)
            && first.crc == (if stat.crc.Some? then stat.crc.value else d.crc)
            && first.uncompSize == (if stat.size.Some? then stat.size.value else d.uncompSize)
            && first.compSize ==
               (if stat.size.None? then d.compSize
                else if taken then if stat.compSize.Some? then stat.compSize.value else d.compSize
                else if d.compMethod == CM_STORE then stat.size.value else d.compSize)
            && SameNames(first, d)
            && (stat.size.None? ==> force)
            && (stat.size.Some? && (if taken then stat.compSize.Some? else d.compMethod == CM_STORE) ==> !force)
            && (Bit(first.bitFlags, DATA_DESCRIPTOR) <==>
                  && d.encryption == EM_TRAD_PKWARE
                  && (ActualMethod(first.compMethod) != stat.compMethod || changes.password
                      || stat.encryption != EM_TRAD_PKWARE))
  {
    SetBit(d.bitFlags);
    hide Bit, WithBit;
  }

  lemma SetBit(flags: uint16)
    ensures forall on,
            on' :: Bit(WithBit(WithBit(flags, DATA_DESCRIPTOR, on), DATA_DESCRIPTOR, on'), DATA_DESCRIPTOR) == on'
  {
    var f: int := flags;
    var high, low := f / 0x10, f % 8;
    assert f == high * 0x10 + f / 8 % 2 * 8 + low;
    Raised(high, low);
  }

  lemma Raised(high: nat, low: nat)
    requires low < 8
    ensures (high * 0x10 + low) / 8 % 2 == 0 && (high * 0x10 + 8 + low) / 8 % 2 == 1
  {
    assert (high * 0x10 + low) / 8 == 2 * high && (high * 0x10 + 8 + low) / 8 == 2 * high + 1;
  }

  // If the source tells the truth about everything beforehand, the header is not written again.
  lemma TruthIsWrittenOnce(d: Dirent, changes: Changes, stat: Stat, bound: Bound, final: Dirent)
    requires var (first, _) := Preliminary(d, changes, stat, bound);
             && stat.crc == Some(final.crc) && stat.size == Some(final.uncompSize)
             && Planned(d, changes, stat).1 == Some(final.compSize)
             && final == first.(crc := final.crc, uncompSize := final.uncompSize, compSize := final.compSize)
             && final.compMethod != CM_DEFAULT
    ensures !Rewritten(Preliminary(d, changes, stat, bound).0, final)
  {
    hide WithBit;
  }
}
