// Converting code page 437 to UTF-8 (lib/zip_utf-8.c).
module Cp437 {
  import opened Bytes
  import opened Utf8

  type Unit = c: int | 0 <= c < 0xD800
  type Row = r: seq<Unit> | |r| == 16 witness seq(16, _ => 0)

  // The table of lines 40-87, in four parts.
  const PART_0: seq<Row> := [
    [0x0000, 0x263A, 0x263B, 0x2665, 0x2666, 0x2663, 0x2660, 0x2022,
     0x25D8, 0x25CB, 0x25D9, 0x2642, 0x2640, 0x266A, 0x266B, 0x263C],
    [0x25BA, 0x25C4, 0x2195, 0x203C, 0x00B6, 0x00A7, 0x25AC, 0x21A8,
     0x2191, 0x2193, 0x2192, 0x2190, 0x221F, 0x2194, 0x25B2, 0x25BC],
    [0x0020, 0x0021, 0x0022, 0x0023, 0x0024, 0x0025, 0x0026, 0x0027,
     0x0028, 0x0029, 0x002A, 0x002B, 0x002C, 0x002D, 0x002E, 0x002F],
    [0x0030, 0x0031, 0x0032, 0x0033, 0x0034, 0x0035, 0x0036, 0x0037,
     0x0038, 0x0039, 0x003A, 0x003B, 0x003C, 0x003D, 0x003E, 0x003F]]

  const PART_1: seq<Row> := [
    [0x0040, 0x0041, 0x0042, 0x0043, 0x0044, 0x0045, 0x0046, 0x0047,
     0x0048, 0x0049, 0x004A, 0x004B, 0x004C, 0x004D, 0x004E, 0x004F],
    [0x0050, 0x0051, 0x0052, 0x0053, 0x0054, 0x0055, 0x0056, 0x0057,
     0x0058, 0x0059, 0x005A, 0x005B, 0x005C, 0x005D, 0x005E, 0x005F],
    [0x0060, 0x0061, 0x0062, 0x0063, 0x0064, 0x0065, 0x0066, 0x0067,
     0x0068, 0x0069, 0x006A, 0x006B, 0x006C, 0x006D, 0x006E, 0x006F],
    [0x0070, 0x0071, 0x0072, 0x0073, 0x0074, 0x0075, 0x0076, 0x0077,
     0x0078, 0x0079, 0x007A, 0x007B, 0x007C, 0x007D, 0x007E, 0x2302]]

  const PART_2: seq<Row> := [
    [0x00C7, 0x00FC, 0x00E9, 0x00E2, 0x00E4, 0x00E0, 0x00E5, 0x00E7,
     0x00EA, 0x00EB, 0x00E8, 0x00EF, 0x00EE, 0x00EC, 0x00C4, 0x00C5],
    [0x00C9, 0x00E6, 0x00C6, 0x00F4, 0x00F6, 0x00F2, 0x00FB, 0x00F9,
     0x00FF, 0x00D6, 0x00DC, 0x00A2, 0x00A3, 0x00A5, 0x20A7, 0x0192],
    [0x00E1, 0x00ED, 0x00F3, 0x00FA, 0x00F1, 0x00D1, 0x00AA, 0x00BA,
     0x00BF, 0x2310, 0x00AC, 0x00BD, 0x00BC, 0x00A1, 0x00AB, 0x00BB],
    [0x2591, 0x2592, 0x2593, 0x2502, 0x2524, 0x2561, 0x2562, 0x2556,
     0x2555, 0x2563, 0x2551, 0x2557, 0x255D, 0x255C, 0x255B, 0x2510]]

  const PART_3: seq<Row> := [
    [0x2514, 0x2534, 0x252C, 0x251C, 0x2500, 0x253C, 0x255E, 0x255F,
     0x255A, 0x2554, 0x2569, 0x2566, 0x2560, 0x2550, 0x256C, 0x2567],
    [0x2568, 0x2564, 0x2565, 0x2559, 0x2558, 0x2552, 0x2553, 0x256B,
     0x256A, 0x2518, 0x250C, 0x2588, 0x2584, 0x258C, 0x2590, 0x2580],
    [0x03B1, 0x00DF, 0x0393, 0x03C0, 0x03A3, 0x03C3, 0x00B5, 0x03C4,
     0x03A6, 0x0398, 0x03A9, 0x03B4, 0x221E, 0x03C6, 0x03B5, 0x2229],
    [0x2261, 0x00B1, 0x2265, 0x2264, 0x2320, 0x2321, 0x00F7, 0x2248,
     0x00B0, 0x2219, 0x00B7, 0x221A, 0x207F, 0x00B2, 0x25A0, 0x00A0]]

  function Unicode(b: byte): (c: CodePoint)
    ensures c < 0x10000
  {
    var part := if b < 0x40 then PART_0 else if b < 0x80 then PART_1 else if b < 0xC0 then PART_2 else PART_3;
    part[b / 16 % 4][b % 16]
  }

  lemma PrintableAscii(b: byte)
    requires 0x20 <= b <= 0x7E
    ensures Unicode(b) == b
  {
    hide PART_0, PART_1, PART_2, PART_3;
    if b < 0x40 {
      AsciiInPart0(b / 16, b % 16);
    } else {
      AsciiInPart1(b / 16 % 4, b % 16);
    }
  }

  lemma AsciiInPart0(row: nat, k: nat)
    requires 2 <= row < 4 && k < 16
    ensures PART_0[row][k] == 16 * row + k
  {
  }

  lemma AsciiInPart1(row: nat, k: nat)
    requires row < 4 && k < 16 && !(row == 3 && k == 15)
    ensures PART_1[row][k] == 0x40 + 16 * row + k
  {
  }

  lemma NotZero(b: byte)
    requires b != 0
    ensures Unicode(b) != 0
  {
    if b < 0x40 {
      NotZeroInPart0(b);
    }
  }

  lemma NotZeroInPart0(b: byte)
    requires 0 < b < 0x40
    ensures PART_0[b / 16][b % 16] != 0
  {
  }

  function Characters(raw: seq<byte>): seq<CodePoint> {
    seq(|raw|, k requires 0 <= k < |raw| => Unicode(raw[k]))
  }

  // (lines 224-235)
  function UnicodeToUtf8Length(c: CodePoint): (n: nat)
    ensures n == |EncodeOne(c)|
  {
    if c < 0x80 then 1 else if c < 0x800 then 2 else if c < 0x10000 then 3 else 4
  }

  // (lines 238-259)
  method UnicodeToUtf8(codePoint: CodePoint, buf: array<byte>, offset: nat) returns (n: nat)
    requires offset + UnicodeToUtf8Length(codePoint) <= buf.Length
    modifies buf
    ensures n == |EncodeOne(codePoint)| && buf[offset..offset + n] == EncodeOne(codePoint)
    ensures forall k :: 0 <= k < offset || offset + n <= k < buf.Length ==> buf[k] == old(buf[k])
  {
    hide EncodeOne;
    ShiftsAndMasks(codePoint);
    var c: int := codePoint;
    if c < 0x80 {
      buf[offset] := c;
      return 1;
    }
    if c < 0x800 {
      buf[offset] := 0xC0 + c / 0x40 % 0x20;
      buf[offset + 1] := 0x80 + c % 0x40;
      return 2;
    }
    if c < 0x10000 {
      buf[offset] := 0xE0 + c / 0x1000 % 0x10;
      buf[offset + 1] := 0x80 + c / 0x40 % 0x40;
      buf[offset + 2] := 0x80 + c % 0x40;
      return 3;
    }
    buf[offset] := 0xF0 + c / 0x40000 % 8;
    buf[offset + 1] := 0x80 + c / 0x1000 % 0x40;
    buf[offset + 2] := 0x80 + c / 0x40 % 0x40;
    buf[offset + 3] := 0x80 + c % 0x40;
    return 4;
  }

  lemma ShiftsAndMasks(codePoint: CodePoint)
    ensures var c: int := codePoint;
      EncodeOne(codePoint) ==
        if c < 0x80 then [c]
        else if c < 0x800 then [0xC0 + c / 0x40 % 0x20, 0x80 + c % 0x40]
        else if c < 0x10000 then [0xE0 + c / 0x1000 % 0x10, 0x80 + c / 0x40 % 0x40, 0x80 + c % 0x40]
        else [0xF0 + c / 0x40000 % 8, 0x80 + c / 0x1000 % 0x40, 0x80 + c / 0x40 % 0x40, 0x80 + c % 0x40]
  {
    var c: int := codePoint;
    assert c / 0x1000 == c / 0x40 / 0x40 && c / 0x40000 == c / 0x40 / 0x40 / 0x40;
  }

  lemma {:induction false} EncodeAppend(cs: seq<CodePoint>, c: CodePoint)
    ensures Encode(cs + [c]) == Encode(cs) + EncodeOne(c)
  {
    if cs == [] {
      assert [c][1..] == [];
      assert Encode([]) == [];
    } else {
      assert (cs + [c])[1..] == cs[1..] + [c];
      EncodeAppend(cs[1..], c);
    }
  }

  lemma CharactersAppend(raw: seq<byte>, i: nat)
    requires i < |raw|
    ensures Characters(raw[..i + 1]) == Characters(raw[..i]) + [Unicode(raw[i])]
    ensures Encode(Characters(raw[..i + 1])) == Encode(Characters(raw[..i])) + EncodeOne(Unicode(raw[i]))
  {
    hide Encode, EncodeOne;
    EncodeAppend(Characters(raw[..i]), Unicode(raw[i]));
    assert Characters(raw[..i + 1]) == Characters(raw[..i]) + [Unicode(raw[i])];
  }

  lemma {:induction false} LengthGrows(raw: seq<byte>, i: nat)
    requires i <= |raw|
    ensures |Encode(Characters(raw[..i]))| <= |Encode(Characters(raw))|
    decreases |raw| - i
  {
    if i < |raw| {
      CharactersAppend(raw, i);
      LengthGrows(raw, i + 1);
    } else {
      assert raw[..i] == raw;
    }
  }

  lemma NoCharacters()
    ensures Characters([]) == [] && Encode([]) == []
  {
  }

  // The buffer is as long as computed before, and ends in a zero byte (lines 262-294).
  method Cp437ToUtf8(raw: seq<byte>) returns (utf8: array?<byte>, utf8Length: nat)
    ensures raw == [] ==> utf8 == null && utf8Length == 0
    ensures raw != [] ==> utf8 != null && fresh(utf8) && utf8[..] == Encode(Characters(raw)) + [0]
    ensures utf8Length == |Encode(Characters(raw))| <= 3 * |raw|
  {
    hide EncodeOne, Unicode, Characters, Encode;
    NoCharacters();
    if raw == [] {
      return null, 0;
    }
    var bufferLength: nat := 1;
    for i := 0 to |raw|
      invariant bufferLength == |Encode(Characters(raw[..i]))| + 1 <= 3 * i + 1
    {
      CharactersAppend(raw, i);
      bufferLength := bufferLength + UnicodeToUtf8Length(Unicode(raw[i]));
    }
    assert raw[..|raw|] == raw;
    utf8 := new byte[bufferLength];
    var offset: nat := 0;
    for i := 0 to |raw|
      invariant offset < bufferLength && utf8[..offset] == Encode(Characters(raw[..i]))
    {
      CharactersAppend(raw, i);
      LengthGrows(raw, i + 1);
      var n := UnicodeToUtf8(Unicode(raw[i]), utf8, offset);
      assert utf8[..offset + n] == utf8[..offset] + utf8[offset..offset + n];
      offset := offset + n;
    }
    utf8[bufferLength - 1] := 0;
    assert utf8[..] == utf8[..bufferLength - 1] + [0];
    utf8Length := bufferLength - 1;
  }

  // The result is well-formed UTF-8 and stands for the characters of the table.
  lemma ConvertedIsWellFormed(raw: seq<byte>)
    ensures WellFormed(Encode(Characters(raw))) && Decode(Encode(Characters(raw))) == Characters(raw)
  {
    DecodeOfEncode(Characters(raw));
  }

  // Printable ASCII text stays as it is.
  lemma {:induction false} PrintableUnchanged(raw: seq<byte>)
    requires forall k :: 0 <= k < |raw| ==> 0x20 <= raw[k] <= 0x7E
    ensures Encode(Characters(raw)) == raw
  {
    if raw != [] {
      PrintableAscii(raw[0]);
      PrintableUnchanged(raw[1..]);
      assert Characters(raw)[1..] == Characters(raw[1..]);
    }
  }
}
