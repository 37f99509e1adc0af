// Guessing the encoding of a string and converting code page 437 to UTF-8 (lib/zip_utf-8.c).
module StringEncoding {
  import opened Bytes
  import opened Utf8

  datatype Encoding = Unknown | Ascii | Utf8Known | Utf8Guessed | Cp437 | Error

  // What the guess must be: the expected encoding if the bytes allow it, else what suits them best.
  function Classify(raw: seq<byte>, expected: Encoding): Encoding {
    match expected
    case Utf8Known | Utf8Guessed => if WellFormed(raw) then Utf8Known else Error
    case Ascii => if PlainAscii(raw) then Ascii else Error
    case Cp437 => Cp437
    case Unknown =>
      if PlainAscii(raw) then Ascii else if AllAscii(raw) then Cp437 else if WellFormed(raw) then Utf8Guessed else Cp437
    case Error => Error
  }

  predicate IsControl(b: byte) {
    b < 32 && b != 0x0D && b != 0x0A && b != 0x09
  }

  predicate AllAscii(raw: seq<byte>) {
    forall k :: 0 <= k < |raw| ==> raw[k] < 128
  }

  predicate PlainAscii(raw: seq<byte>) {
    AllAscii(raw) && forall k :: 0 <= k < |raw| ==> !IsControl(raw[k])
  }

  // Bytes shifted in after the first of a character.
  function Shifted(c: int, tail: seq<byte>): int {
    if tail == [] then c else Shift(Shifted(c, tail[..|tail| - 1]), tail[|tail| - 1])
  }

  predicate AllTails(tail: seq<byte>) {
    forall k :: 0 <= k < |tail| ==> Tail(tail[k])
  }

  // The smallest code point that needs the given number of further bytes.
  const MINIMUM_CODE_POINT: seq<int> := [0, 0x80, 0x800, 0x10000]

  // The first byte announces as many further bytes (lines 130-145).
  function Announced(b: byte): (n: nat) {
    if 0xC0 <= b <= 0xDF then 1 else if 0xE0 <= b <= 0xEF then 2 else if 0xF0 <= b <= 0xF7 then 3 else 0
  }

  function LeadBits(b: byte): int {
    if b <= 0xDF then b % 0x20 else if b <= 0xEF then b % 0x10 else b % 8
  }

  predicate Acceptable(codePoint: int, further: nat)
    requires further < 4
  {
    codePoint >= MINIMUM_CODE_POINT[further] && !(0xD800 <= codePoint <= 0xDFFF) && codePoint <= 0x10FFFF
  }

  // The range test on the code point accepts just the characters of the grammar.
  lemma RangeTestIsGrammar(s: seq<byte>)
    requires s != [] && s[0] >= 128
    ensures var n := Announced(s[0]);
      CharLength(s) ==
      if n > 0 && n < |s| && AllTails(s[1..n + 1]) && Acceptable(Shifted(LeadBits(s[0]), s[1..n + 1]), n) then n + 1
      else 0
  {
    hide Shift, Acceptable;
    var n := Announced(s[0]);
    if n > 0 && n < |s| {
      var t, lead := s[1..n + 1], LeadBits(s[0]);
      TailBytes(s, n);
      ShiftedTails(lead, t);
      if AllTails(t) {
        if n == 1 {
          Boundary1(lead, s[1]);
        } else if n == 2 {
          Boundary2(lead, s[1], s[2]);
        } else {
          Boundary3(lead, s[1], s[2], s[3]);
        }
      }
    }
  }

  lemma TailBytes(s: seq<byte>, n: nat)
    requires 0 < n < |s|
    ensures var t := s[1..n + 1]; t[..n - 1] == s[1..n] && forall k :: 0 <= k < n ==> t[k] == s[k + 1]
    ensures AllTails(s[1..n + 1]) <==> AllTails(s[1..n]) && Tail(s[n])
  {
    var t := s[1..n + 1];
    assert t[n - 1] == s[n];
    assert forall k :: 0 <= k < n - 1 ==> s[1..n][k] == t[k];
  }

  lemma ShiftedTails(c: int, t: seq<byte>)
    requires 1 <= |t| <= 3
    ensures Shifted(c, t) == if |t| == 1 then Shift(c, t[0]) else if |t| == 2 then Shift(Shift(c, t[0]), t[1])
                             else Shift(Shift(Shift(c, t[0]), t[1]), t[2])
  {
    var u := t[..|t| - 1];
    assert Shifted(c, []) == c;
    if |t| == 1 {
      assert u == [];
    } else {
      assert u[|u| - 1] == t[|u| - 1];
      ShiftedTails(c, u);
    }
  }

  lemma Boundary1(lead: int, a: byte)
    requires 0 <= lead < 0x20 && Tail(a)
    ensures Acceptable(Shift(lead, a), 1) <==> lead >= 2
  {
  }

  lemma Boundary2(lead: int, a: byte, b: byte)
    requires 0 <= lead < 0x10 && Tail(a) && Tail(b)
    ensures Acceptable(Shift(Shift(lead, a), b), 2) <==> (lead == 0 ==> a >= 0xA0) && (lead == 0xD ==> a <= 0x9F)
  {
  }

  lemma Boundary3(lead: int, a: byte, b: byte, c: byte)
    requires 0 <= lead < 8 && Tail(a) && Tail(b) && Tail(c)
    ensures Acceptable(Shift(Shift(Shift(lead, a), b), c), 3) <==>
              (lead == 0 ==> a >= 0x90) && lead <= 4 && (lead == 4 ==> a <= 0x8F)
  {
    hide Shift;
    var x := Shift(lead, a);
    ShiftAtLeast(x, b, 0x10);
    ShiftAtLeast(Shift(x, b), c, 0x400);
    ShiftAtLeast(x, b, 0x110);
    ShiftAtLeast(Shift(x, b), c, 0x4400);
    SecondByte(lead, a);
  }

  lemma ShiftAtLeast(c: int, b: byte, bound: int)
    ensures Shift(c, b) >= bound * 0x40 <==> c >= bound
  {
  }

  lemma SecondByte(lead: int, a: byte)
    requires 0 <= lead < 8 && Tail(a)
    ensures Shift(lead, a) >= 0x10 <==> lead > 0 || a >= 0x90
    ensures Shift(lead, a) < 0x110 <==> lead < 4 || (lead == 4 && a <= 0x8F)
  {
  }

  // One multi-byte character at position i (lines 130-165): its number of further bytes, 0 if there is none.
  method ReadCharacter(raw: seq<byte>, i: nat) returns (ulen: nat)
    requires i < |raw| && raw[i] >= 128
    ensures CharLength(raw[i..]) == if ulen == 0 then 0 else ulen + 1
    ensures i + ulen < |raw|
  {
    hide Shift, CharLength, Acceptable;
    ghost var s := raw[i..];
    RangeTestIsGrammar(s);
    ulen := Announced(raw[i]);
    if ulen == 0 || i + ulen >= |raw| {
      return 0;
    }
    var codePoint := LeadBits(raw[i]);
    var j := 1;
    while j <= ulen
      invariant 1 <= j <= ulen + 1 && ulen < |s|
      invariant AllTails(s[1..j]) && codePoint == Shifted(LeadBits(raw[i]), s[1..j])
    {
      assert raw[i + j] == s[1..ulen + 1][j - 1];
      TailBytes(s, j);
      if !Tail(raw[i + j]) {
        return 0;
      }
      codePoint := Shift(codePoint, raw[i + j]);
      j := j + 1;
    }
    if !Acceptable(codePoint, ulen) {
      return 0;
    }
  }

  // The scan finds the well-formed strings, and those of 7-bit characters (lines 121-168).
  method Scan(raw: seq<byte>) returns (canBeAscii: bool, canBeUtf8: bool, hasControlCharacters: bool)
    ensures canBeUtf8 == WellFormed(raw) && canBeAscii == AllAscii(raw)
    ensures canBeAscii ==> hasControlCharacters == !PlainAscii(raw)
  {
    hide CharLength, IsControl;
    canBeAscii, canBeUtf8, hasControlCharacters := true, true, false;
    var i := 0;
    while i < |raw| && canBeUtf8
      invariant i <= |raw|
      invariant canBeUtf8 ==> (WellFormed(raw) <==> WellFormed(raw[i..]))
      invariant !canBeUtf8 ==> !WellFormed(raw) && !canBeAscii
      invariant canBeAscii ==> forall k :: 0 <= k < i ==> raw[k] < 128
      invariant !canBeAscii ==> !AllAscii(raw)
      invariant canBeAscii ==> (hasControlCharacters <==> exists k :: 0 <= k < i && IsControl(raw[k]))
      decreases |raw| - i, canBeUtf8
    {
      if raw[i] < 128 {
        AsciiCharacter(raw[i..]);
        if IsControl(raw[i]) {
          hasControlCharacters := true;
        }
        assert raw[i..][1..] == raw[i + 1..];
        i := i + 1;
      } else {
        canBeAscii := false;
        var ulen := ReadCharacter(raw, i);
        if ulen == 0 {
          canBeUtf8 := false;
        } else {
          assert raw[i..][ulen + 1..] == raw[i + ulen + 1..];
          i := i + ulen + 1;
        }
      }
    }
  }

  // (lines 103-221)
  method GuessEncoding(raw: seq<byte>, stored: Encoding, expected: Encoding) returns (enc: Encoding)
    ensures enc == if stored != Unknown then stored else Classify(raw, expected)
  {
    if stored != Unknown {
      return stored;
    }
    var canBeAscii, canBeUtf8, hasControlCharacters := Scan(raw);
    match expected {
      case Utf8Known | Utf8Guessed =>
        enc := if canBeUtf8 then Utf8Known else Error;
      case Ascii =>
        enc := if canBeAscii && !hasControlCharacters then Ascii else Error;
      case Cp437 =>
        enc := Cp437;
      case Unknown =>
        if canBeAscii && !hasControlCharacters {
          enc := Ascii;
        } else if canBeAscii && hasControlCharacters {
          enc := Cp437;
        } else if canBeUtf8 {
          enc := Utf8Guessed;
        } else {
          enc := Cp437;
        }
      case Error =>
        enc := Error;
    }
  }

  lemma AsciiCharacter(s: seq<byte>)
    requires s != [] && s[0] < 128
    ensures CharLength(s) == 1
  {
  }

  // Of the single bytes, the printable ones of ASCII, delete, tab and the ends of lines are ASCII, and all others are
  // taken for code page 437.
  lemma OneByteGuessed(b: byte)
    ensures Classify([b], Unknown) ==
            if 0x20 <= b <= 0x7F || b == 0x09 || b == 0x0A || b == 0x0D then Ascii else Cp437
  {
    assert [b][0] == b;
    assert b >= 128 ==> CharLength([b]) == 0;
  }

  // A guess is confirmed or refuted by what is expected.
  lemma ExpectedEncodings(raw: seq<byte>)
    ensures Classify(raw, Utf8Known) == Classify(raw, Utf8Guessed) == (if WellFormed(raw) then Utf8Known else Error)
    ensures Classify(raw, Ascii) == (if Classify(raw, Unknown) == Ascii then Ascii else Error)
    ensures Classify(raw, Cp437) == Cp437 && Classify(raw, Error) == Error
    ensures Classify(raw, Unknown) == Utf8Guessed <==> WellFormed(raw) && !AllAscii(raw)
  {
    hide WellFormed;
  }
}
