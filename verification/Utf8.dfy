// Text as UTF-8 by section 4 of RFC 3629: which byte strings are well formed, and what they encode.
module Utf8 {
  import opened Bytes

  type CodePoint = c: int | (0 <= c < 0xD800) || (0xDFFF < c <= 0x10FFFF)

  predicate Tail(b: byte) {
    0x80 <= b <= 0xBF
  }

  // The length of the character at the start of s by the grammar of section 4, 0 if there is none.
  function CharLength(s: seq<byte>): (n: nat)
    ensures n <= 4 && n <= |s|
  {
    if |s| >= 1 && s[0] <= 0x7F then 1
    else if |s| >= 2 && 0xC2 <= s[0] <= 0xDF && Tail(s[1]) then 2
    else if |s| >= 3 && Tail(s[2]) &&
      ((s[0] == 0xE0 && 0xA0 <= s[1] <= 0xBF) || (0xE1 <= s[0] <= 0xEC && Tail(s[1])) ||
       (s[0] == 0xED && 0x80 <= s[1] <= 0x9F) || (0xEE <= s[0] <= 0xEF && Tail(s[1]))) then 3
    else if |s| >= 4 && Tail(s[2]) && Tail(s[3]) &&
      ((s[0] == 0xF0 && 0x90 <= s[1] <= 0xBF) || (0xF1 <= s[0] <= 0xF3 && Tail(s[1])) ||
       (s[0] == 0xF4 && 0x80 <= s[1] <= 0x8F)) then 4
    else 0
  }

  predicate WellFormed(s: seq<byte>) {
    s == [] || (CharLength(s) > 0 && WellFormed(s[CharLength(s)..]))
  }

  // The bits a byte after the first adds to a character.
  function Shift(c: int, b: byte): (r: int)
    ensures Tail(b) ==> r == c * 0x40 + (b - 0x80)
  {
    c * 0x40 + b % 0x40
  }

  // The character at the start of s, by the bit layout of section 3.
  function First(s: seq<byte>): (c: CodePoint)
    requires CharLength(s) > 0
    ensures (c < 0x80 <==> CharLength(s) == 1) && (0x80 <= c < 0x800 <==> CharLength(s) == 2)
    ensures 0x800 <= c < 0x10000 <==> CharLength(s) == 3
  {
    var lead: int := s[0];
    match CharLength(s)
    case 1 => lead
    case 2 => Shift(lead - 0xC0, s[1])
    case 3 => Shift(Shift(lead - 0xE0, s[1]), s[2])
    case 4 => Shift(Shift(Shift(lead - 0xF0, s[1]), s[2]), s[3])
  }

  function Decode(s: seq<byte>): seq<CodePoint>
    requires WellFormed(s)
  {
    if s == [] then [] else [First(s)] + Decode(s[CharLength(s)..])
  }

  function TailOf(c: int): byte {
    0x80 + c % 0x40
  }

  // The encoding of one character (lib/zip_utf-8.c:238-259).
  function EncodeOne(c: CodePoint): (s: seq<byte>)
    ensures 1 <= |s| <= 4
  {
    var c: int := c;
    if c < 0x80 then [c]
    else if c < 0x800 then [0xC0 + c / 0x40, TailOf(c)]
    else if c < 0x10000 then [0xE0 + c / 0x40 / 0x40, TailOf(c / 0x40), TailOf(c)]
    else [0xF0 + c / 0x40 / 0x40 / 0x40, TailOf(c / 0x40 / 0x40), TailOf(c / 0x40), TailOf(c)]
  }

  function Encode(cs: seq<CodePoint>): seq<byte> {
    if cs == [] then [] else EncodeOne(cs[0]) + Encode(cs[1..])
  }

  lemma ShiftTail(c: nat)
    ensures Shift(c / 0x40, TailOf(c)) == c && Tail(TailOf(c))
  {
  }

  lemma TailShift(c: nat, b: byte)
    requires Tail(b)
    ensures Shift(c, b) / 0x40 == c && TailOf(Shift(c, b)) == b
  {
  }

  lemma FirstOfOne(c: CodePoint)
    ensures CharLength(EncodeOne(c)) == |EncodeOne(c)| && First(EncodeOne(c)) == c
  {
    hide Shift, TailOf;
    ShiftTail(c);
    ShiftTail(c / 0x40);
    ShiftTail(c / 0x40 / 0x40);
    BoundaryTails(c);
  }

  // The second byte is restricted where the first would allow too small or too large values, or surrogates.
  lemma BoundaryTails(c: CodePoint)
    ensures c >= 0x800 && c / 0x40 / 0x40 == 0 ==> TailOf(c / 0x40) >= 0xA0
    ensures c / 0x40 / 0x40 == 0xD ==> TailOf(c / 0x40) <= 0x9F
    ensures c >= 0x10000 && c / 0x40 / 0x40 / 0x40 == 0 ==> TailOf(c / 0x40 / 0x40) >= 0x90
    ensures c / 0x40 / 0x40 / 0x40 == 4 ==> TailOf(c / 0x40 / 0x40) <= 0x8F
  {
  }

  lemma FirstOfPrefix(s: seq<byte>, rest: seq<byte>)
    requires CharLength(s) == |s| > 0
    ensures CharLength(s + rest) == |s| && First(s + rest) == First(s)
  {
    hide Shift;
    assert forall k :: 0 <= k < |s| ==> (s + rest)[k] == s[k];
  }

  lemma FirstOfEncoded(c: CodePoint, rest: seq<byte>)
    ensures CharLength(EncodeOne(c) + rest) == |EncodeOne(c)| && First(EncodeOne(c) + rest) == c
  {
    hide EncodeOne, CharLength, First;
    FirstOfOne(c);
    FirstOfPrefix(EncodeOne(c), rest);
  }

  lemma FirstIsUnique(s: seq<byte>)
    requires CharLength(s) > 0
    ensures EncodeOne(First(s)) == s[..CharLength(s)]
  {
    hide Shift, TailOf;
    var n, lead: int := CharLength(s), s[0];
    if n == 2 {
      TailShift(lead - 0xC0, s[1]);
    } else if n == 3 {
      TailShift(lead - 0xE0, s[1]);
      TailShift(Shift(lead - 0xE0, s[1]), s[2]);
    } else if n == 4 {
      TailShift(lead - 0xF0, s[1]);
      TailShift(Shift(lead - 0xF0, s[1]), s[2]);
      TailShift(Shift(Shift(lead - 0xF0, s[1]), s[2]), s[3]);
    }
  }

  // Every sequence of characters has a well-formed encoding, and it is read back.
  lemma {:induction false} DecodeOfEncode(cs: seq<CodePoint>)
    ensures WellFormed(Encode(cs)) && Decode(Encode(cs)) == cs
  {
    hide EncodeOne, CharLength, First;
    if cs != [] {
      FirstOfEncoded(cs[0], Encode(cs[1..]));
      assert Encode(cs)[|EncodeOne(cs[0])|..] == Encode(cs[1..]);
      DecodeOfEncode(cs[1..]);
    }
  }

  lemma EncodeCons(c: CodePoint, cs: seq<CodePoint>)
    ensures Encode([c] + cs) == EncodeOne(c) + Encode(cs)
  {
    hide EncodeOne;
    assert ([c] + cs)[1..] == cs;
  }

  // No other bytes are well formed: a character has one encoding only.
  lemma {:induction false} EncodeOfDecode(s: seq<byte>)
    requires WellFormed(s)
    ensures Encode(Decode(s)) == s
  {
    hide EncodeOne, CharLength, First;
    if s != [] {
      var n := CharLength(s);
      FirstIsUnique(s);
      EncodeOfDecode(s[n..]);
      EncodeCons(First(s), Decode(s[n..]));
      assert s == s[..n] + s[n..];
    }
  }
}
