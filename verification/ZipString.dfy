// File names as stored and as shown to the user (lib/zip_string.c).
module ZipString {
  import opened Bytes
  import opened StringEncoding
  import Utf8
  import Cp437

  // The encodings a caller can announce.
  datatype Announced = Guess | Utf8 | Cp437

  // A string that is not empty; the empty string is stored as None.
  datatype ZipString = ZipString(raw: seq<byte>, encoding: Encoding)

  type Stored = Option<ZipString>

  // (lines 140-190)
  function New(raw: seq<byte>, announced: Announced): Option<Stored> {
    if raw == [] then Some(None)
    else
      match announced
      case Guess => Some(Some(ZipString(raw, Unknown)))
      case Utf8 => if Classify(raw, Utf8Known) == Error then None else Some(Some(ZipString(raw, Utf8Known)))
      case Cp437 => Some(Some(ZipString(raw, Encoding.Cp437)))
  }

  // The text of a string as UTF-8, guessing what is unknown (lines 80-114).
  function Text(s: Stored): seq<byte> {
    match s
    case None => []
    case Some(z) =>
      var encoding := if z.encoding == Unknown then Classify(z.raw, Unknown) else z.encoding;
      if encoding == Encoding.Cp437 then Utf8.Encode(Cp437.Characters(z.raw)) else z.raw
  }

  // The part of the bytes that C string functions see.
  function CString(bytes: seq<byte>): (s: seq<byte>)
    ensures 0 !in s && s <= bytes
  {
    if bytes == [] || bytes[0] == 0 then [] else [bytes[0]] + CString(bytes[1..])
  }

  // The name under which the index knows a string.
  function NameOf(s: Stored): seq<byte> {
    CString(Text(s))
  }

  // (lines 54-66)
  predicate Equal(a: Stored, b: Stored) {
    match (a, b)
    case (None, None) => true
    case (Some(x), Some(y)) => x.raw == y.raw
    case _ => false
  }
}
