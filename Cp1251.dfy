/**
 * The Windows-1251 (CP1251) single-byte Cyrillic code page, and the
 * conversion of a CP1251 byte string to UTF-8 that the reader applies to the
 * fields of a file whose detected charset is 'iso-8859-1'.
 */
module Cp1251 {
  import opened Wrappers
  import opened Utf8

  /** The one byte the code page leaves unassigned; a converter rejects it. */
  const Unassigned: byte := 0x98

  /**
   * The character a CP1251 byte stands for: ASCII below 0x80, the 64 letters
   * А..я (U+0410..U+044F) in alphabetical order for 0xC0 through 0xFF, and
   * the four rows of the table below for 0x80 through 0xBF.
   */
  function ToUnicode(b: byte): (cp: Option<nat>)
    ensures cp.Some? <==> b != Unassigned
    ensures cp.Some? ==> IsScalar(cp.value) && cp.value < 0x1_0000
    ensures b < 0x80 ==> cp == Some(b as nat)
    ensures 0xC0 <= b ==> cp == Some(0x410 + (b as nat - 0xC0))
  {
    if b < 0x80 then Some(b as nat)
    else if 0xC0 <= b then Some(0x410 + (b as nat - 0xC0))
    else if b < 0x90 then Row8(b)
    else if b < 0xA0 then Row9(b)
    else if b < 0xB0 then RowA(b)
    else RowB(b)
  }

  /** Bytes 0x80..0x8F: Ђ Ѓ ‚ ѓ „ … † ‡ € ‰ Љ ‹ Њ Ќ Ћ Џ. */
  function Row8(b: byte): (cp: Option<nat>)
    requires 0x80 <= b < 0x90
    ensures cp.Some? <==> b != Unassigned
    ensures cp.Some? ==> 0x80 <= cp.value < 0x2200
  {
    match b
      case 0x80 => Some(0x0402)  case 0x81 => Some(0x0403)  case 0x82 => Some(0x201A)  case 0x83 => Some(0x0453)
      case 0x84 => Some(0x201E)  case 0x85 => Some(0x2026)  case 0x86 => Some(0x2020)  case 0x87 => Some(0x2021)
      case 0x88 => Some(0x20AC)  case 0x89 => Some(0x2030)  case 0x8A => Some(0x0409)  case 0x8B => Some(0x2039)
      case 0x8C => Some(0x040A)  case 0x8D => Some(0x040C)  case 0x8E => Some(0x040B)  case _ => Some(0x040F)  // 0x8F
  }

  /** Bytes 0x90..0x9F: ђ ‘ ’ “ ” • – — (unassigned) ™ љ › њ ќ ћ џ. */
  function Row9(b: byte): (cp: Option<nat>)
    requires 0x90 <= b < 0xA0
    ensures cp.Some? <==> b != Unassigned
    ensures cp.Some? ==> 0x80 <= cp.value < 0x2200
  {
    match b
      case 0x90 => Some(0x0452)  case 0x91 => Some(0x2018)  case 0x92 => Some(0x2019)  case 0x93 => Some(0x201C)
      case 0x94 => Some(0x201D)  case 0x95 => Some(0x2022)  case 0x96 => Some(0x2013)  case 0x97 => Some(0x2014)
      case 0x98 => None  case 0x99 => Some(0x2122)  case 0x9A => Some(0x0459)  case 0x9B => Some(0x203A)
      case 0x9C => Some(0x045A)  case 0x9D => Some(0x045C)  case 0x9E => Some(0x045B)  case _ => Some(0x045F)  // 0x9F
  }

  /** Bytes 0xA0..0xAF: no-break space, Ў ў Ј ¤ Ґ ¦ § Ё © Є « ¬ soft hyphen ® Ї. */
  function RowA(b: byte): (cp: Option<nat>)
    requires 0xA0 <= b < 0xB0
    ensures cp.Some? <==> b != Unassigned
    ensures cp.Some? ==> 0x80 <= cp.value < 0x2200
  {
    match b
      case 0xA0 => Some(0x00A0)  case 0xA1 => Some(0x040E)  case 0xA2 => Some(0x045E)  case 0xA3 => Some(0x0408)
      case 0xA4 => Some(0x00A4)  case 0xA5 => Some(0x0490)  case 0xA6 => Some(0x00A6)  case 0xA7 => Some(0x00A7)
      case 0xA8 => Some(0x0401)  case 0xA9 => Some(0x00A9)  case 0xAA => Some(0x0404)  case 0xAB => Some(0x00AB)
      case 0xAC => Some(0x00AC)  case 0xAD => Some(0x00AD)  case 0xAE => Some(0x00AE)  case _ => Some(0x0407)  // 0xAF
  }

  /** Bytes 0xB0..0xBF: ° ± І і ґ µ ¶ · ё № є » ј Ѕ ѕ ї. */
  function RowB(b: byte): (cp: Option<nat>)
    requires 0xB0 <= b < 0xC0
    ensures cp.Some? <==> b != Unassigned
    ensures cp.Some? ==> 0x80 <= cp.value < 0x2200
  {
    match b
      case 0xB0 => Some(0x00B0)  case 0xB1 => Some(0x00B1)  case 0xB2 => Some(0x0406)  case 0xB3 => Some(0x0456)
      case 0xB4 => Some(0x0491)  case 0xB5 => Some(0x00B5)  case 0xB6 => Some(0x00B6)  case 0xB7 => Some(0x00B7)
      case 0xB8 => Some(0x0451)  case 0xB9 => Some(0x2116)  case 0xBA => Some(0x0454)  case 0xBB => Some(0x00BB)
      case 0xBC => Some(0x0458)  case 0xBD => Some(0x0405)  case 0xBE => Some(0x0455)  case _ => Some(0x0457)  // 0xBF
  }

  /**
   * The reverse table: the CP1251 byte for a character, or None when the code
   * page has no byte for it.
   */
  function FromUnicode(cp: nat): (b: Option<byte>)
  {
    if cp < 0x80 then Some(cp as byte)
    else if 0x410 <= cp < 0x450 then Some((cp - 0x410 + 0xC0) as byte)
    else if cp < 0x100 then FromLatin1(cp)
    else if cp < 0x2000 then FromCyrillic(cp)
    else FromPunctuation(cp)
  }

  /** Latin-1 signs (U+00A0..U+00BB) that have a byte in 0x80..0xBF. */
  function FromLatin1(cp: nat): (b: Option<byte>)
    ensures b.Some? ==> 0x80 <= b.value < 0xC0
  {
    match cp
      case 0x00A0 => Some(0xA0)  case 0x00A4 => Some(0xA4)  case 0x00A6 => Some(0xA6)  case 0x00A7 => Some(0xA7)
      case 0x00A9 => Some(0xA9)  case 0x00AB => Some(0xAB)  case 0x00AC => Some(0xAC)  case 0x00AD => Some(0xAD)
      case 0x00AE => Some(0xAE)  case 0x00B0 => Some(0xB0)  case 0x00B1 => Some(0xB1)  case 0x00B5 => Some(0xB5)
      case 0x00B6 => Some(0xB6)  case 0x00B7 => Some(0xB7)  case 0x00BB => Some(0xBB)  case _ => None
  }

  /** Cyrillic letters outside А..я (U+0401..U+0491) that have a byte in 0x80..0xBF. */
  function FromCyrillic(cp: nat): (b: Option<byte>)
    ensures b.Some? ==> 0x80 <= b.value < 0xC0
  {
    match cp
      case 0x0401 => Some(0xA8)  case 0x0402 => Some(0x80)  case 0x0403 => Some(0x81)  case 0x0404 => Some(0xAA)
      case 0x0405 => Some(0xBD)  case 0x0406 => Some(0xB2)  case 0x0407 => Some(0xAF)  case 0x0408 => Some(0xA3)
      case 0x0409 => Some(0x8A)  case 0x040A => Some(0x8C)  case 0x040B => Some(0x8E)  case 0x040C => Some(0x8D)
      case 0x040E => Some(0xA1)  case 0x040F => Some(0x8F)  case 0x0451 => Some(0xB8)  case 0x0452 => Some(0x90)
      case 0x0453 => Some(0x83)  case 0x0454 => Some(0xBA)  case 0x0455 => Some(0xBE)  case 0x0456 => Some(0xB3)
      case 0x0457 => Some(0xBF)  case 0x0458 => Some(0xBC)  case 0x0459 => Some(0x9A)  case 0x045A => Some(0x9C)
      case 0x045B => Some(0x9E)  case 0x045C => Some(0x9D)  case 0x045E => Some(0xA2)  case 0x045F => Some(0x9F)
      case 0x0490 => Some(0xA5)  case 0x0491 => Some(0xB4)  case _ => None
  }

  /** General punctuation and letterlike symbols (U+2013..U+2122) that have a byte in 0x80..0xBF. */
  function FromPunctuation(cp: nat): (b: Option<byte>)
    ensures b.Some? ==> 0x80 <= b.value < 0xC0
  {
    match cp
      case 0x2013 => Some(0x96)  case 0x2014 => Some(0x97)  case 0x2018 => Some(0x91)  case 0x2019 => Some(0x92)
      case 0x201A => Some(0x82)  case 0x201C => Some(0x93)  case 0x201D => Some(0x94)  case 0x201E => Some(0x84)
      case 0x2020 => Some(0x86)  case 0x2021 => Some(0x87)  case 0x2022 => Some(0x95)  case 0x2026 => Some(0x85)
      case 0x2030 => Some(0x89)  case 0x2039 => Some(0x8B)  case 0x203A => Some(0x9B)  case 0x20AC => Some(0x88)
      case 0x2116 => Some(0xB9)  case 0x2122 => Some(0x99)  case _ => None
  }

  /** The two tables are inverse to each other on the assigned bytes ... */
  lemma FromToUnicode(b: byte)
    requires b != Unassigned
    ensures FromUnicode(ToUnicode(b).value) == Some(b)
  {
    if b < 0x80 || 0xC0 <= b {
    } else if b < 0x90 {
      FromToRow8(b);
    } else if b < 0xA0 {
      FromToRow9(b);
    } else if b < 0xB0 {
      FromToRowA(b);
    } else {
      FromToRowB(b);
    }
  }

  lemma FromToRow8(b: byte)
    requires 0x80 <= b < 0x90
    ensures FromUnicode(Row8(b).value) == Some(b)
  {
  }

  lemma FromToRow9(b: byte)
    requires 0x90 <= b < 0xA0 && b != Unassigned
    ensures FromUnicode(Row9(b).value) == Some(b)
  {
  }

  lemma FromToRowA(b: byte)
    requires 0xA0 <= b < 0xB0
    ensures FromUnicode(RowA(b).value) == Some(b)
  {
  }

  lemma FromToRowB(b: byte)
    requires 0xB0 <= b < 0xC0
    ensures FromUnicode(RowB(b).value) == Some(b)
  {
  }

  /** ... and on the characters the code page has. */
  lemma ToFromUnicode(cp: nat)
    requires FromUnicode(cp).Some?
    ensures ToUnicode(FromUnicode(cp).value) == Some(cp)
  {
    if cp < 0x80 || 0x410 <= cp < 0x450 {
    } else if cp < 0x100 {
      ToFromLatin1(cp);
    } else if cp < 0x2000 {
      ToFromCyrillic(cp);
    } else {
      ToFromPunctuation(cp);
    }
  }

  lemma ToFromLatin1(cp: nat)
    requires FromLatin1(cp).Some?
    ensures ToUnicode(FromLatin1(cp).value) == Some(cp)
  {
  }

  lemma ToFromCyrillic(cp: nat)
    requires FromCyrillic(cp).Some?
    ensures ToUnicode(FromCyrillic(cp).value) == Some(cp)
  {
  }

  lemma ToFromPunctuation(cp: nat)
    requires FromPunctuation(cp).Some?
    ensures ToUnicode(FromPunctuation(cp).value) == Some(cp)
  {
  }

  /** Every byte of `s` has a character in the code page. */
  predicate Decodable(s: Bytes) {
    forall i :: 0 <= i < |s| ==> ToUnicode(s[i]).Some?
  }

  /** The characters a CP1251 byte string stands for, one per byte. */
  function ToScalars(s: Bytes): (cps: seq<nat>)
    requires Decodable(s)
    ensures |cps| == |s|
    ensures forall i :: 0 <= i < |s| ==> Some(cps[i]) == ToUnicode(s[i]) && IsScalar(cps[i])
  {
    seq(|s|, i requires 0 <= i < |s| => ToUnicode(s[i]).value)
  }

  /** The UTF-8 form of a CP1251 byte string. */
  function ToUtf8(s: Bytes): Bytes
    requires Decodable(s)
  {
    Encode(ToScalars(s))
  }

  /** The output is well-formed UTF-8 and decodes to the characters the bytes stand for. */
  lemma ToUtf8Decodes(s: Bytes)
    requires Decodable(s)
    ensures IsValid(ToUtf8(s)) && Decode(ToUtf8(s)) == Some(ToScalars(s))
  {
    DecodeEncode(ToScalars(s));
  }

  /** A string can be converted exactly when it holds no 0x98 byte. */
  lemma DecodableIff(s: Bytes)
    ensures Decodable(s) <==> Unassigned !in s
  {
    if Unassigned in s {
      var i :| 0 <= i < |s| && s[i] == Unassigned;
      assert ToUnicode(s[i]).None?;
    }
  }

  /** Conversion is injective: distinct CP1251 strings never give the same UTF-8. */
  lemma ToUtf8Injective(s: Bytes, t: Bytes)
    requires Decodable(s) && Decodable(t)
    requires ToUtf8(s) == ToUtf8(t)
    ensures s == t
  {
    var cs, ct := ToScalars(s), ToScalars(t);
    ToUtf8Decodes(s);
    ToUtf8Decodes(t);
    assert Some(cs) == Some(ct);
    forall i | 0 <= i < |s|
      ensures s[i] == t[i]
    {
      FromToUnicode(s[i]);
      FromToUnicode(t[i]);
    }
  }

  /** Conversion works byte by byte: it distributes over concatenation. */
  lemma ToUtf8Append(s: Bytes, t: Bytes)
    requires Decodable(s) && Decodable(t)
    ensures Decodable(s + t) && ToUtf8(s + t) == ToUtf8(s) + ToUtf8(t)
  {
    assert ToScalars(s + t) == ToScalars(s) + ToScalars(t);
    EncodeAppend(ToScalars(s), ToScalars(t));
  }

  /** ASCII text passes through unchanged. */
  lemma AsciiUnchanged(s: Bytes)
    requires forall i :: 0 <= i < |s| ==> s[i] < 0x80
    ensures Decodable(s) && ToUtf8(s) == s
  {
    assert ToScalars(s) == seq(|s|, i requires 0 <= i < |s| => s[i] as nat);
    EncodeAscii(s);
  }

  /**
   * The letters А..я (0xC0..0xFF) become two-byte sequences: D0 90..D0 BF for
   * 0xC0..0xEF and D1 80..D1 8F for 0xF0..0xFF.
   */
  lemma CyrillicLetter(b: byte)
    requires 0xC0 <= b
    ensures Decodable([b])
    ensures ToUtf8([b]) == if b < 0xF0 then [0xD0, b - 0x30] else [0xD1, b - 0x70]
  {
    assert ToScalars([b]) == [0x410 + (b as nat - 0xC0)];
    assert Encode([0x410 + (b as nat - 0xC0)]) == EncodeScalar(0x410 + (b as nat - 0xC0));
  }

  /** Ё (0xA8) becomes U+0401, D0 81, and ё (0xB8) becomes U+0451, D1 91. */
  lemma YoLetters()
    ensures Decodable([0xA8]) && ToUtf8([0xA8]) == [0xD0, 0x81]
    ensures Decodable([0xB8]) && ToUtf8([0xB8]) == [0xD1, 0x91]
  {
    assert ToScalars([0xA8]) == [0x0401];
    assert Encode([0x0401]) == EncodeScalar(0x0401);
    assert ToScalars([0xB8]) == [0x0451];
    assert Encode([0x0451]) == EncodeScalar(0x0451);
  }

  /** The output is at least as long as the input and at most three times as long. */
  lemma {:induction false} ToUtf8Length(s: Bytes)
    requires Decodable(s)
    ensures |s| <= |ToUtf8(s)| <= 3 * |s|
  {
    EncodeLength(ToScalars(s));
  }

  lemma {:induction false} EncodeLength(cps: seq<nat>)
    requires forall i :: 0 <= i < |cps| ==> IsScalar(cps[i]) && cps[i] < 0x1_0000
    ensures |cps| <= |Encode(cps)| <= 3 * |cps|
  {
    if cps != [] {
      EncodeLength(cps[1..]);
    }
  }
}
