/**
 * UTF-8 as defined in section 3 of RFC 3629: the encoding of one Unicode
 * scalar value as one to four bytes, the strict decoder of section 4's
 * syntax (no overlong forms, no surrogates, nothing above U+10FFFF), and the
 * round trip between them.
 */
module Utf8 {
  import opened Wrappers

  newtype byte = b: int | 0 <= b < 256

  type Bytes = seq<byte>

  /** A Unicode scalar value: a code point that is not a surrogate. */
  predicate IsScalar(cp: nat) {
    cp < 0x11_0000 && !(0xD800 <= cp <= 0xDFFF)
  }

  /** A continuation byte, 10xxxxxx. */
  predicate IsTail(b: byte) {
    0x80 <= b < 0xC0
  }

  /** The shortest byte sequence of section 3 of RFC 3629 for `cp`. */
  function EncodeScalar(cp: nat): (r: Bytes)
    requires IsScalar(cp)
    ensures 1 <= |r| <= 4
    ensures |r| == 1 <==> cp < 0x80
    ensures |r| == 2 <==> 0x80 <= cp < 0x800
  {
    if cp < 0x80 then
      [cp as byte]
    else if cp < 0x800 then
      [(0xC0 + cp / 0x40) as byte, (0x80 + cp % 0x40) as byte]
    else if cp < 0x1_0000 then
      [(0xE0 + cp / 0x1000) as byte, (0x80 + cp / 0x40 % 0x40) as byte, (0x80 + cp % 0x40) as byte]
    else
      [(0xF0 + cp / 0x4_0000) as byte, (0x80 + cp / 0x1000 % 0x40) as byte,
       (0x80 + cp / 0x40 % 0x40) as byte, (0x80 + cp % 0x40) as byte]
  }

  /**
   * Decodes the scalar value at the front of `s`: its value and the number of
   * bytes it occupies, or None when `s` does not start with a well-formed
   * sequence.
   */
  function DecodeScalar(s: Bytes): (r: Option<(nat, nat)>)
    ensures r.Some? ==> IsScalar(r.value.0) && 1 <= r.value.1 <= |s| && r.value.1 <= 4
  {
    if |s| == 0 then None
    else if s[0] < 0x80 then Some((s[0] as nat, 1))
    else if 0xC0 <= s[0] < 0xE0 then
      if |s| >= 2 && IsTail(s[1]) then
        var cp := (s[0] as nat - 0xC0) * 0x40 + (s[1] as nat - 0x80);
        if 0x80 <= cp then Some((cp, 2)) else None
      else None
    else if 0xE0 <= s[0] < 0xF0 then
      if |s| >= 3 && IsTail(s[1]) && IsTail(s[2]) then
        var cp := (s[0] as nat - 0xE0) * 0x1000 + (s[1] as nat - 0x80) * 0x40 + (s[2] as nat - 0x80);
        if 0x800 <= cp && !(0xD800 <= cp <= 0xDFFF) then Some((cp, 3)) else None
      else None
    else if 0xF0 <= s[0] < 0xF8 then
      if |s| >= 4 && IsTail(s[1]) && IsTail(s[2]) && IsTail(s[3]) then
        var cp := (s[0] as nat - 0xF0) * 0x4_0000 + (s[1] as nat - 0x80) * 0x1000
                  + (s[2] as nat - 0x80) * 0x40 + (s[3] as nat - 0x80);
        if 0x1_0000 <= cp < 0x11_0000 then Some((cp, 4)) else None
      else None
    else None
  }

  /** The encoding of a whole sequence of scalar values. */
  function Encode(cps: seq<nat>): (r: Bytes)
    requires forall i :: 0 <= i < |cps| ==> IsScalar(cps[i])
  {
    if cps == [] then [] else EncodeScalar(cps[0]) + Encode(cps[1..])
  }

  /** Decodes a whole byte string, or None when it is not well-formed UTF-8. */
  function Decode(s: Bytes): (r: Option<seq<nat>>)
    ensures r.Some? ==> forall i :: 0 <= i < |r.value| ==> IsScalar(r.value[i])
    decreases |s|
  {
    if s == [] then Some([])
    else match DecodeScalar(s)
      case None => None
      case Some((cp, n)) =>
        match Decode(s[n..])
        case None => None
        case Some(rest) => Some([cp] + rest)
  }

  /** Well-formed UTF-8 in the sense of section 4 of RFC 3629. */
  predicate IsValid(s: Bytes) {
    Decode(s).Some?
  }

  /** Decoding the encoding of one scalar value gives it back, whatever follows it. */
  lemma DecodeEncodeScalar(cp: nat, rest: Bytes)
    requires IsScalar(cp)
    ensures DecodeScalar(EncodeScalar(cp) + rest) == Some((cp, |EncodeScalar(cp)|))
  {
    if cp < 0x80 {
    } else if cp < 0x800 {
      DecodeEncode2(cp, rest);
    } else if cp < 0x1_0000 {
      DecodeEncode3(cp, rest);
    } else {
      DecodeEncode4(cp, rest);
    }
  }

  lemma DecodeEncode2(cp: nat, rest: Bytes)
    requires 0x80 <= cp < 0x800
    ensures DecodeScalar(EncodeScalar(cp) + rest) == Some((cp, 2))
  {
    assert cp == cp / 0x40 * 0x40 + cp % 0x40;
  }

  lemma DecodeEncode3(cp: nat, rest: Bytes)
    requires 0x800 <= cp < 0x1_0000 && IsScalar(cp)
    ensures DecodeScalar(EncodeScalar(cp) + rest) == Some((cp, 3))
  {
    assert cp / 0x40 == cp / 0x1000 * 0x40 + cp / 0x40 % 0x40;
    assert cp == cp / 0x40 * 0x40 + cp % 0x40;
  }

  lemma DecodeEncode4(cp: nat, rest: Bytes)
    requires 0x1_0000 <= cp < 0x11_0000
    ensures DecodeScalar(EncodeScalar(cp) + rest) == Some((cp, 4))
  {
    assert cp / 0x1000 == cp / 0x4_0000 * 0x40 + cp / 0x1000 % 0x40;
    assert cp / 0x40 == cp / 0x1000 * 0x40 + cp / 0x40 % 0x40;
    assert cp == cp / 0x40 * 0x40 + cp % 0x40;
  }

  /** The other direction: a decoded scalar value re-encodes to exactly the bytes it was read from. */
  lemma EncodeDecodeScalar(s: Bytes)
    requires DecodeScalar(s).Some?
    ensures EncodeScalar(DecodeScalar(s).value.0) == s[..DecodeScalar(s).value.1]
  {
    var n := DecodeScalar(s).value.1;
    if n == 2 {
      EncodeDecode2(s);
    } else if n == 3 {
      EncodeDecode3(s);
    } else if n == 4 {
      EncodeDecode4(s);
    }
  }

  lemma EncodeDecode2(s: Bytes)
    requires DecodeScalar(s).Some? && DecodeScalar(s).value.1 == 2
    ensures EncodeScalar(DecodeScalar(s).value.0) == s[..2]
  {
    var cp := DecodeScalar(s).value.0;
    DivMod(cp, 0x40, s[0] as nat - 0xC0, s[1] as nat - 0x80);
  }

  lemma EncodeDecode3(s: Bytes)
    requires DecodeScalar(s).Some? && DecodeScalar(s).value.1 == 3
    ensures EncodeScalar(DecodeScalar(s).value.0) == s[..3]
  {
    var cp := DecodeScalar(s).value.0;
    DivMod(cp, 0x40, (s[0] as nat - 0xE0) * 0x40 + (s[1] as nat - 0x80), s[2] as nat - 0x80);
    DivMod(cp / 0x40, 0x40, s[0] as nat - 0xE0, s[1] as nat - 0x80);
    DivMod(cp, 0x1000, s[0] as nat - 0xE0, (s[1] as nat - 0x80) * 0x40 + (s[2] as nat - 0x80));
  }

  lemma EncodeDecode4(s: Bytes)
    requires DecodeScalar(s).Some? && DecodeScalar(s).value.1 == 4
    ensures EncodeScalar(DecodeScalar(s).value.0) == s[..4]
  {
    var cp := DecodeScalar(s).value.0;
    var q := (s[0] as nat - 0xF0) * 0x40 + (s[1] as nat - 0x80);
    DivMod(cp, 0x40, q * 0x40 + (s[2] as nat - 0x80), s[3] as nat - 0x80);
    DivMod(cp / 0x40, 0x40, q, s[2] as nat - 0x80);
    DivMod(cp, 0x1000, q, (s[2] as nat - 0x80) * 0x40 + (s[3] as nat - 0x80));
    DivMod(cp / 0x1000, 0x40, s[0] as nat - 0xF0, s[1] as nat - 0x80);
    DivMod(cp, 0x4_0000, s[0] as nat - 0xF0, ((s[1] as nat - 0x80) * 0x40 + (s[2] as nat - 0x80)) * 0x40 + (s[3] as nat - 0x80));
  }

  /** Quotient and remainder by one of the powers of two UTF-8 shifts by. */
  lemma DivMod(x: nat, d: nat, q: nat, r: nat)
    requires d == 0x40 || d == 0x1000 || d == 0x4_0000
    requires 0 <= r < d && x == q * d + r
    ensures x / d == q && x % d == r
  {
    if d == 0x40 {
    } else if d == 0x1000 {
    } else {
    }
  }

  /** Round trip: decoding an encoding gives back the scalar values. */
  lemma {:induction false} DecodeEncode(cps: seq<nat>)
    requires forall i :: 0 <= i < |cps| ==> IsScalar(cps[i])
    ensures Decode(Encode(cps)) == Some(cps)
  {
    if cps != [] {
      var e := EncodeScalar(cps[0]);
      var tail := Encode(cps[1..]);
      DecodeEncodeScalar(cps[0], tail);
      assert (e + tail)[|e|..] == tail;
      DecodeEncode(cps[1..]);
      assert Encode(cps) == e + tail;
      assert e + tail != [];
      assert [cps[0]] + cps[1..] == cps;
    }
  }

  /** The other direction: well-formed UTF-8 is the encoding of what it decodes to. */
  lemma {:induction false} EncodeDecode(s: Bytes)
    requires Decode(s).Some?
    ensures Encode(Decode(s).value) == s
    decreases |s|
  {
    if s != [] {
      var n := EncodeDecodeFirst(s);
      EncodeDecode(s[n..]);
      SplitAt(s, n);
    }
  }

  /**
   * One step of `EncodeDecode`: the encoding of what `s` decodes to starts
   * with the `n` bytes of its first scalar value.
   */
  lemma EncodeDecodeFirst(s: Bytes) returns (n: nat)
    requires s != [] && Decode(s).Some?
    ensures 1 <= n <= |s| && Decode(s[n..]).Some?
    ensures Encode(Decode(s).value) == s[..n] + Encode(Decode(s[n..]).value)
  {
    var cps := Decode(s).value;
    DecodeFirst(s);
    var cp;
    cp, n := DecodeScalar(s).value.0, DecodeScalar(s).value.1;
    var rest := Decode(s[n..]).value;
    assert cps[0] == cp && cps[1..] == rest;
    EncodeFirst(cps);
    EncodeDecodeScalar(s);
  }

  /** A byte string is its prefix followed by the rest. */
  lemma SplitAt(s: Bytes, n: nat)
    requires n <= |s|
    ensures s[..n] + s[n..] == s
  {
  }

  /** Encoding distributes over concatenation. */
  lemma {:induction false} EncodeAppend(a: seq<nat>, b: seq<nat>)
    requires forall i :: 0 <= i < |a| ==> IsScalar(a[i])
    requires forall i :: 0 <= i < |b| ==> IsScalar(b[i])
    ensures Encode(a + b) == Encode(a) + Encode(b)
  {
    if a == [] {
      assert a + b == b;
    } else {
      assert (a + b)[0] == a[0] && (a + b)[1..] == a[1..] + b;
      EncodeAppend(a[1..], b);
      assert Encode(a + b) == EncodeScalar(a[0]) + Encode(a[1..] + b);
    }
  }

  /** Decoding a non-empty string starts with the scalar value at its front. */
  lemma DecodeFirst(s: Bytes)
    requires s != [] && Decode(s).Some?
    ensures DecodeScalar(s).Some?
    ensures var n := DecodeScalar(s).value.1;
      Decode(s[n..]).Some? && Decode(s).value == [DecodeScalar(s).value.0] + Decode(s[n..]).value
  {
  }

  /** Encoding a non-empty sequence starts with the encoding of its first scalar value. */
  lemma EncodeFirst(cps: seq<nat>)
    requires cps != [] && forall i :: 0 <= i < |cps| ==> IsScalar(cps[i])
    ensures Encode(cps) == EncodeScalar(cps[0]) + Encode(cps[1..])
  {
  }

  /** A byte string of ASCII bytes is its own encoding. */
  lemma {:induction false} EncodeAscii(s: Bytes)
    requires forall i :: 0 <= i < |s| ==> s[i] < 0x80
    ensures Encode(seq(|s|, i requires 0 <= i < |s| => s[i] as nat)) == s
  {
    if s != [] {
      var cps := seq(|s|, i requires 0 <= i < |s| => s[i] as nat);
      assert cps[1..] == seq(|s[1..]|, i requires 0 <= i < |s[1..]| => s[1..][i] as nat);
      EncodeAscii(s[1..]);
      assert s == [s[0]] + s[1..];
    }
  }
}
