/**
 * UTF-8 as Go writes it when a rune slice becomes a string (`string(runes)`,
 * which encodes rune by rune like `utf8.EncodeRune`): the encoding of section
 * 3 of RFC 3629, with every value that is not a Unicode scalar value (a
 * negative rune, a surrogate, anything above U+10FFFF) written as U+FFFD.
 * The decoder follows the syntax of well-formed UTF-8 in section 4 of RFC 3629.
 */
module Utf8 {
  import opened Wrappers

  type Byte = b: int | 0 <= b < 256

  const RuneError: int := 0xFFFD
  const MaxRune: int := 0x10FFFF

  /** A Unicode scalar value: a code point that is not a surrogate. */
  predicate IsScalar(r: int)
  {
    0 <= r <= MaxRune && !(0xD800 <= r <= 0xDFFF)
  }

  /** The character Go actually writes for `r`. */
  function Written(r: int): int
  {
    if IsScalar(r) then r else RuneError
  }

  /** `utf8.EncodeRune`: one to four bytes per rune. */
  function EncodeRune(r: int): (bs: seq<Byte>)
    ensures 1 <= |bs| <= 4
  {
    if 0 <= r < 0x80 then [r]
    else if 0x80 <= r < 0x800 then [0xC0 + r / 64, 0x80 + r % 64]
    else if !IsScalar(r) then [0xEF, 0xBF, 0xBD]
    else if r < 0x10000 then [0xE0 + r / 4096, 0x80 + r / 64 % 64, 0x80 + r % 64]
    else [0xF0 + r / 262144, 0x80 + r / 4096 % 64, 0x80 + r / 64 % 64, 0x80 + r % 64]
  }

  /** `string(runes)`: the runes' encodings, one after the other. */
  function Encode(runes: seq<int>): seq<Byte>
  {
    if runes == [] then [] else EncodeRune(runes[0]) + Encode(runes[1..])
  }

  /** One step of `string(runes)`: the encoding from position `k` on is the
      encoding of rune `k` followed by the encoding of the rest. */
  lemma EncodeFrom(runes: seq<int>, k: nat)
    requires k < |runes|
    ensures Encode(runes[k..]) == EncodeRune(runes[k]) + Encode(runes[k + 1..])
  {
    assert runes[k..][1..] == runes[k + 1..];
  }

  predicate InRange(b: Byte, lo: int, hi: int)
  {
    lo <= b <= hi
  }

  /** The payload of a continuation byte. */
  function Low6(b: Byte): int
  {
    b - 0x80
  }

  /** The first character of `bs` and its length in bytes, if `bs` starts with
      one of the well-formed sequences of RFC 3629 section 4. */
  function DecodeFirst(bs: seq<Byte>): (d: Option<(int, nat)>)
    ensures d.Some? ==> 1 <= d.value.1 <= |bs|
  {
    if |bs| == 0 then None
    else
      var b0: int := bs[0];
      if b0 < 0x80 then Some((b0, 1))
      else if 0xC2 <= b0 <= 0xDF then
        if |bs| >= 2 && InRange(bs[1], 0x80, 0xBF)
        then Some(((b0 - 0xC0) * 64 + Low6(bs[1]), 2))
        else None
      else if 0xE0 <= b0 <= 0xEF then
        var lo := if b0 == 0xE0 then 0xA0 else 0x80;
        var hi := if b0 == 0xED then 0x9F else 0xBF;
        if |bs| >= 3 && InRange(bs[1], lo, hi) && InRange(bs[2], 0x80, 0xBF)
        then Some(((b0 - 0xE0) * 4096 + Low6(bs[1]) * 64 + Low6(bs[2]), 3))
        else None
      else if 0xF0 <= b0 <= 0xF4 then
        var lo := if b0 == 0xF0 then 0x90 else 0x80;
        var hi := if b0 == 0xF4 then 0x8F else 0xBF;
        if |bs| >= 4 && InRange(bs[1], lo, hi) && InRange(bs[2], 0x80, 0xBF) && InRange(bs[3], 0x80, 0xBF)
        then Some(((b0 - 0xF0) * 262144 + Low6(bs[1]) * 4096 + Low6(bs[2]) * 64 + Low6(bs[3]), 4))
        else None
      else None
  }

  /** Decodes a whole byte string, or `None` if it is not well-formed UTF-8. */
  function Decode(bs: seq<Byte>): Option<seq<int>>
    decreases |bs|
  {
    if bs == [] then Some([])
    else
      match DecodeFirst(bs)
      case None => None
      case Some((r, n)) =>
        match Decode(bs[n..])
        case None => None
        case Some(rest) => Some([r] + rest)
  }

  lemma DecodeEncode2(r: int, rest: seq<Byte>)
    requires 0x80 <= r < 0x800
    ensures DecodeFirst(EncodeRune(r) + rest) == Some((r, 2))
  {
    assert r == (r / 64) * 64 + r % 64;
  }

  lemma DecodeEncode3(r: int, rest: seq<Byte>)
    requires 0x800 <= r < 0x10000 && IsScalar(r)
    ensures DecodeFirst(EncodeRune(r) + rest) == Some((r, 3))
  {
    var bs := EncodeRune(r) + rest;
    assert bs[0] == 0xE0 + r / 4096 && bs[1] == 0x80 + r / 64 % 64 && bs[2] == 0x80 + r % 64;
    assert r / 64 == (r / 4096) * 64 + r / 64 % 64;
    assert r == (r / 64) * 64 + r % 64;
  }

  lemma DecodeEncode4(r: int, rest: seq<Byte>)
    requires 0x10000 <= r <= MaxRune
    ensures DecodeFirst(EncodeRune(r) + rest) == Some((r, 4))
  {
    var bs := EncodeRune(r) + rest;
    assert bs[0] == 0xF0 + r / 262144 && bs[1] == 0x80 + r / 4096 % 64;
    assert bs[2] == 0x80 + r / 64 % 64 && bs[3] == 0x80 + r % 64;
    assert r / 4096 == (r / 262144) * 64 + r / 4096 % 64;
    assert r / 64 == (r / 4096) * 64 + r / 64 % 64;
    assert r == (r / 64) * 64 + r % 64;
  }

  /** Decoding undoes encoding, one rune at a time, whatever follows it. */
  lemma DecodeEncodeRune(r: int, rest: seq<Byte>)
    ensures DecodeFirst(EncodeRune(r) + rest) == Some((Written(r), |EncodeRune(r)|))
  {
    if 0 <= r < 0x80 {
    } else if 0x80 <= r < 0x800 {
      DecodeEncode2(r, rest);
    } else if !IsScalar(r) {
    } else if r < 0x10000 {
      DecodeEncode3(r, rest);
    } else {
      DecodeEncode4(r, rest);
    }
  }

  /** The runes as they come out of an encode/decode round trip. */
  function Sanitize(runes: seq<int>): (r: seq<int>)
    ensures |r| == |runes|
    ensures forall k | 0 <= k < |runes| :: r[k] == Written(runes[k])
  {
    if runes == [] then [] else [Written(runes[0])] + Sanitize(runes[1..])
  }

  /** What a rune string becomes: decoding it gives back every rune that is a
      scalar value, and U+FFFD in place of each one that is not. */
  lemma {:induction false} DecodeEncode(runes: seq<int>)
    ensures Decode(Encode(runes)) == Some(Sanitize(runes))
    decreases |runes|
  {
    if runes != [] {
      var head := EncodeRune(runes[0]);
      var tail := Encode(runes[1..]);
      DecodeEncodeRune(runes[0], tail);
      assert (head + tail)[|head|..] == tail;
      DecodeEncode(runes[1..]);
    }
  }

  /** Runes that are all scalar values survive the round trip unchanged. */
  lemma DecodeEncodeScalars(runes: seq<int>)
    requires forall k | 0 <= k < |runes| :: IsScalar(runes[k])
    ensures Decode(Encode(runes)) == Some(runes)
  {
    DecodeEncode(runes);
    assert Sanitize(runes) == runes;
  }

  lemma EncodeDecode2(bs: seq<Byte>)
    requires DecodeFirst(bs).Some? && DecodeFirst(bs).value.1 == 2
    ensures var (r, n) := DecodeFirst(bs).value;
      IsScalar(r) && EncodeRune(r) == bs[..n]
  {
    var r := DecodeFirst(bs).value.0;
    assert r / 64 == bs[0] - 0xC0 && r % 64 == Low6(bs[1]);
  }

  lemma EncodeDecode3(bs: seq<Byte>)
    requires DecodeFirst(bs).Some? && DecodeFirst(bs).value.1 == 3
    ensures var (r, n) := DecodeFirst(bs).value;
      IsScalar(r) && EncodeRune(r) == bs[..n]
  {
    var r := DecodeFirst(bs).value.0;
    var q := r / 64;
    assert q == (bs[0] - 0xE0) * 64 + Low6(bs[1]) && r % 64 == Low6(bs[2]);
    assert q / 64 == bs[0] - 0xE0 && q % 64 == Low6(bs[1]);
    assert r / 4096 == q / 64;
  }

  lemma EncodeDecode4(bs: seq<Byte>)
    requires DecodeFirst(bs).Some? && DecodeFirst(bs).value.1 == 4
    ensures var (r, n) := DecodeFirst(bs).value;
      IsScalar(r) && EncodeRune(r) == bs[..n]
  {
    var r := DecodeFirst(bs).value.0;
    var q := r / 64;
    var p := q / 64;
    assert q == (bs[0] - 0xF0) * 4096 + Low6(bs[1]) * 64 + Low6(bs[2]) && r % 64 == Low6(bs[3]);
    assert p == (bs[0] - 0xF0) * 64 + Low6(bs[1]) && q % 64 == Low6(bs[2]);
    assert p / 64 == bs[0] - 0xF0 && p % 64 == Low6(bs[1]);
    assert r / 4096 == p && r / 262144 == p / 64;
  }

  /** Every character the decoder accepts is a scalar value, and encoding it
      gives back exactly the bytes it was decoded from. */
  lemma EncodeDecodeFirst(bs: seq<Byte>)
    requires DecodeFirst(bs).Some?
    ensures var (r, n) := DecodeFirst(bs).value;
      IsScalar(r) && EncodeRune(r) == bs[..n]
  {
    var n := DecodeFirst(bs).value.1;
    if n == 2 {
      EncodeDecode2(bs);
    } else if n == 3 {
      EncodeDecode3(bs);
    } else if n == 4 {
      EncodeDecode4(bs);
    }
  }
}
