/**
 * UTF-8 as defined by section 4 of RFC 3629: the byte grammar of one encoded
 * character, its decoding, and the encoding of a Unicode scalar value.
 * Bytes are naturals below 256.
 */
module Utf8 {
  import opened Wrappers

  predicate IsByte(b: nat) { b < 0x100 }

  /** UTF8-tail = %x80-BF */
  predicate IsTail(b: nat) { 0x80 <= b <= 0xBF }

  /** A Unicode scalar value: a code point that is not a surrogate. */
  predicate IsScalar(cp: nat) { cp < 0xD800 || 0xE000 <= cp < 0x11_0000 }

  function Low6(b: nat): nat requires IsTail(b) { b - 0x80 }

  /**
   * The character that `b` encodes when `b` is exactly one UTF8-char of the
   * RFC 3629 grammar (UTF8-1, UTF8-2, UTF8-3 or UTF8-4), and None otherwise.
   */
  function Decode(b: seq<nat>): (r: Option<nat>)
    ensures r.Some? ==> IsScalar(r.value)
  {
    if |b| == 1 then
      if b[0] <= 0x7F then Some(b[0]) else None
    else if |b| == 2 then
      if 0xC2 <= b[0] <= 0xDF && IsTail(b[1]) then Some((b[0] - 0xC0) * 64 + Low6(b[1])) else None
    else if |b| == 3 then
      if IsTail(b[1]) && IsTail(b[2])
         && ((b[0] == 0xE0 && 0xA0 <= b[1]) || (0xE1 <= b[0] <= 0xEC) || (b[0] == 0xED && b[1] <= 0x9F)
             || (0xEE <= b[0] <= 0xEF))
      then Some((b[0] - 0xE0) * 4096 + Low6(b[1]) * 64 + Low6(b[2]))
      else None
    else if |b| == 4 then
      if IsTail(b[1]) && IsTail(b[2]) && IsTail(b[3])
         && ((b[0] == 0xF0 && 0x90 <= b[1]) || (0xF1 <= b[0] <= 0xF3) || (b[0] == 0xF4 && b[1] <= 0x8F))
      then Some((b[0] - 0xF0) * 262144 + Low6(b[1]) * 4096 + Low6(b[2]) * 64 + Low6(b[3]))
      else None
    else None
  }

  /** The shortest UTF-8 encoding of a scalar value. */
  function Encode(cp: nat): (b: seq<nat>)
    requires IsScalar(cp)
    ensures 1 <= |b| <= 4 && forall k :: 0 <= k < |b| ==> IsByte(b[k])
  {
    if cp < 0x80 then [cp]
    else if cp < 0x800 then [0xC0 + cp / 64, 0x80 + cp % 64]
    else if cp < 0x1_0000 then [0xE0 + cp / 4096, 0x80 + (cp / 64) % 64, 0x80 + cp % 64]
    else [0xF0 + cp / 262144, 0x80 + (cp / 4096) % 64, 0x80 + (cp / 64) % 64, 0x80 + cp % 64]
  }

  /** Division by 64 of a number written as 64 * q + r. */
  lemma DivMod64(q: nat, r: nat)
    requires r < 64
    ensures (64 * q + r) / 64 == q && (64 * q + r) % 64 == r
  {
  }

  /** Decoding a scalar value's encoding gives the scalar value back. */
  lemma DecodeEncode(cp: nat)
    requires IsScalar(cp)
    ensures Decode(Encode(cp)) == Some(cp)
  {
    if cp < 0x80 {
    } else if cp < 0x800 {
      DivMod64(cp / 64, cp % 64);
      assert cp == 64 * (cp / 64) + cp % 64;
    } else if cp < 0x1_0000 {
      var hi, t1, t2 := Digits3(cp);
      Encode3(hi, t1, t2);
      Decode3(hi, t1, t2);
    } else {
      var hi := cp / 262144;
      var t1, t2, t3 := Digits3(cp % 262144);
      assert cp == 262144 * hi + 4096 * t1 + 64 * t2 + t3;
      Encode4(hi, t1, t2, t3);
      Decode4(hi, t1, t2, t3);
    }
  }

  lemma Decode3(hi: nat, t1: nat, t2: nat)
    requires hi < 16 && t1 < 64 && t2 < 64
    requires 0x800 <= 4096 * hi + 64 * t1 + t2 && IsScalar(4096 * hi + 64 * t1 + t2)
    ensures Decode([0xE0 + hi, 0x80 + t1, 0x80 + t2]) == Some(4096 * hi + 64 * t1 + t2)
  {
  }

  lemma Decode4(hi: nat, t1: nat, t2: nat, t3: nat)
    requires hi < 8 && t1 < 64 && t2 < 64 && t3 < 64
    requires 0x1_0000 <= 262144 * hi + 4096 * t1 + 64 * t2 + t3
    requires IsScalar(262144 * hi + 4096 * t1 + 64 * t2 + t3)
    ensures Decode([0xF0 + hi, 0x80 + t1, 0x80 + t2, 0x80 + t3]) == Some(262144 * hi + 4096 * t1 + 64 * t2 + t3)
  {
  }

  /** The base-64 digits of a number below 2^18. */
  lemma Digits3(n: nat) returns (hi: nat, t1: nat, t2: nat)
    requires n < 262144
    ensures hi < 64 && t1 < 64 && t2 < 64 && n == 4096 * hi + 64 * t1 + t2
  {
    hi := n / 4096;
    var rest := n % 4096;
    t1, t2 := rest / 64, rest % 64;
  }

  lemma DivMod4096(q: nat, r: nat)
    requires r < 4096
    ensures (4096 * q + r) / 4096 == q
  {
  }

  lemma DivMod262144(q: nat, r: nat)
    requires r < 262144
    ensures (262144 * q + r) / 262144 == q
  {
  }

  /** The encoding of a three-byte value, from its digits in base 64. */
  lemma Encode3(hi: nat, t1: nat, t2: nat)
    requires hi < 16 && t1 < 64 && t2 < 64
    requires 0x800 <= 4096 * hi + 64 * t1 + t2 && IsScalar(4096 * hi + 64 * t1 + t2)
    ensures Encode(4096 * hi + 64 * t1 + t2) == [0xE0 + hi, 0x80 + t1, 0x80 + t2]
  {
    var cp := 4096 * hi + 64 * t1 + t2;
    assert cp == 64 * (64 * hi + t1) + t2;
    DivMod64(64 * hi + t1, t2);
    DivMod64(hi, t1);
    DivMod4096(hi, 64 * t1 + t2);
  }

  /** The encoding of a four-byte value, from its digits in base 64. */
  lemma Encode4(hi: nat, t1: nat, t2: nat, t3: nat)
    requires hi < 8 && t1 < 64 && t2 < 64 && t3 < 64
    requires 0x1_0000 <= 262144 * hi + 4096 * t1 + 64 * t2 + t3
    requires IsScalar(262144 * hi + 4096 * t1 + 64 * t2 + t3)
    ensures Encode(262144 * hi + 4096 * t1 + 64 * t2 + t3) == [0xF0 + hi, 0x80 + t1, 0x80 + t2, 0x80 + t3]
  {
    var mid := 64 * hi + t1;
    var cp := 262144 * hi + 4096 * t1 + 64 * t2 + t3;
    assert cp == 64 * (64 * mid + t2) + t3;
    DivMod64(64 * mid + t2, t3);
    DivMod64(mid, t2);
    DivMod64(hi, t1);
    assert cp == 4096 * mid + (64 * t2 + t3);
    DivMod4096(mid, 64 * t2 + t3);
    DivMod262144(hi, 4096 * t1 + 64 * t2 + t3);
  }

  /** A decoded byte sequence is the encoding of what it decodes to: no overlong forms. */
  lemma EncodeDecode(b: seq<nat>)
    requires Decode(b).Some?
    ensures Encode(Decode(b).value) == b
  {
    if |b| == 2 {
      DivMod64(b[0] - 0xC0, Low6(b[1]));
    } else if |b| == 3 {
      Encode3(b[0] - 0xE0, Low6(b[1]), Low6(b[2]));
    } else if |b| == 4 {
      Encode4(b[0] - 0xF0, Low6(b[1]), Low6(b[2]), Low6(b[3]));
    }
  }
}
