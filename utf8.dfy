/**
 * UTF-8 as section 3 of RFC 3629 defines it: `str.encode()` turns text into
 * bytes and `bytes.decode("utf-8")` turns bytes back into text, refusing
 * (raising, here `None`) any byte sequence that is not well formed.
 */
module Utf8 {
  import opened Base

  /** A byte of the form 10xxxxxx, which continues a multi-byte character. */
  predicate IsContinuation(b: byte)
  {
    0x80 <= b < 0xC0
  }

  /** The one to four bytes that encode one Unicode scalar value. */
  function EncodeChar(c: char): (bs: seq<byte>)
    ensures 1 <= |bs| <= 4
    ensures |bs| == 1 <==> c as int < 0x80
  {
    var n := c as int;
    if n < 0x80 then
      [n]
    else if n < 0x800 then
      [0xC0 + n / 64, 0x80 + n % 64]
    else if n < 0x10000 then
      [0xE0 + n / 4096, 0x80 + n / 64 % 64, 0x80 + n % 64]
    else
      [0xF0 + n / 0x40000, 0x80 + n / 4096 % 64, 0x80 + n / 64 % 64, 0x80 + n % 64]
  }

  /** `s.encode()`: the characters' encodings, one after another. */
  function Encode(s: string): seq<byte>
    decreases |s|
  {
    if |s| == 0 then [] else EncodeChar(s[0]) + Encode(s[1..])
  }

  /** Encoding works character by character, so it distributes over concatenation. */
  lemma {:induction false} EncodeAppend(a: string, b: string)
    ensures Encode(a + b) == Encode(a) + Encode(b)
    decreases |a|
  {
    if |a| > 0 {
      assert (a + b)[0] == a[0];
      assert (a + b)[1..] == a[1..] + b;
      EncodeAppend(a[1..], b);
    } else {
      assert a + b == b;
    }
  }

  /** `lo <= b < hi`. */
  predicate InRange(b: byte, lo: int, hi: int)
  {
    lo <= b < hi
  }

  /**
   * The character that a well-formed sequence starts with, and the number of
   * bytes it takes; `None` when the sequence does not start well formed
   * (a stray continuation byte, a truncated or overlong form, an encoded
   * surrogate, a value above U+10FFFF).
   */
  function DecodeFirst(b: seq<byte>): (r: Option<(char, nat)>)
    requires |b| > 0
    ensures r.Some? ==> 1 <= r.value.1 <= |b|
  {
    var b0 := b[0] as int;
    if b0 < 0x80 then
      Some((b0 as char, 1))
    else if 0xC2 <= b0 < 0xE0 then
      if |b| >= 2 && IsContinuation(b[1]) then
        EncodeTwo(b0, b[1]);
        assert b[..2] == [b[0], b[1]];
        Some((((b0 - 0xC0) * 64 + (b[1] as int - 0x80)) as char, 2))
      else
        None
    else if 0xE0 <= b0 < 0xF0 then
      if |b| >= 3
        && InRange(b[1], if b0 == 0xE0 then 0xA0 else 0x80, if b0 == 0xED then 0xA0 else 0xC0)
        && IsContinuation(b[2])
      then
        EncodeThree(b0, b[1], b[2]);
        assert b[..3] == [b[0], b[1], b[2]];
        Some((((b0 - 0xE0) * 4096 + (b[1] as int - 0x80) * 64 + (b[2] as int - 0x80)) as char, 3))
      else
        None
    else if 0xF0 <= b0 < 0xF5 then
      if |b| >= 4
        && InRange(b[1], if b0 == 0xF0 then 0x90 else 0x80, if b0 == 0xF4 then 0x90 else 0xC0)
        && IsContinuation(b[2]) && IsContinuation(b[3])
      then
        EncodeFour(b0, b[1], b[2], b[3]);
        assert b[..4] == [b[0], b[1], b[2], b[3]];
        Some((((b0 - 0xF0) * 0x40000 + (b[1] as int - 0x80) * 4096 + (b[2] as int - 0x80) * 64 + (b[3] as int - 0x80)) as char, 4))
      else
        None
    else
      None
  }

  lemma EncodeTwo(x: byte, y: byte)
    requires 0xC2 <= x < 0xE0 && IsContinuation(y)
    ensures 0x80 <= (x - 0xC0) * 64 + (y - 0x80) < 0x800
    ensures EncodeChar(((x - 0xC0) * 64 + (y - 0x80)) as char) == [x, y]
  {
    var n := (x - 0xC0) * 64 + (y - 0x80);
    assert n / 64 == x - 0xC0 && n % 64 == y - 0x80;
  }

  lemma EncodeThree(x: byte, y: byte, z: byte)
    requires 0xE0 <= x < 0xF0
    requires InRange(y, if x == 0xE0 then 0xA0 else 0x80, if x == 0xED then 0xA0 else 0xC0)
    requires IsContinuation(z)
    ensures var n := (x - 0xE0) * 4096 + (y - 0x80) * 64 + (z - 0x80);
      0x800 <= n < 0x10000 && !(0xD800 <= n < 0xE000)
    ensures EncodeChar(((x - 0xE0) * 4096 + (y - 0x80) * 64 + (z - 0x80)) as char) == [x, y, z]
  {
    var n := (x - 0xE0) * 4096 + (y - 0x80) * 64 + (z - 0x80);
    var q := (x - 0xE0) * 64 + (y - 0x80);
    assert n == q * 64 + (z - 0x80);
    assert n / 64 == q && n % 64 == z - 0x80;
    assert q / 64 == x - 0xE0 && q % 64 == y - 0x80;
    assert n / 4096 == x - 0xE0;
  }

  lemma EncodeFour(x: byte, y: byte, z: byte, w: byte)
    requires 0xF0 <= x < 0xF5
    requires InRange(y, if x == 0xF0 then 0x90 else 0x80, if x == 0xF4 then 0x90 else 0xC0)
    requires IsContinuation(z) && IsContinuation(w)
    ensures var n := (x - 0xF0) * 0x40000 + (y - 0x80) * 4096 + (z - 0x80) * 64 + (w - 0x80);
      0x10000 <= n < 0x110000
    ensures EncodeChar(((x - 0xF0) * 0x40000 + (y - 0x80) * 4096 + (z - 0x80) * 64 + (w - 0x80)) as char) == [x, y, z, w]
  {
    var n := (x - 0xF0) * 0x40000 + (y - 0x80) * 4096 + (z - 0x80) * 64 + (w - 0x80);
    var q2 := (x - 0xF0) * 64 + (y - 0x80);
    var q1 := q2 * 64 + (z - 0x80);
    assert n == q1 * 64 + (w - 0x80);
    assert n / 64 == q1 && n % 64 == w - 0x80;
    assert q1 / 64 == q2 && q1 % 64 == z - 0x80;
    assert q2 / 64 == x - 0xF0 && q2 % 64 == y - 0x80;
    assert n / 4096 == q2 && n / 0x40000 == x - 0xF0;
  }

  /** What `DecodeFirst` recognises is exactly the encoding of the character it returns. */
  lemma DecodeFirstSound(b: seq<byte>)
    requires |b| > 0
    ensures DecodeFirst(b).Some? ==> EncodeChar(DecodeFirst(b).value.0) == b[..DecodeFirst(b).value.1]
  {
    var b0 := b[0] as int;
    if b0 < 0x80 {
      assert b[..1] == [b[0]];
    } else if 0xC2 <= b0 < 0xE0 && |b| >= 2 && IsContinuation(b[1]) {
      EncodeTwo(b0, b[1]);
      assert b[..2] == [b[0], b[1]];
    } else if 0xE0 <= b0 < 0xF0 && |b| >= 3
      && InRange(b[1], if b0 == 0xE0 then 0xA0 else 0x80, if b0 == 0xED then 0xA0 else 0xC0)
      && IsContinuation(b[2])
    {
      EncodeThree(b0, b[1], b[2]);
      assert b[..3] == [b[0], b[1], b[2]];
    } else if 0xF0 <= b0 < 0xF5 && |b| >= 4
      && InRange(b[1], if b0 == 0xF0 then 0x90 else 0x80, if b0 == 0xF4 then 0x90 else 0xC0)
      && IsContinuation(b[2]) && IsContinuation(b[3])
    {
      EncodeFour(b0, b[1], b[2], b[3]);
      assert b[..4] == [b[0], b[1], b[2], b[3]];
    }
  }

  /** `b.decode("utf-8")`: the text `b` encodes, or `None` when `b` is not well formed. */
  function Decode(b: seq<byte>): Option<string>
    decreases |b|
  {
    if |b| == 0 then
      Some([])
    else
      match DecodeFirst(b)
      case None => None
      case Some((c, k)) =>
        match Decode(b[k..])
        case None => None
        case Some(rest) => Some([c] + rest)
  }

  /** Whatever `Decode` returns encodes back to the bytes it was given. */
  lemma {:induction false} DecodeSound(b: seq<byte>)
    ensures Decode(b).Some? ==> Encode(Decode(b).value) == b
    decreases |b|
  {
    if |b| > 0 && DecodeFirst(b).Some? {
      var (c, k) := DecodeFirst(b).value;
      DecodeFirstSound(b);
      DecodeSound(b[k..]);
      if Decode(b[k..]).Some? {
        var rest := Decode(b[k..]).value;
        assert Decode(b) == Some([c] + rest);
        assert ([c] + rest)[1..] == rest;
        assert Encode([c] + rest) == EncodeChar(c) + Encode(rest);
        assert b == b[..k] + b[k..];
      }
    }
  }

  lemma DecodeFirstTwo(c: char, rest: seq<byte>)
    requires 0x80 <= c as int < 0x800
    ensures DecodeFirst(EncodeChar(c) + rest) == Some((c, 2))
  {
    var n := c as int;
    var q, r := n / 64, n % 64;
    assert n == q * 64 + r;
    var b := EncodeChar(c) + rest;
    assert b[0] == 0xC0 + q && b[1] == 0x80 + r;
  }

  lemma DecodeFirstThree(c: char, rest: seq<byte>)
    requires 0x800 <= c as int < 0x10000
    ensures DecodeFirst(EncodeChar(c) + rest) == Some((c, 3))
  {
    var n := c as int;
    var q1, r0 := n / 64, n % 64;
    var q2, r1 := q1 / 64, q1 % 64;
    assert n == q1 * 64 + r0 && q1 == q2 * 64 + r1;
    assert q2 == n / 4096;
    var b := EncodeChar(c) + rest;
    assert b[0] == 0xE0 + q2 && b[1] == 0x80 + r1 && b[2] == 0x80 + r0;
  }

  lemma DecodeFirstFour(c: char, rest: seq<byte>)
    requires 0x10000 <= c as int
    ensures DecodeFirst(EncodeChar(c) + rest) == Some((c, 4))
  {
    var n := c as int;
    var q1, r0 := n / 64, n % 64;
    var q2, r1 := q1 / 64, q1 % 64;
    var q3, r2 := q2 / 64, q2 % 64;
    assert n == q1 * 64 + r0 && q1 == q2 * 64 + r1 && q2 == q3 * 64 + r2;
    assert q2 == n / 4096 && q3 == n / 0x40000;
    var b := EncodeChar(c) + rest;
    assert b[0] == 0xF0 + q3 && b[1] == 0x80 + r2 && b[2] == 0x80 + r1 && b[3] == 0x80 + r0;
  }

  /** The decoder recognises every character's encoding, whatever follows it. */
  lemma DecodeFirstEncodeChar(c: char, rest: seq<byte>)
    ensures DecodeFirst(EncodeChar(c) + rest) == Some((c, |EncodeChar(c)|))
  {
    var n := c as int;
    if n < 0x80 {
    } else if n < 0x800 {
      DecodeFirstTwo(c, rest);
    } else if n < 0x10000 {
      DecodeFirstThree(c, rest);
    } else {
      DecodeFirstFour(c, rest);
    }
  }

  /** Decoding undoes encoding: every text survives a trip through bytes. */
  lemma {:induction false} DecodeEncode(s: string)
    ensures Decode(Encode(s)) == Some(s)
    decreases |s|
  {
    if |s| > 0 {
      var head := EncodeChar(s[0]);
      var b := Encode(s);
      DecodeFirstEncodeChar(s[0], Encode(s[1..]));
      assert b[|head|..] == Encode(s[1..]);
      DecodeEncode(s[1..]);
      assert [s[0]] + s[1..] == s;
    }
  }

  /** No encoding of a character uses the bytes 0xC0, 0xC1 or 0xF5 to 0xFF. */
  lemma EncodeCharAvoids(c: char)
    ensures forall k :: 0 <= k < |EncodeChar(c)| ==> EncodeChar(c)[k] < 0xF5 && EncodeChar(c)[k] != 0xC0 && EncodeChar(c)[k] != 0xC1
  {
  }

  /** Well-formed text never contains the bytes 0xC0, 0xC1 or 0xF5 to 0xFF. */
  lemma {:induction false} DecodedAvoids(b: seq<byte>)
    ensures Decode(b).Some? ==> forall k :: 0 <= k < |b| ==> b[k] < 0xF5 && b[k] != 0xC0 && b[k] != 0xC1
    decreases |b|
  {
    if |b| > 0 && DecodeFirst(b).Some? {
      var k := DecodeFirst(b).value.1;
      DecodedAvoids(b[k..]);
      EncodeCharAvoids(DecodeFirst(b).value.0);
      forall i | 0 <= i < |b| ensures Decode(b).Some? ==> b[i] < 0xF5 && b[i] != 0xC0 && b[i] != 0xC1 {
        if i >= k { assert b[i] == b[k..][i - k]; }
      }
    }
  }
}
