/** Python's strict UTF-8 codec (`bytes.decode()` and `str.encode()` with the
    default encoding and error handler), as laid down in section 3 of
    RFC 3629: shortest forms only, no surrogates, nothing above U+10FFFF. */
module Utf8 {
  import opened Wrappers
  import opened Seqs
  import opened Bytes

  /** Why a byte string is not UTF-8. */
  datatype Utf8Error = InvalidStartByte(at: nat) | InvalidContinuation(at: nat) | UnexpectedEnd(at: nat)

  predicate IsContinuation(b: byte)
  {
    0x80 <= b <= 0xBF
  }

  /** The length of the sequence a lead byte opens, or 0 when it opens none
      (a continuation byte, the overlong leads C0 and C1, or F5 to FF). */
  function LeadLength(b0: byte): nat
  {
    if b0 < 0x80 then 1
    else if 0xC2 <= b0 <= 0xDF then 2
    else if 0xE0 <= b0 <= 0xEF then 3
    else if 0xF0 <= b0 <= 0xF4 then 4
    else 0
  }

  /** The bounds on the second byte, narrower after E0, ED, F0 and F4 so
      that overlong forms, surrogates and values above U+10FFFF are refused. */
  function SecondLow(b0: byte): byte
  {
    if b0 == 0xE0 then 0xA0 else if b0 == 0xF0 then 0x90 else 0x80
  }

  function SecondHigh(b0: byte): byte
  {
    if b0 == 0xED then 0x9F else if b0 == 0xF4 then 0x8F else 0xBF
  }

  /** The first scalar value of `bs` and its length in bytes, or the error
      at its position `at` (an offset into the whole input). */
  function DecodeFirst(bs: seq<byte>, at: nat): (r: Result<(char, nat), Utf8Error>)
    requires |bs| > 0
    ensures r.Success? ==> 1 <= r.value.1 <= |bs| && r.value.1 == LeadLength(bs[0])
    ensures r.Success? ==> EncodeChar(r.value.0) == bs[..r.value.1]
  {
    var b0: int := bs[0];
    var len := LeadLength(b0);
    if len == 0 then Failure(InvalidStartByte(at))
    else if len == 1 then Success((b0 as char, 1))
    else if |bs| < 2 then Failure(UnexpectedEnd(at))
    else if !(SecondLow(b0) <= bs[1] <= SecondHigh(b0)) then Failure(InvalidContinuation(at))
    else if len == 2 then
      TwoByteSequence(bs[0], bs[1]);
      assert bs[..2] == [bs[0], bs[1]];
      Success((((b0 - 0xC0) * 64 + (bs[1] as int - 0x80)) as char, 2))
    else if |bs| < 3 then Failure(UnexpectedEnd(at))
    else if !IsContinuation(bs[2]) then Failure(InvalidContinuation(at))
    else if len == 3 then
      ThreeByteSequence(bs[0], bs[1], bs[2]);
      assert bs[..3] == [bs[0], bs[1], bs[2]];
      Success((ThreeByteValue(bs[0], bs[1], bs[2]) as char, 3))
    else if |bs| < 4 then Failure(UnexpectedEnd(at))
    else if !IsContinuation(bs[3]) then Failure(InvalidContinuation(at))
    else
      FourByteSequence(bs[0], bs[1], bs[2], bs[3]);
      assert bs[..4] == [bs[0], bs[1], bs[2], bs[3]];
      Success((FourByteValue(bs[0], bs[1], bs[2], bs[3]) as char, 4))
  }

  function ThreeByteValue(b0: byte, b1: byte, b2: byte): int
  {
    ((b0 as int - 0xE0) * 64 + (b1 as int - 0x80)) * 64 + (b2 as int - 0x80)
  }

  function FourByteValue(b0: byte, b1: byte, b2: byte, b3: byte): int
  {
    (((b0 as int - 0xF0) * 64 + (b1 as int - 0x80)) * 64 + (b2 as int - 0x80)) * 64 + (b3 as int - 0x80)
  }

  /** A well-formed two-byte sequence is the encoding of the value it carries. */
  lemma TwoByteSequence(b0: byte, b1: byte)
    requires 0xC2 <= b0 <= 0xDF && IsContinuation(b1)
    ensures var n := (b0 as int - 0xC0) * 64 + (b1 as int - 0x80);
      0x80 <= n < 0x800 && EncodeChar(n as char) == [b0, b1]
  {
  }

  /** A well-formed three-byte sequence carries a non-surrogate value of the
      three-byte range, and is its encoding. */
  lemma ThreeByteSequence(b0: byte, b1: byte, b2: byte)
    requires 0xE0 <= b0 <= 0xEF && SecondLow(b0) <= b1 <= SecondHigh(b0) && IsContinuation(b2)
    ensures var n := ThreeByteValue(b0, b1, b2);
      0x800 <= n < 0x10000 && !(0xD800 <= n < 0xE000) && EncodeChar(n as char) == [b0, b1, b2]
  {
    Recombine3(b0 - 0xE0, b1 - 0x80, b2 - 0x80);
  }

  /** A well-formed four-byte sequence carries a value of the four-byte range
      no greater than U+10FFFF, and is its encoding. */
  lemma FourByteSequence(b0: byte, b1: byte, b2: byte, b3: byte)
    requires 0xF0 <= b0 <= 0xF4 && SecondLow(b0) <= b1 <= SecondHigh(b0)
    requires IsContinuation(b2) && IsContinuation(b3)
    ensures var n := FourByteValue(b0, b1, b2, b3);
      0x10000 <= n <= 0x10FFFF && EncodeChar(n as char) == [b0, b1, b2, b3]
  {
    Recombine4(b0 - 0xF0, b1 - 0x80, b2 - 0x80, b3 - 0x80);
  }

  /** `bytes.decode()`: the text a byte string encodes, or the first error. */
  function DecodeFrom(bs: seq<byte>, at: nat): (r: Result<string, Utf8Error>)
    ensures r.Success? ==> Encode(r.value) == bs
    decreases |bs|
  {
    if |bs| == 0 then Success("")
    else
      var first := DecodeFirst(bs, at);
      if first.Failure? then Failure(first.error)
      else
        var c, len := first.value.0, first.value.1;
        var tail := DecodeFrom(bs[len..], at + len);
        if tail.Failure? then Failure(tail.error)
        else
          EncodeCons(c, tail.value);
          assert bs == bs[..len] + bs[len..];
          Success([c] + tail.value)
  }

  function Decode(bs: seq<byte>): (r: Result<string, Utf8Error>)
    ensures r.Success? ==> Encode(r.value) == bs
  {
    DecodeFrom(bs, 0)
  }

  /** The bytes that encode one scalar value. */
  function EncodeChar(c: char): (bs: seq<byte>)
  {
    var n := c as int;
    if n < 0x80 then [n]
    else if n < 0x800 then [0xC0 + n / 64, 0x80 + n % 64]
    else if n < 0x10000 then [0xE0 + n / 64 / 64, 0x80 + n / 64 % 64, 0x80 + n % 64]
    else [0xF0 + n / 64 / 64 / 64, 0x80 + n / 64 / 64 % 64, 0x80 + n / 64 % 64, 0x80 + n % 64]
  }

  /** `str.encode()`. */
  function Encode(s: string): seq<byte>
  {
    if |s| == 0 then [] else EncodeChar(s[0]) + Encode(s[1..])
  }

  lemma EncodeCons(c: char, s: string)
    ensures Encode([c] + s) == EncodeChar(c) + Encode(s)
  {
    assert ([c] + s)[1..] == s;
  }

  lemma Recombine3(x: int, y: int, z: int)
    requires 0 <= y < 64 && 0 <= z < 64 && 0 <= x
    ensures ((x * 64 + y) * 64 + z) / 64 == x * 64 + y
    ensures ((x * 64 + y) * 64 + z) % 64 == z
    ensures (x * 64 + y) / 64 == x && (x * 64 + y) % 64 == y
  {
  }

  lemma Recombine4(w: int, x: int, y: int, z: int)
    requires 0 <= x < 64 && 0 <= y < 64 && 0 <= z < 64 && 0 <= w
    ensures (((w * 64 + x) * 64 + y) * 64 + z) / 64 == (w * 64 + x) * 64 + y
    ensures (((w * 64 + x) * 64 + y) * 64 + z) % 64 == z
    ensures ((w * 64 + x) * 64 + y) / 64 == w * 64 + x && ((w * 64 + x) * 64 + y) % 64 == y
    ensures (w * 64 + x) / 64 == w && (w * 64 + x) % 64 == x
  {
  }

  /** The encoding of one scalar value decodes back to it, whatever follows. */
  lemma DecodeFirstEncodeChar(c: char, rest: seq<byte>, at: nat)
    ensures DecodeFirst(EncodeChar(c) + rest, at) == Success((c, |EncodeChar(c)|))
  {
    var n := c as int;
    if n < 0x80 {
      assert (EncodeChar(c) + rest)[0] == n;
    } else if n < 0x800 {
      var b0, b1 := 0xC0 + n / 64, 0x80 + n % 64;
      assert EncodeChar(c) == [b0, b1];
      DecodeTwo(b0, b1, rest, at);
      assert EncodeChar(c) + rest == [b0, b1] + rest;
      assert ((b0 as int - 0xC0) * 64 + (b1 as int - 0x80)) as char == c;
    } else if n < 0x10000 {
      var b0, b1, b2 := 0xE0 + n / 64 / 64, 0x80 + n / 64 % 64, 0x80 + n % 64;
      assert EncodeChar(c) == [b0, b1, b2];
      ThreeByteForm(n);
      DecodeThree(b0, b1, b2, rest, at);
      assert EncodeChar(c) + rest == [b0, b1, b2] + rest;
      assert ThreeByteValue(b0, b1, b2) as char == c;
    } else {
      var b0, b1, b2, b3 := 0xF0 + n / 64 / 64 / 64, 0x80 + n / 64 / 64 % 64, 0x80 + n / 64 % 64, 0x80 + n % 64;
      assert EncodeChar(c) == [b0, b1, b2, b3];
      FourByteForm(n);
      DecodeFour(b0, b1, b2, b3, rest, at);
      assert EncodeChar(c) + rest == [b0, b1, b2, b3] + rest;
      assert FourByteValue(b0, b1, b2, b3) as char == c;
    }
  }

  /** The decoder on a well-formed sequence of each length, whatever follows. */
  lemma DecodeTwo(b0: byte, b1: byte, rest: seq<byte>, at: nat)
    requires 0xC2 <= b0 <= 0xDF && IsContinuation(b1)
    ensures var n := (b0 as int - 0xC0) * 64 + (b1 as int - 0x80);
      0x80 <= n < 0x800 && DecodeFirst([b0, b1] + rest, at) == Success((n as char, 2))
  {
    var bs := [b0, b1] + rest;
    assert bs[0] == b0 && bs[1] == b1;
    TwoByteSequence(b0, b1);
  }

  lemma DecodeThree(b0: byte, b1: byte, b2: byte, rest: seq<byte>, at: nat)
    requires 0xE0 <= b0 <= 0xEF && SecondLow(b0) <= b1 <= SecondHigh(b0) && IsContinuation(b2)
    ensures var n := ThreeByteValue(b0, b1, b2);
      0x800 <= n < 0x10000 && !(0xD800 <= n < 0xE000)
      && DecodeFirst([b0, b1, b2] + rest, at) == Success((n as char, 3))
  {
    var bs := [b0, b1, b2] + rest;
    assert bs[0] == b0 && bs[1] == b1 && bs[2] == b2;
    ThreeByteSequence(b0, b1, b2);
  }

  lemma DecodeFour(b0: byte, b1: byte, b2: byte, b3: byte, rest: seq<byte>, at: nat)
    requires 0xF0 <= b0 <= 0xF4 && SecondLow(b0) <= b1 <= SecondHigh(b0)
    requires IsContinuation(b2) && IsContinuation(b3)
    ensures var n := FourByteValue(b0, b1, b2, b3);
      0x10000 <= n <= 0x10FFFF
      && DecodeFirst([b0, b1, b2, b3] + rest, at) == Success((n as char, 4))
  {
    var bs := [b0, b1, b2, b3] + rest;
    assert bs[0] == b0 && bs[1] == b1 && bs[2] == b2 && bs[3] == b3;
    FourByteSequence(b0, b1, b2, b3);
  }

  /** The three bytes `EncodeChar` gives for a value of the three-byte range
      pass the decoder's checks and carry that value. */
  lemma ThreeByteForm(n: int)
    requires 0x800 <= n < 0x10000 && !(0xD800 <= n < 0xE000)
    ensures var b0, b1, b2 := 0xE0 + n / 64 / 64, 0x80 + n / 64 % 64, 0x80 + n % 64;
      && 0xE0 <= b0 <= 0xEF && SecondLow(b0) <= b1 <= SecondHigh(b0) && IsContinuation(b2)
      && ThreeByteValue(b0, b1, b2) == n
  {
    assert n == (n / 64 / 64 * 64 + n / 64 % 64) * 64 + n % 64;
  }

  /** Likewise for the four-byte range. */
  lemma FourByteForm(n: int)
    requires 0x10000 <= n <= 0x10FFFF
    ensures var b0, b1, b2, b3 := 0xF0 + n / 64 / 64 / 64, 0x80 + n / 64 / 64 % 64, 0x80 + n / 64 % 64, 0x80 + n % 64;
      && 0xF0 <= b0 <= 0xF4 && SecondLow(b0) <= b1 <= SecondHigh(b0)
      && IsContinuation(b2) && IsContinuation(b3)
      && FourByteValue(b0, b1, b2, b3) == n
  {
    assert n == ((n / 64 / 64 / 64 * 64 + n / 64 / 64 % 64) * 64 + n / 64 % 64) * 64 + n % 64;
  }

  /** Round trip: decoding the encoding of any text gives the text back. */
  lemma {:induction false} DecodeEncode(s: string, at: nat)
    ensures DecodeFrom(Encode(s), at) == Success(s)
    decreases |s|
  {
    if |s| > 0 {
      var head := EncodeChar(s[0]);
      var bs := Encode(s);
      assert bs == head + Encode(s[1..]);
      DecodeFirstEncodeChar(s[0], Encode(s[1..]), at);
      DropPrefix(head, Encode(s[1..]));
      DecodeEncode(s[1..], at + |head|);
      assert [s[0]] + s[1..] == s;
    }
  }

  /** Decoding succeeds exactly on the encodings of texts, and then gives
      that text. */
  lemma DecodeIffEncode(bs: seq<byte>, s: string)
    ensures Decode(bs) == Success(s) <==> bs == Encode(s)
  {
    if bs == Encode(s) {
      DecodeEncode(s, 0);
    }
  }

  /** Section 3 of RFC 3629 forbids these lead bytes: a continuation byte
      standing alone, C0 and C1 (which could only start overlong two-byte
      forms), and F5 to FF (which could only start values above U+10FFFF).
      Whatever follows, the decoder refuses them at once. */
  lemma RefusesBadLead(b0: byte, rest: seq<byte>)
    requires 0x80 <= b0 <= 0xC1 || 0xF5 <= b0
    ensures Decode([b0] + rest) == Failure(InvalidStartByte(0))
  {
    assert ([b0] + rest)[0] == b0;
  }

  /** A second byte outside the range its lead byte allows is refused: any
      non-continuation byte, and in particular the overlong three-byte forms
      (E0 80..9F), the encoded surrogates (ED A0..BF), the overlong four-byte
      forms (F0 80..8F) and the values above U+10FFFF (F4 90..BF). */
  lemma RefusesBadSecond(b0: byte, b1: byte, rest: seq<byte>)
    requires LeadLength(b0) >= 2
    requires || !IsContinuation(b1)
             || (b0 == 0xE0 && 0x80 <= b1 <= 0x9F)
             || (b0 == 0xED && 0xA0 <= b1 <= 0xBF)
             || (b0 == 0xF0 && 0x80 <= b1 <= 0x8F)
             || (b0 == 0xF4 && 0x90 <= b1 <= 0xBF)
    ensures Decode([b0, b1] + rest) == Failure(InvalidContinuation(0))
  {
    var bs := [b0, b1] + rest;
    assert bs[0] == b0 && bs[1] == b1;
  }

  /** A third or fourth byte that is not a continuation byte is refused. */
  lemma RefusesBadLater(b0: byte, b1: byte, b2: byte, rest: seq<byte>)
    requires LeadLength(b0) >= 3 && SecondLow(b0) <= b1 <= SecondHigh(b0)
    requires !IsContinuation(b2) || (LeadLength(b0) == 4 && |rest| > 0 && !IsContinuation(rest[0]))
    ensures Decode([b0, b1, b2] + rest) == Failure(InvalidContinuation(0))
  {
    var bs := [b0, b1, b2] + rest;
    assert bs[0] == b0 && bs[1] == b1 && bs[2] == b2;
    assert |rest| > 0 ==> bs[3] == rest[0];
  }

  /** A sequence whose bytes so far are well formed but which the input
      ends before it is complete is refused as cut short. */
  lemma RefusesCutShort(bs: seq<byte>)
    requires 0 < |bs| < LeadLength(bs[0])
    requires |bs| >= 2 ==> SecondLow(bs[0]) <= bs[1] <= SecondHigh(bs[0])
    requires |bs| >= 3 ==> IsContinuation(bs[2])
    ensures Decode(bs) == Failure(UnexpectedEnd(0))
  {
  }
}
