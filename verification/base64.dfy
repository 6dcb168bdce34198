/** Python's `base64.b64decode(s)` on a `str`, with its default
    `validate=False`, over the standard alphabet of section 4 of RFC 4648;
    and the canonical padded encoder of that section as its partner.

    Decoding first turns the text into ASCII bytes (a non-ASCII character
    raises `ValueError`), then scans it the way CPython's non-strict
    `binascii.a2b_base64` does: characters outside the alphabet are skipped,
    a complete run of padding ends the scan (whatever follows is ignored),
    and a scan that ends inside a quantum of four characters fails. */
module Base64 {
  import opened Wrappers
  import opened Bytes
  import opened Seqs

  datatype Base64Error =
    | NonAscii            // `ValueError`: string argument should contain only ASCII characters
    | ExcessDataCharacter // `binascii.Error`: 1 more data character than a multiple of 4
    | IncorrectPadding    // `binascii.Error`: Incorrect padding

  /** Where the scanner is inside a quantum of four characters. */
  type QuadPos = q: int | 0 <= q < 4

  /** The scanner's variables: the position in the current quantum, the
      bits of the last data character not yet emitted (`left`), the padding
      characters seen since the last data character once at least two data
      characters of the quantum are in (`pads`), and the bytes so far. */
  datatype ScanState = ScanState(quad: QuadPos, left: int, pads: nat, out: seq<byte>)

  /** The state before the first character, with output `out` already there. */
  function Start(out: seq<byte>): ScanState
  {
    ScanState(0, 0, 0, out)
  }

  /** The 6-bit value of a character of the alphabet, or -1 for any other
      character (padding included). */
  function SextetOf(c: char): (v: int)
    ensures -1 <= v < 64
  {
    if 'A' <= c <= 'Z' then c as int - 'A' as int
    else if 'a' <= c <= 'z' then c as int - 'a' as int + 26
    else if '0' <= c <= '9' then c as int - '0' as int + 52
    else if c == '+' then 62
    else if c == '/' then 63
    else -1
  }

  /** The character of the alphabet for a 6-bit value. */
  function Alphabet(v: int): (c: char)
    requires 0 <= v < 64
    ensures SextetOf(c) == v
  {
    if v < 26 then ('A' as int + v) as char
    else if v < 52 then ('a' as int + v - 26) as char
    else if v < 62 then ('0' as int + v - 52) as char
    else if v == 62 then '+'
    else '/'
  }

  predicate IsAscii(s: string)
  {
    forall i :: 0 <= i < |s| ==> s[i] as int < 0x80
  }

  /** One turn of the scanning loop on character `c`: `None` when `c`
      completes a run of padding and the scan stops, the next state
      otherwise. Each emitted byte is the C expression
      `(left << k) | (v >> (6 - k))` stored into an `unsigned char`; the
      shifted parts never overlap, so it is written with `*`, `/` and `+`,
      then reduced modulo 256. */
  function Consume(st: ScanState, c: char): (next: Option<ScanState>)
    ensures next.Some? ==> st.out <= next.value.out
    ensures next.None? <==> c == '=' && st.quad >= 2 && st.quad + st.pads + 1 >= 4
  {
    var ScanState(quad, left, pads, out) := st;
    if c == '=' then
      if quad >= 2 && quad + pads + 1 >= 4 then None
      else Some(ScanState(quad, left, if quad >= 2 then pads + 1 else pads, out))
    else
      var v := SextetOf(c);
      if v < 0 then Some(st)
      else if quad == 0 then Some(ScanState(1, v, 0, out))
      else if quad == 1 then Some(ScanState(2, v % 16, 0, out + [(left * 4 + v / 16) % 256]))
      else if quad == 2 then Some(ScanState(3, v % 4, 0, out + [(left * 16 + v / 4) % 256]))
      else Some(ScanState(0, 0, 0, out + [(left * 64 + v) % 256]))
  }

  /** The end of the input: only a scan between quanta succeeds. */
  function Finish(st: ScanState): Result<seq<byte>, Base64Error>
  {
    if st.quad == 0 then Success(st.out)
    else if st.quad == 1 then Failure(ExcessDataCharacter)
    else Failure(IncorrectPadding)
  }

  /** The scanning loop of `binascii.a2b_base64` over the rest `s` of the
      input. */
  function Scan(s: string, st: ScanState): (r: Result<seq<byte>, Base64Error>)
    ensures r.Success? ==> st.out <= r.value
    ensures r.Failure? ==> r.error != NonAscii
    decreases |s|
  {
    if |s| == 0 then Finish(st)
    else
      match Consume(st, s[0])
      case None => Success(st.out)
      case Some(next) => Scan(s[1..], next)
  }

  /** `base64.b64decode(s)`. */
  function Decode(s: string): (r: Result<seq<byte>, Base64Error>)
    ensures r == Failure(NonAscii) <==> !IsAscii(s)
  {
    if !IsAscii(s) then Failure(NonAscii) else Scan(s, Start([]))
  }

  /** The four characters of a full quantum of three bytes. */
  function EncodeQuantum(b0: byte, b1: byte, b2: byte): string
  {
    [Alphabet(b0 / 4), Alphabet(b0 % 4 * 16 + b1 / 16), Alphabet(b1 % 16 * 4 + b2 / 64), Alphabet(b2 % 64)]
  }

  /** `base64.b64encode(b)`: four characters for every three bytes, the
      last quantum padded with `=`. */
  function Encode(b: seq<byte>): string
    decreases |b|
  {
    if |b| == 0 then ""
    else if |b| == 1 then [Alphabet(b[0] / 4), Alphabet(b[0] % 4 * 16), '=', '=']
    else if |b| == 2 then [Alphabet(b[0] / 4), Alphabet(b[0] % 4 * 16 + b[1] / 16), Alphabet(b[1] % 16 * 4), '=']
    else EncodeQuantum(b[0], b[1], b[2]) + Encode(b[3..])
  }

  /** Four characters for every three bytes, or part of three. */
  lemma {:induction false} EncodeLength(b: seq<byte>)
    ensures |Encode(b)| == (|b| + 2) / 3 * 4
    decreases |b|
  {
    if |b| >= 3 {
      EncodeLength(b[3..]);
      assert |Encode(b)| == 4 + |Encode(b[3..])|;
      GroupCount(|b|);
    }
  }

  lemma GroupCount(n: int)
    requires n >= 3
    ensures (n + 2) / 3 * 4 == 4 + (n - 3 + 2) / 3 * 4
  {
  }

  /** An encoding holds nothing but alphabet characters and padding, so it
      is ASCII and has no space in it. */
  lemma {:induction false} EncodeCharacters(b: seq<byte>)
    ensures forall i :: 0 <= i < |Encode(b)| ==> SextetOf(Encode(b)[i]) >= 0 || Encode(b)[i] == '='
    ensures IsAscii(Encode(b))
    ensures ' ' !in Encode(b)
    decreases |b|
  {
    if |b| >= 3 {
      EncodeCharacters(b[3..]);
    }
    var s := Encode(b);
    forall i | 0 <= i < |s|
      ensures (SextetOf(s[i]) >= 0 || s[i] == '=') && s[i] as int < 0x80
    {
      if SextetOf(s[i]) >= 0 {
        AlphabetIsAscii(s[i]);
      }
    }
  }

  lemma AlphabetIsAscii(c: char)
    requires SextetOf(c) >= 0
    ensures c as int < 0x80 && c != ' ' && c != '='
  {
  }

  /** The scan of a non-empty text is one turn of the loop and the scan of
      what follows. */
  lemma ScanCons(c: char, rest: string, st: ScanState)
    ensures Scan([c] + rest, st)
         == match Consume(st, c)
            case None => Success(st.out)
            case Some(next) => Scan(rest, next)
  {
    assert ([c] + rest)[0] == c && ([c] + rest)[1..] == rest;
  }

  /** The bit arithmetic of one quantum: the four sextets of three bytes
      give the three bytes back. */
  lemma QuantumArithmetic(b0: byte, b1: byte, b2: byte)
    ensures (b0 / 4 * 4 + (b0 % 4 * 16 + b1 / 16) / 16) % 256 == b0
    ensures (b0 % 4 * 16 + b1 / 16) % 16 == b1 / 16
    ensures (b1 / 16 * 16 + (b1 % 16 * 4 + b2 / 64) / 4) % 256 == b1
    ensures (b1 % 16 * 4 + b2 / 64) % 4 == b2 / 64
    ensures (b2 / 64 * 64 + b2 % 64) % 256 == b2
  {
  }

  /** The four turns of the loop over a full quantum, one by one. */
  lemma ConsumeQuantum(b0: byte, b1: byte, b2: byte, out: seq<byte>)
    ensures Consume(Start(out), Alphabet(b0 / 4)) == Some(ScanState(1, b0 / 4, 0, out))
    ensures Consume(ScanState(1, b0 / 4, 0, out), Alphabet(b0 % 4 * 16 + b1 / 16))
         == Some(ScanState(2, b1 / 16, 0, out + [b0]))
    ensures Consume(ScanState(2, b1 / 16, 0, out + [b0]), Alphabet(b1 % 16 * 4 + b2 / 64))
         == Some(ScanState(3, b2 / 64, 0, out + [b0] + [b1]))
    ensures Consume(ScanState(3, b2 / 64, 0, out + [b0] + [b1]), Alphabet(b2 % 64))
         == Some(Start(out + [b0, b1, b2]))
  {
    QuantumArithmetic(b0, b1, b2);
    assert out + [b0] + [b1] + [b2] == out + [b0, b1, b2];
  }

  /** One full quantum of four characters puts three bytes back. */
  lemma FullQuantum(b0: byte, b1: byte, b2: byte, rest: string, out: seq<byte>)
    ensures Scan(EncodeQuantum(b0, b1, b2) + rest, Start(out)) == Scan(rest, Start(out + [b0, b1, b2]))
  {
    var c0, c1, c2, c3 := Alphabet(b0 / 4), Alphabet(b0 % 4 * 16 + b1 / 16),
                          Alphabet(b1 % 16 * 4 + b2 / 64), Alphabet(b2 % 64);
    assert EncodeQuantum(b0, b1, b2) + rest == [c0] + ([c1] + ([c2] + ([c3] + rest)));
    ConsumeQuantum(b0, b1, b2, out);
    ScanCons(c0, [c1] + ([c2] + ([c3] + rest)), Start(out));
    ScanCons(c1, [c2] + ([c3] + rest), ScanState(1, b0 / 4, 0, out));
    ScanCons(c2, [c3] + rest, ScanState(2, b1 / 16, 0, out + [b0]));
    ScanCons(c3, rest, ScanState(3, b2 / 64, 0, out + [b0] + [b1]));
  }

  /** A last quantum with one data byte: two characters and `==`. */
  lemma OneByteQuantum(b0: byte, rest: string, out: seq<byte>)
    ensures Scan([Alphabet(b0 / 4), Alphabet(b0 % 4 * 16), '=', '='] + rest, Start(out)) == Success(out + [b0])
  {
    var c0, c1 := Alphabet(b0 / 4), Alphabet(b0 % 4 * 16);
    assert [c0, c1, '=', '='] + rest == [c0] + ([c1] + (['='] + (['='] + rest)));
    QuantumArithmetic(b0, 0, 0);
    ScanCons(c0, [c1] + (['='] + (['='] + rest)), Start(out));
    ScanCons(c1, ['='] + (['='] + rest), ScanState(1, b0 / 4, 0, out));
    ScanCons('=', ['='] + rest, ScanState(2, 0, 0, out + [b0]));
    ScanCons('=', rest, ScanState(2, 0, 1, out + [b0]));
  }

  /** A last quantum with two data bytes: three characters and `=`. */
  lemma TwoByteQuantum(b0: byte, b1: byte, rest: string, out: seq<byte>)
    ensures Scan([Alphabet(b0 / 4), Alphabet(b0 % 4 * 16 + b1 / 16), Alphabet(b1 % 16 * 4), '='] + rest, Start(out))
         == Success(out + [b0, b1])
  {
    var c0, c1, c2 := Alphabet(b0 / 4), Alphabet(b0 % 4 * 16 + b1 / 16), Alphabet(b1 % 16 * 4);
    assert [c0, c1, c2, '='] + rest == [c0] + ([c1] + ([c2] + (['='] + rest)));
    assert c2 == Alphabet(b1 % 16 * 4 + 0 / 64);
    ConsumeQuantum(b0, b1, 0, out);
    ScanCons(c0, [c1] + ([c2] + (['='] + rest)), Start(out));
    ScanCons(c1, [c2] + (['='] + rest), ScanState(1, b0 / 4, 0, out));
    ScanCons(c2, ['='] + rest, ScanState(2, b1 / 16, 0, out + [b0]));
    ScanCons('=', rest, ScanState(3, 0, 0, out + [b0] + [b1]));
    assert out + [b0] + [b1] == out + [b0, b1];
  }

  lemma ModThree(n: int)
    requires n >= 3
    ensures (n - 3) % 3 == n % 3
  {
  }

  /** The first full quantum of an encoding gives the first three bytes. */
  lemma ScanFirstQuantum(b: seq<byte>, rest: string, out: seq<byte>)
    requires |b| >= 3
    ensures Scan(Encode(b) + rest, Start(out)) == Scan(Encode(b[3..]) + rest, Start(out + b[..3]))
  {
    var quantum := EncodeQuantum(b[0], b[1], b[2]);
    assert Encode(b) == quantum + Encode(b[3..]);
    ConcatAssoc(quantum, Encode(b[3..]), rest);
    FullQuantum(b[0], b[1], b[2], Encode(b[3..]) + rest, out);
    TakeThree(b);
  }

  /** The scan of a final padded quantum ends there. */
  lemma ScanShortEncoding(b: seq<byte>, rest: string, out: seq<byte>)
    requires 1 <= |b| <= 2
    ensures Scan(Encode(b) + rest, Start(out)) == Success(out + b)
  {
    if |b| == 1 {
      OneByteQuantum(b[0], rest, out);
      assert out + [b[0]] == out + b;
    } else {
      TwoByteQuantum(b[0], b[1], rest, out);
      assert out + [b[0], b[1]] == out + b;
    }
  }

  /** The scan of an encoding followed by more text: a padded last quantum
      ends the scan, otherwise the scan carries on into what follows. */
  lemma {:induction false} ScanEncoding(b: seq<byte>, rest: string, out: seq<byte>)
    ensures Scan(Encode(b) + rest, Start(out))
         == if |b| % 3 == 0 then Scan(rest, Start(out + b)) else Success(out + b)
    decreases |b|
  {
    if |b| == 0 {
      assert Encode(b) + rest == rest;
      assert out + b == out;
    } else if |b| <= 2 {
      ScanShortEncoding(b, rest, out);
    } else {
      ScanEncoding(b[3..], rest, out + b[..3]);
      ScanLongEncoding(b, rest, out);
    }
  }

  /** The inductive step of `ScanEncoding`: past the first quantum the scan
      goes on as the scan of the encoding of the remaining bytes. */
  lemma ScanLongEncoding(b: seq<byte>, rest: string, out: seq<byte>)
    requires |b| >= 3
    requires Scan(Encode(b[3..]) + rest, Start(out + b[..3]))
          == if |b[3..]| % 3 == 0 then Scan(rest, Start(out + b[..3] + b[3..]))
             else Success(out + b[..3] + b[3..])
    ensures Scan(Encode(b) + rest, Start(out))
         == if |b| % 3 == 0 then Scan(rest, Start(out + b)) else Success(out + b)
  {
    ScanFirstQuantum(b, rest, out);
    AppendSplit(out, b, 3);
    ModThree(|b|);
  }

  /** Round trip: decoding the encoding of any bytes gives the bytes back. */
  lemma DecodeEncode(b: seq<byte>)
    ensures Decode(Encode(b)) == Success(b)
  {
    EncodeCharacters(b);
    ScanEncoding(b, "", []);
    assert Encode(b) + "" == Encode(b);
    assert [] + b == b;
  }

  /** Padding ends decoding: whatever ASCII text follows a padded encoding
      is ignored. */
  lemma TextAfterPaddingIgnored(b: seq<byte>, rest: string)
    requires |b| % 3 != 0
    requires IsAscii(rest)
    ensures Decode(Encode(b) + rest) == Success(b)
  {
    EncodeCharacters(b);
    ScanEncoding(b, rest, []);
    AsciiConcat(Encode(b), rest);
    assert [] + b == b;
  }

  lemma AsciiConcat(a: string, b: string)
    requires IsAscii(a) && IsAscii(b)
    ensures IsAscii(a + b)
  {
    forall i | 0 <= i < |a + b| ensures (a + b)[i] as int < 0x80 {
      if i >= |a| { assert (a + b)[i] == b[i - |a|]; }
    }
  }

  /** Characters outside the alphabet that are not padding are skipped
      wherever they stand. */
  lemma {:induction false} ScanSkipsForeign(a: string, c: char, b: string, st: ScanState)
    requires SextetOf(c) < 0 && c != '='
    ensures Scan(a + [c] + b, st) == Scan(a + b, st)
    decreases |a|
  {
    if |a| == 0 {
      assert a + [c] + b == [c] + b;
      assert a + b == b;
      ScanCons(c, b, st);
    } else {
      assert a + [c] + b == [a[0]] + (a[1..] + [c] + b);
      assert a + b == [a[0]] + (a[1..] + b);
      ScanCons(a[0], a[1..] + [c] + b, st);
      ScanCons(a[0], a[1..] + b, st);
      match Consume(st, a[0])
      case None =>
      case Some(next) => ScanSkipsForeign(a[1..], c, b, next);
    }
  }

  /** So `b64decode` ignores an ASCII character outside the alphabet, such
      as a space or a line break, inside the token. */
  lemma DecodeSkipsForeign(a: string, c: char, b: string)
    requires c as int < 0x80 && SextetOf(c) < 0 && c != '='
    ensures Decode(a + [c] + b) == Decode(a + b)
  {
    ScanSkipsForeign(a, c, b, Start([]));
    var s, t := a + [c] + b, a + b;
    if IsAscii(t) {
      forall i | 0 <= i < |s| ensures s[i] as int < 0x80 {
        if i < |a| { assert s[i] == t[i]; }
        else if i > |a| { assert s[i] == t[i - 1]; }
      }
    }
    if IsAscii(s) {
      forall i | 0 <= i < |t| ensures t[i] as int < 0x80 {
        if i < |a| { assert t[i] == s[i]; } else { assert t[i] == s[i + 1]; }
      }
    }
  }

  /** A scan over alphabet characters only ends in the quantum position its
      length gives. */
  lemma {:induction false} ScanDataOnly(s: string, st: ScanState)
    requires forall i :: 0 <= i < |s| ==> SextetOf(s[i]) >= 0
    ensures Scan(s, st).Success? <==> (st.quad + |s|) % 4 == 0
    ensures Scan(s, st).Failure? ==>
      Scan(s, st).error == if (st.quad + |s|) % 4 == 1 then ExcessDataCharacter else IncorrectPadding
    decreases |s|
  {
    if |s| > 0 {
      var next := DataStep(s, st);
      forall i | 0 <= i < |s[1..]| ensures SextetOf(s[1..][i]) >= 0 {
        assert s[1..][i] == s[i + 1];
      }
      ScanDataOnly(s[1..], next);
      QuadStep(st.quad, |s|);
    }
  }

  /** One turn of the loop on an alphabet character moves one place along
      the quantum. */
  lemma DataStep(s: string, st: ScanState) returns (next: ScanState)
    requires |s| > 0 && SextetOf(s[0]) >= 0
    ensures next.quad == (st.quad + 1) % 4
    ensures Scan(s, st) == Scan(s[1..], next)
  {
    next := Consume(st, s[0]).value;
  }

  lemma QuadStep(q: int, n: int)
    requires 0 <= q < 4 && n >= 1
    ensures ((q + 1) % 4 + (n - 1)) % 4 == (q + n) % 4
  {
  }

  /** An unpadded token of alphabet characters decodes exactly when its
      length is a multiple of four; one character over is the length
      error, two or three over is "Incorrect padding". */
  lemma DecodeUnpadded(s: string)
    requires forall i :: 0 <= i < |s| ==> SextetOf(s[i]) >= 0
    ensures Decode(s).Success? <==> |s| % 4 == 0
    ensures |s| % 4 == 1 ==> Decode(s) == Failure(ExcessDataCharacter)
    ensures |s| % 4 >= 2 ==> Decode(s) == Failure(IncorrectPadding)
  {
    assert Start([]).quad == 0;
    forall i | 0 <= i < |s| ensures s[i] as int < 0x80 {
      AlphabetIsAscii(s[i]);
    }
    ScanDataOnly(s, Start([]));
  }
}
