/** `Encryption.decode`: the e-mail and password carried by an HTTP
    `Authorization` header of the Basic scheme (section 2 of RFC 7617),
    read the way the code reads it. The header is split on single spaces
    and its second word is the token, whatever the first word says; the
    token is base64-decoded, the bytes UTF-8-decoded, and the text split on
    `:`, the first two pieces being the e-mail and the password. Each
    Python exception on the way becomes a `Failure`. */
module Encryption {
  import opened Wrappers
  import opened Strings
  import Utf8
  import Base64

  /** Why a header yields no credentials, one case per exception. */
  datatype DecodeError =
    | MissingToken                         // `IndexError`: no second word
    | BadBase64(cause: Base64.Base64Error) // `ValueError` / `binascii.Error` from `b64decode`
    | BadUtf8(reason: Utf8.Utf8Error)      // `UnicodeDecodeError` from `bytes.decode`
    | MissingColon                         // `IndexError`: no second piece after `split(":")`

  /** The text a token carries: base64, then UTF-8. */
  function TokenText(token: string): (r: Result<string, DecodeError>)
    ensures r.Success? ==> Base64.Decode(token) == Success(Utf8.Encode(r.value))
    ensures r.Failure? ==> r.error.BadBase64? || r.error.BadUtf8?
  {
    match Base64.Decode(token)
    case Failure(e) => Failure(BadBase64(e))
    case Success(key) =>
      match Utf8.Decode(key)
      case Failure(e) => Failure(BadUtf8(e))
      case Success(text) => Success(text)
  }

  /** The token's part of the decoder: its text, then the first two
      `:`-separated pieces. */
  function DecodeToken(token: string): (r: Result<(string, string), DecodeError>)
    ensures r.Success? ==> ':' !in r.value.0 && ':' !in r.value.1
    ensures TokenText(token).Success? ==>
      (r == Failure(MissingColon) <==> ':' !in TokenText(token).value)
  {
    match TokenText(token)
    case Failure(e) => Failure(e)
    case Success(text) =>
      var userData := Split(text, ':');
      SecondPieceIffSeparator(text, ':');
      if |userData| < 2 then Failure(MissingColon)
      else Success((userData[0], userData[1]))
  }

  /** `Encryption.decode(auth_header)`. */
  function Decode(authHeader: string): (r: Result<(string, string), DecodeError>)
    ensures ' ' !in authHeader <==> r == Failure(MissingToken)
    ensures r.Success? ==> ':' !in r.value.0 && ':' !in r.value.1
  {
    var words := Split(authHeader, ' ');
    SecondPieceIffSeparator(authHeader, ' ');
    if |words| < 2 then Failure(MissingToken) else DecodeToken(words[1])
  }

  /** What a client sends: the scheme word, a space, and the base64 of the
      UTF-8 of `email:password`. */
  function BasicHeader(scheme: string, email: string, password: string): string
  {
    scheme + " " + Base64.Encode(Utf8.Encode(email + ":" + password))
  }

  /** The token is the text between the first space and the next one (or
      the end): the first word is never looked at. */
  lemma {:induction false} TokenIsSecondWord(scheme: string, token: string, rest: string)
    requires ' ' !in scheme && ' ' !in token
    ensures Decode(scheme + " " + token) == DecodeToken(token)
    ensures Decode(scheme + " " + token + " " + rest) == DecodeToken(token)
  {
    assert Split(scheme + " " + token, ' ') == [scheme, token] by {
      SplitAtFirst(scheme, token, ' ');
      NoSeparatorOnePiece(token, ' ');
    }
    assert Split(scheme + " " + token + " " + rest, ' ')[1] == token by {
      TwoPiecesAtFront(scheme, token, rest, ' ');
    }
  }

  /** So "Bearer X" reads like "Basic X", and anything after a second
      space is dropped. */
  lemma SchemeIgnored(scheme1: string, scheme2: string, token: string, rest: string)
    requires ' ' !in scheme1 && ' ' !in scheme2 && ' ' !in token
    ensures Decode(scheme1 + " " + token) == Decode(scheme2 + " " + token)
    ensures Decode(scheme1 + " " + token + " " + rest) == Decode(scheme2 + " " + token)
  {
    TokenIsSecondWord(scheme1, token, rest);
    TokenIsSecondWord(scheme2, token, rest);
  }

  /** The token of a well-formed header decodes to the first two
      `:`-separated pieces of the text it encodes, or fails for want of a
      colon. */
  lemma DecodeEncodedText(scheme: string, text: string)
    requires ' ' !in scheme
    ensures var parts := Split(text, ':');
      Decode(scheme + " " + Base64.Encode(Utf8.Encode(text)))
      == if ':' in text then Success((parts[0], parts[1])) else Failure(MissingColon)
  {
    var token := Base64.Encode(Utf8.Encode(text));
    Base64.EncodeCharacters(Utf8.Encode(text));
    TokenIsSecondWord(scheme, token, "");
    EncodedTokenText(text);
    SecondPieceIffSeparator(text, ':');
  }

  /** The token of the encoding of a text carries that text. */
  lemma EncodedTokenText(text: string)
    ensures TokenText(Base64.Encode(Utf8.Encode(text))) == Success(text)
  {
    Base64.DecodeEncode(Utf8.Encode(text));
    Utf8.DecodeEncode(text, 0);
  }

  /** Round trip: an e-mail and a password without `:` come back as they
      were sent, under any scheme word. */
  lemma RoundTrip(scheme: string, email: string, password: string)
    requires ' ' !in scheme && ':' !in email && ':' !in password
    ensures Decode(BasicHeader(scheme, email, password)) == Success((email, password))
  {
    DecodeEncodedText(scheme, email + ":" + password);
    SplitAtFirst(email, password, ':');
    NoSeparatorOnePiece(password, ':');
    assert email + ":" + password == email + [':'] + password;
    assert (email + ":" + password)[|email|] == ':';
  }

  /** A password that itself holds `:` is cut at its first colon. */
  lemma PasswordTruncatedAtColon(scheme: string, email: string, password: string, tail: string)
    requires ' ' !in scheme && ':' !in email && ':' !in password
    ensures Decode(BasicHeader(scheme, email, password + ":" + tail)) == Success((email, password))
  {
    var text := email + ":" + (password + ":" + tail);
    DecodeEncodedText(scheme, text);
    assert text == email + [':'] + (password + [':'] + tail);
    SplitAtFirst(email, password + [':'] + tail, ':');
    SplitAtFirst(password, tail, ':');
    assert text[|email|] == ':';
  }

  /** Decoded text without a colon gives no credentials. */
  lemma NoColonFails(scheme: string, text: string)
    requires ' ' !in scheme && ':' !in text
    ensures Decode(scheme + " " + Base64.Encode(Utf8.Encode(text))) == Failure(MissingColon)
  {
    DecodeEncodedText(scheme, text);
  }

  /** Empty parts are not refused: the base64 of ":" gives two empty
      strings. */
  lemma EmptyPartsAccepted()
    ensures Decode("Basic Og==") == Success(("", ""))
  {
    RoundTrip("Basic", "", "");
    ColonHeader();
  }

  lemma ColonHeader()
    ensures BasicHeader("Basic", "", "") == "Basic Og=="
  {
    assert "" + ":" + "" == ":";
    assert Utf8.Encode(":") == [58];
    assert Base64.Encode([58]) == "Og==";
    assert "Basic" + " " + "Og==" == "Basic Og==";
  }

  /** A token that base64 refuses stops the decoder there, with the base64
      error. */
  lemma BadTokenFailsFirst(scheme: string, token: string)
    requires ' ' !in scheme && ' ' !in token
    requires Base64.Decode(token).Failure?
    ensures Decode(scheme + " " + token) == Failure(BadBase64(Base64.Decode(token).error))
  {
    TokenIsSecondWord(scheme, token, "");
  }

  /** In particular a token of alphabet characters whose length is not a
      multiple of four fails, whatever it would have decoded to. */
  lemma BadLengthFails(scheme: string, token: string)
    requires ' ' !in scheme
    requires forall i :: 0 <= i < |token| ==> Base64.SextetOf(token[i]) >= 0
    requires |token| % 4 != 0
    ensures Decode(scheme + " " + token).Failure?
    ensures Decode(scheme + " " + token).error.BadBase64?
  {
    forall i | 0 <= i < |token| ensures token[i] != ' ' {
      Base64.AlphabetIsAscii(token[i]);
    }
    Base64.DecodeUnpadded(token);
    BadTokenFailsFirst(scheme, token);
  }

  /** Bytes that are not UTF-8 give no credentials: "/w==" is the single
      byte FF, which starts no UTF-8 sequence. */
  lemma NonUtf8Fails(scheme: string)
    requires ' ' !in scheme
    ensures Decode(scheme + " " + "/w==") == Failure(BadUtf8(Utf8.InvalidStartByte(0)))
  {
    TokenIsSecondWord(scheme, "/w==", "");
    TokenByteFF();
  }

  lemma TokenByteFF()
    ensures TokenText("/w==") == Failure(BadUtf8(Utf8.InvalidStartByte(0)))
  {
    assert Base64.Encode([0xFF]) == "/w==";
    Base64.DecodeEncode([0xFF]);
    assert Utf8.DecodeFirst([0xFF], 0) == Failure(Utf8.InvalidStartByte(0));
  }

  // ---------------------------------------------------------------------------
  // The credentials as section 2 of RFC 7617 delimits them

  /** The decoder with the text cut at its first colon only, as
      `text.split(":", 1)` would: the user-id cannot hold a colon but the
      password can. */
  function DecodeAtFirstColon(authHeader: string): (r: Result<(string, string), DecodeError>)
    ensures ' ' !in authHeader <==> r == Failure(MissingToken)
    ensures r.Success? ==> ':' !in r.value.0
  {
    var words := Split(authHeader, ' ');
    SecondPieceIffSeparator(authHeader, ' ');
    if |words| < 2 then Failure(MissingToken)
    else
      match TokenText(words[1])
      case Failure(e) => Failure(e)
      case Success(text) =>
        var userData := Split(text, ':');
        if |userData| < 2 then Failure(MissingColon)
        else
          assert Join(userData, ':') == userData[0] + [':'] + Join(userData[1..], ':');
          Success((userData[0], text[|userData[0]| + 1..]))
  }

  /** With the text cut at its first colon, any password comes back whole. */
  lemma RoundTripAnyPassword(scheme: string, email: string, password: string)
    requires ' ' !in scheme && ':' !in email
    ensures DecodeAtFirstColon(BasicHeader(scheme, email, password)) == Success((email, password))
  {
    var text := email + ":" + password;
    var token := Base64.Encode(Utf8.Encode(text));
    Base64.EncodeCharacters(Utf8.Encode(text));
    SplitAtFirst(scheme, token, ' ');
    NoSeparatorOnePiece(token, ' ');
    assert scheme + " " + token == scheme + [' '] + token;
    EncodedTokenText(text);
    assert text == email + [':'] + password;
    SplitAtFirst(email, password, ':');
    assert text[|email| + 1..] == password;
  }

  /** For headers `BasicHeader` builds from colon-free parts, the two
      decoders agree. */
  lemma AgreeWithoutSecondColon(scheme: string, email: string, password: string)
    requires ' ' !in scheme && ':' !in email && ':' !in password
    ensures DecodeAtFirstColon(BasicHeader(scheme, email, password)) == Decode(BasicHeader(scheme, email, password))
  {
    RoundTrip(scheme, email, password);
    RoundTripAnyPassword(scheme, email, password);
  }
}
