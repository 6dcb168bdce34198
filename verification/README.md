# Assignment API: payload validation and Basic-auth decoding, in Dafny

This project models the two pieces of real logic in a small Flask CRUD API
for users and assignments:

- **the assignment payload validator** `Validation.isAssignDataValid`
  (`util/validations.py`). It maps a JSON object to one message string, and
  `""` means the payload is valid;
- **the credential decoder** `Encryption.decode` (`util/encrypt.py`). It takes
  an HTTP `Authorization` header and returns the e-mail and password inside it.

Everything is pure functions over immutable values:

- A request body is a `map<string, JVal>`, where `JVal` is a JSON value:
  - `JStr`, `JInt` and `JBool` are kept apart;
  - `JNull` also stands for a missing key, since `dict.get` yields `None`;
  - `JOther` covers floats, arrays and nested objects, which the validator never distinguishes.
- Every Python exception on the decoder's path becomes a `Failure` of a
  `Result`.

Modules, one per concept:

| file | module | what |
|---|---|---|
| wrappers.dfy | `Wrappers` | `Option`, `Result` |
| json.dfy | `Json` | `JVal`, `Payload`, Python's `dict.get` and `isinstance(v, int)` |
| validation.dfy | `Validation` | `isAssignDataValid` and its precedence lemmas |
| strings.dfy | `Strings` | `str.split(sep)` and `sep.join` |
| seqs.dfy | `Seqs` | facts about concatenation and slicing |
| bytes.dfy | `Bytes` | the octet type |
| utf8.dfy | `Utf8` | Python's strict UTF-8 `bytes.decode()` and `str.encode()` |
| base64.dfy | `Base64` | `base64.b64decode` on a `str` (non-validating), `b64encode` |
| encryption.dfy | `Encryption` | `Encryption.decode`, the client-side `BasicHeader`, and a first-colon variant |

## How the validator really orders its checks

The `if/elif` chain (lines 11-18) only *records* a message. The loop over
`points` and `num_of_attempts` (lines 19-24) then runs whatever happened
before and *returns early*. So a bad `points` or `num_of_attempts` overrides
every other message: a payload with no `points` key is told
"Invalid type: points must be an integer", not that a mandatory field is
missing. That is not the mandatory-first order (mandatory keys first,
integer fields last) sometimes described for this validator; the model
follows the code.

Python's `bool` is a subclass of `int`. So `true` passes the integer check
as 1, and `false` fails the range check as 0.

## How the decoder reads a header

1. `auth_header.split(" ")[1]`: the second space-separated word is the token,
   whatever the first word says. No space means `IndexError`.
2. `base64.b64decode(token)` with the default `validate=False`:
   - a non-ASCII character raises `ValueError`;
   - otherwise CPython's non-strict `binascii.a2b_base64` scans the text.
     It skips characters outside the alphabet of section 4 of RFC 4648 and
     stops at the first complete run of padding, ignoring what follows.
     It fails when the input ends inside a quantum of four characters.
3. `.decode()`: strict UTF-8 as section 3 of RFC 3629 lays it down, with no
   overlong forms, no surrogates and nothing above U+10FFFF.
4. `.split(":")`, then pieces 0 and 1. No colon means `IndexError`.

Decoding is sometimes described as failing unless the text splits into
exactly two non-empty parts. The code makes neither check:

- empty parts are accepted (`"Basic Og=="` gives `("", "")`);
- a third piece is dropped silently.

The model follows the code.

## Model

| member | source | states |
|---|---|---|
| Validation.IsAssignDataValid | util/validations.py:4-25 | The result is "" exactly when the payload has the four keys and no other, a non-empty string `name`, a `deadline` other than "", and `points` and `num_of_attempts` integers in [1, 100]; otherwise it is one of the validator's eight fixed messages |
| Validation.ValidIffWellFormed | util/validations.py:10-25 | The per-field loop and the shape chain both pass exactly when the payload is well formed (the order-free definition) |
| Validation.FieldLoop | util/validations.py:19-24 | The loop falls through exactly when every listed field is an integer in [1, 100]; otherwise it returns the message of one of the listed fields |
| Validation.PointsTypeOverridesAll | util/validations.py:19-22 | A `points` that is not an integer (missing, null, "" or anything else) gives "Invalid type: points must be an integer" whatever the other fields hold |
| Validation.PointsCheckedFirst | util/validations.py:19-24 | When `points` is bad, its type or range message is returned, whatever `num_of_attempts` holds |
| Validation.AttemptsCheckedSecond | util/validations.py:19-24 | With a good `points`, a bad `num_of_attempts` gives that field's message, whatever the shape of the payload |
| Validation.RangeIsInclusive | util/validations.py:23-24 | An integer field passes exactly when 1 <= n <= 100; 0 and 101 give the range message |
| Validation.BooleansAreIntegers | util/validations.py:21-24 | `true` passes an integer field as 1, and `false` fails its range check as 0 |
| Validation.ShapeDecidesWhenFieldsGood | util/validations.py:10-18 | With good integer fields: a missing `name` or `deadline` gives the mandatory-fields message; an extra key gives the Restricted message, ahead of the empty-value and name-type checks; an empty `name` or `deadline` gives the Null message; otherwise a non-string `name` gives the type error |
| Validation.ExtraKeyMeansTooMany | util/validations.py:11-14 | Once the four keys are present, `len(data) > 4` holds exactly when there is another key |
| Validation.DeadlineValueIrrelevant | util/validations.py:9-15 | `deadline` is never type-checked: any two values other than "" give the same verdict |
| Validation.ExamplePayloadAccepted | util/validations.py:4-25 | `{name: "HW1", points: 50, num_of_attempts: 3, deadline: "..."}` is accepted |
| Validation.MissingPointsExample | util/validations.py:11-22 | A payload without `points` gets the points type message, not the mandatory-fields one |
| Strings.Split | util/encrypt.py:11-12 | `split(sep)` gives at least one piece; no piece holds the separator; joining the pieces with it gives the input back |
| Strings.SplitJoin | util/encrypt.py:11-12 | Splitting undoes joining for separator-free pieces |
| Strings.SplitAtFirst | util/encrypt.py:11-12 | The first piece is everything before the first separator, and the rest comes from what follows it |
| Strings.NoSeparatorOnePiece | util/encrypt.py:11-12 | A string without the separator is a single piece |
| Strings.TwoPiecesAtFront | util/encrypt.py:11 | A string that starts with two separator-free pieces, each followed by the separator, splits into those two pieces and then the pieces of the rest |
| Strings.SecondPieceIffSeparator | util/encrypt.py:11-13 | Index 1 exists exactly when the separator occurs |
| Utf8.DecodeFirst | util/encrypt.py:12 | A decoded scalar value takes as many bytes as its lead byte announces, and those bytes are its encoding |
| Utf8.DecodeFrom | util/encrypt.py:12 | Whatever decodes, decodes to the text whose encoding the bytes are |
| Utf8.Decode | util/encrypt.py:12 | `key.decode()`: a decoded text is the text whose UTF-8 encoding the bytes are |
| Utf8.DecodeEncode | util/encrypt.py:12 | Round trip: decoding the UTF-8 of any text gives the text |
| Utf8.DecodeIffEncode | util/encrypt.py:12 | Bytes decode to a text exactly when they are its encoding |
| Utf8.RefusesBadLead | util/encrypt.py:12 | Every lead byte section 3 of RFC 3629 forbids (80..C1 and F5..FF) is refused at once, whatever follows |
| Utf8.RefusesBadSecond | util/encrypt.py:12 | Every second byte outside its lead byte's range is refused: any non-continuation byte, the overlong forms E0 80..9F and F0 80..8F, the surrogates ED A0..BF, and the values above U+10FFFF F4 90..BF |
| Utf8.RefusesBadLater | util/encrypt.py:12 | A non-continuation byte in third or fourth place of a sequence is refused |
| Utf8.RefusesCutShort | util/encrypt.py:12 | Every well-formed sequence prefix that the input ends before it completes is refused as cut short |
| Base64.Alphabet | util/encrypt.py:11 | The alphabet of section 4 of RFC 4648 is a bijection between 6-bit values and its 64 characters: a value's character reads back as that value |
| Base64.Consume | util/encrypt.py:11 | One turn of the scan stops exactly on a `=` that completes the padding of a quantum with at least two data characters; otherwise it only appends to the output |
| Base64.Scan | util/encrypt.py:11 | The scan only appends to the output, and never reports the non-ASCII error |
| Base64.Decode | util/encrypt.py:11 | `b64decode` raises the non-ASCII error exactly when the token holds a non-ASCII character |
| Base64.ScanEncoding | util/encrypt.py:11 | The scan of an encoding followed by more text gives back the encoded bytes, and carries on into the text only when the encoding ends unpadded |
| Base64.ScanSkipsForeign | util/encrypt.py:11 | Inside the scan, a non-alphabet character other than `=` changes nothing |
| Base64.ScanDataOnly | util/encrypt.py:11 | A scan over alphabet characters only succeeds exactly when it ends between quanta, and otherwise reports the length error or "Incorrect padding" by the place it ends at |
| Base64.DecodeEncode | util/encrypt.py:11 | Round trip: decoding the padded encoding of any bytes gives the bytes |
| Base64.TextAfterPaddingIgnored | util/encrypt.py:11 | Any ASCII text after a padded final quantum is ignored |
| Base64.DecodeSkipsForeign | util/encrypt.py:11 | An ASCII character outside the alphabet, other than `=`, is skipped wherever it stands |
| Base64.DecodeUnpadded | util/encrypt.py:11 | An unpadded token of alphabet characters decodes exactly when its length is a multiple of 4; one character over is the length error, and two or three over is "Incorrect padding" |
| Base64.EncodeLength | util/encrypt.py:11 | The encoding has 4 characters per started group of 3 bytes |
| Base64.EncodeCharacters | util/encrypt.py:11 | An encoding is ASCII alphabet characters and `=` only, so it has no space |
| Encryption.TokenText | util/encrypt.py:11-12 | The token's text is what base64 and then UTF-8 give, and it fails only with their errors |
| Encryption.DecodeToken | util/encrypt.py:11-14 | Returned e-mail and password never contain `:`; for any token that decodes, the missing-colon failure happens exactly when the decoded text has no `:` |
| Encryption.Decode | util/encrypt.py:10-14 | No space in the header is exactly the missing-token failure; the returned parts never contain `:` |
| Encryption.TokenIsSecondWord | util/encrypt.py:11 | Only the text between the first space and the next one (or the end) is decoded |
| Encryption.SchemeIgnored | util/encrypt.py:11 | "Bearer X" decodes as "Basic X" does, and so does "Basic X rest" |
| Encryption.DecodeEncodedText | util/encrypt.py:11-14 | A header carrying a text decodes to its first two `:`-pieces, or fails for want of a colon |
| Encryption.EncodedTokenText | util/encrypt.py:11-12 | The token made from a text carries that text |
| Encryption.RoundTrip | util/encrypt.py:10-14 | For an e-mail and password without `:`, decoding `BasicHeader` under any scheme word gives them back |
| Encryption.PasswordTruncatedAtColon | util/encrypt.py:12-13 | A password holding `:` comes back cut at its first colon |
| Encryption.NoColonFails | util/encrypt.py:12-13 | Text without a colon gives the missing-colon failure |
| Encryption.EmptyPartsAccepted | util/encrypt.py:12-14 | `"Basic Og=="` (the base64 of ":") decodes to two empty strings |
| Encryption.BadTokenFailsFirst | util/encrypt.py:11 | A token base64 refuses fails with that base64 error, before any colon split |
| Encryption.BadLengthFails | util/encrypt.py:11 | A token of alphabet characters whose length is not a multiple of 4 fails with a base64 error |
| Encryption.NonUtf8Fails | util/encrypt.py:12 | A token whose bytes are not UTF-8 (`/w==`, the byte FF) fails with the UTF-8 error |
| Encryption.DecodeAtFirstColon | util/encrypt.py:10-14 | The corrected decoder (split at the first colon only) has the same missing-token condition, and its e-mail never holds `:` |
| Encryption.RoundTripAnyPassword | util/encrypt.py:12-13 | With the first-colon split, any password, colons included, comes back whole |
| Encryption.AgreeWithoutSecondColon | util/encrypt.py:12-13 | For headers `BasicHeader` builds from a colon-free e-mail and password, the corrected decoder agrees with the code |

## Left out

- `Encryption.encrypt` (util/encrypt.py:5-7): bcrypt with a random salt is a foreign cryptographic call, so it is not modelled.
- app.py: Flask routing, database sessions and commits, the environment-built database URI, the CSV import `add_users` and the health endpoints are all I/O and are left out. The assignment-creation handler also calls `Encryption.validate_email` and `Encryption.validate_user`, which no file defines, so its chain is not modelled.
- util/db.py, app_logging.py, test_healthz.py: ORM column declarations, a wall-clock log formatter, and a smoke test against a live server. None of them holds logic to model.
- Submissions, password verification, ownership checks, deadline and attempt-count enforcement, and notifications: no source file implements them, so there is nothing to model.
- Request bodies that are not JSON objects (`get_json()` giving a list or `None`): the payload type is a map, so the model assumes an object. The source raises on other bodies.
- JSON floats, arrays and nested objects are one value, `JOther`. The validator treats them all alike: not a string, not an integer, not "".
- Base64.Decode: Python accepts `bytes` as well as `str`. Only the `str` the header gives is modelled.
- Utf8.DecodeFrom: the error records only the start of the bad sequence and a reason. It omits the end offset and wording of Python's `UnicodeDecodeError`.

## Findings

| source | as written | input that shows it | evidently intended | confidence | as-written member | corrected member |
|---|---|---|---|---|---|---|
| util/encrypt.py:12-13 | `key.decode().split(":")` keeps only pieces 0 and 1, so a password containing `:` is cut at its first colon (section 2 of RFC 7617 forbids `:` only in the user-id) | header `BasicHeader("Basic", "a@b.c", "x:y")` decodes to `("a@b.c", "x")` | split at the first colon only, giving `("a@b.c", "x:y")` | medium, not executed | Encryption.PasswordTruncatedAtColon | Encryption.RoundTripAnyPassword |
