# token — a Dafny model of HMAC-signed expiring tokens

`token.go` issues and checks bearer tokens of the form

    <hash>.<rnd>.<id>.<ts>

Each field is padded URL-safe base64:
- `rnd` is a 32-byte random nonce.
- `id` is the caller's identifier.
- `ts` is the issue time, written as decimal nanoseconds since the epoch.
- `hash` is the HMAC-SHA-512/256, under the service's secret, of the raw
  bytes `rnd.id.ts`.

`Generate(id)` makes a token. `Valid(token, d)` answers `(valid, id, issue)`.
It runs a chain of gates:
1. The token must split into exactly four fields.
2. Fields 1 to 3 must decode.
3. The timestamp must parse as an `int64`.
4. The token rebuilt from the decoded parts must equal the whole token
   presented.
5. The token must be no older than `d`.

Gates 1 to 3 answer `(false, "", time.Time{})`. Gates 4 and 5 still report
the decoded identifier and issue time.

The model is a set of pure functions over byte strings (`seq<byte>`). Its
effectful collaborators are parameters:
- the HMAC primitive is `mac: Hmac`, a deterministic function from key and
  message to a 32-byte digest;
- the nonce is `rnd` (or `nonce`);
- the clock is `now`, in nanoseconds since the epoch.

Modules:
- `GoTypes`: bytes, `int64`, and ASCII literals.
- `Wrappers`: `Option`.
- `Strings`: `strings.Split` with a one-byte separator, and its inverse
  `Join`.
- `Base64Url`: `base64.URLEncoding`. It models Go's decoder, which ignores
  the bits a padded final group drops.
- `Decimal`: `strconv.FormatInt` and `strconv.ParseInt` in base 10.
- `GoTime`: `time.Time{}`, `time.Unix(0, n)`, and the saturating
  `Time.Sub`.
- `Token`: `generateAtTime`, `Generate` and `Valid`.
- `TokenProperties`: what the gates promise, the round trip, and
  canonical acceptance.
- `TokenExamples`: the scenarios of `token_test.go`.
- `MacFraming`: the finding below.

Where a written description of the scheme and the code differ, the model
follows the code:
- A failed read of the random source makes `generateRandom` return `nil`.
  `Generate` then still issues a token, with an empty nonce. The model's
  nonce parameter may be empty, and no error path is invented.
- An authentication failure at gate 4 reports the decoded identifier and
  issue time, as the code does.
- The comments on lines 24 and 100 name HMAC-SHA1 over `rnd + id + ts`. The
  code uses SHA-512/256 over `rnd.id.ts`, and the model uses the code's
  message.

## Model

| member | source | states |
|---|---|---|
| Token.GenerateAtTime | token.go:101-115 | splitting the generated token on `.` gives back exactly its four encoded fields (HMAC of `rnd.id.ts`, nonce, identifier, decimal time), even when nonce or identifier contain `.` |
| Token.Valid | token.go:42-95 | definition of the validator, gate by gate; its behaviour is stated by `TokenProperties.ValidIff`, the gate lemmas (`SegmentCount`, `DecodeFailure`, `BadTimestamp`, `AuthenticationFailure`, `ExpiryBoundary`) and `AcceptedIsGenerated` |
| Token.ParseToken | token.go:48-79 | definition of gates 1 to 3 (split, decode fields 1 to 3, parse the time); its behaviour is stated by `Token.ParseGenerated` and `TokenProperties.HashFieldNotDecoded` |
| Token.ParseGenerated | token.go:48-79 | the first gates of `Valid` take a generated token apart into exactly the nonce, identifier and time it was generated from |
| Token.Generate | token.go:35-38 | a token issued for nonce, identifier and clock reading carries those three where the validator finds them |
| TokenProperties.OutputShape | token.go:101-114 | a generated token holds exactly three `.`; its four fields are the encodings of the HMAC of `rnd.id.ts` under the service's secret, of the nonce, of the identifier and of the decimal time, and none holds a `.` |
| TokenProperties.SegmentCount | token.go:48-51 | a token whose count of `.` is not three is rejected with empty identifier and zero time |
| TokenProperties.DecodeFailure | token.go:55-72 | a four-field token whose field 1, 2 or 3 is not valid base64 is rejected with empty identifier and zero time |
| TokenProperties.HashFieldNotDecoded | token.go:53-73 | the decoding gates never look at field 0: replacing it by any `.`-free bytes extracts the same parts |
| TokenProperties.BadTimestamp | token.go:75-78 | a decoded timestamp that is not a decimal `int64` gives rejection with empty identifier and zero time |
| TokenProperties.AuthenticationFailure | token.go:82-86 | a token that decodes but differs from the token rebuilt from its parts is invalid, and still reports its decoded identifier and issue time |
| TokenProperties.RoundTrip | token.go:82-93 | a generated token whose age is at most `d` is valid and reports the identifier and issue time it was generated with |
| TokenProperties.ExpiryBoundary | token.go:88-93 | a genuine token is valid exactly when its age is at most `d` (equality is still valid); an expired one keeps its identifier and issue time |
| TokenProperties.LargestDurationNeverExpires | token.go:90 | since `Time.Sub` saturates, with the largest duration a genuine token never expires |
| TokenProperties.AcceptedIsGenerated | token.go:82-85 | an accepted token is exactly the token generated from its decoded parts, and its hash field decodes to the HMAC of those parts under the service's secret |
| TokenProperties.ValidIff | token.go:42-95 | `Valid` answers `(true, id, Unix(n))` if and only if the token is generated for `id` at `n` with some nonce and its age does not exceed `d` |
| TokenProperties.AcceptedIsCanonical | token.go:82-83 | in an accepted token no field has non-zero dropped base64 bits and the timestamp is written without sign or leading zeros |
| TokenProperties.WrongSecret | token.go:105-107 | a token generated under a secret whose HMAC differs is invalid, and reports its identifier and time |
| TokenProperties.ForgedHash | token.go:82-86 | replacing the hash field of a genuine token by any other `.`-free bytes makes it invalid, reporting its identifier and time |
| TokenExamples.InvalidEncode | token_test.go:57-66 | `badData` is rejected |
| TokenExamples.InvalidFormatEncode | token_test.go:68-78 | the base64 encoding of any bytes, `badstring` included, is one field and is rejected |
| TokenExamples.InvalidTimestamp | token_test.go:80-93 | `hash.rnd.12345678.ts` with `ts` the encoding of `badtime` is rejected with empty identifier and zero time, whatever hash and nonce encode |
| TokenExamples.ValidAndNotExpired | token_test.go:32-55 | checked between 50 ms and 1 s after issue, a token is valid for ten minutes and one second and expired for 50 ms |
| TokenExamples.LenientTimestamp | token.go:75 | `+123` and `0123` parse to 123, which is written `123`; neither spelling is canonical |
| TokenExamples.LenientBase64 | token.go:69 | `QR==` decodes to the byte `A`, which encodes to `QQ==`; `QR==` has non-zero dropped bits |
| Strings.Split | token.go:48 | definition of `strings.Split` on one byte; its contract says there is at least one field and no field holds the separator, and `SplitCount`, `JoinOfSplit` and `SplitOfJoin` state the rest |
| Strings.SplitCount | token.go:48 | splitting on a byte gives one more field than the byte's occurrences |
| Strings.JoinOfSplit | token.go:48 | joining the fields of a split with the separator gives back the original |
| Strings.SplitOfJoin | token.go:113 | splitting the join of one or more separator-free fields gives back the fields |
| Base64Url.Encode | token.go:107-111 | definition of padded URL-safe encoding; its behaviour is stated by `DecodeOfEncode`, `EncodeInjective`, `EncodeAvoids` and `EncodeLength` |
| Base64Url.Decode | token.go:55-73 | definition of Go's padded decoder, which ignores dropped bits; its behaviour is stated by `DecodeOfEncode`, `EncodeOfDecode` and `TokenExamples.LenientBase64` |
| Base64Url.DecodeOfEncode | token.go:107-111 | decoding an encoding gives back the bytes encoded |
| Base64Url.EncodeOfDecode | token.go:55-73 | a decoded text is the encoding of what it decodes to exactly when its dropped bits are zero |
| Base64Url.EncodeInjective | token.go:107 | distinct byte strings have distinct encodings |
| Base64Url.EncodeAvoids | token.go:113 | no encoding contains a byte outside the alphabet and `=`, `.` in particular |
| Base64Url.EncodeLength | token.go:107-111 | an encoding has four characters per started group of three bytes |
| Base64Url.DecodeLength | token.go:55 | a sequence of base64 digit values that decodes has four values per started group of three decoded bytes |
| Decimal.FormatInt | token.go:103 | definition of base-10 formatting; its behaviour is stated by `ParseOfFormat` and `FormatCanonical` |
| Decimal.ParseInt | token.go:75 | definition of base-10 `int64` parsing with optional sign and leading zeros; its behaviour is stated by `ParseOfFormat`, `FormatOfParse` and `TokenExamples.LenientTimestamp` |
| Decimal.ParseOfFormat | token.go:75 | parsing the decimal text of an `int64` gives it back |
| Decimal.FormatCanonical | token.go:103 | `FormatInt` writes no `+` and no leading zero |
| Decimal.FormatOfParse | token.go:75 | a parsed text is the formatted text of its value exactly when it is canonical |
| GoTime.Sub | token.go:90 | definition of the saturating `now.Sub(issue)`; its behaviour is stated by `SubExceeds` and `TokenProperties.LargestDurationNeverExpires` |
| GoTime.SubExceeds | token.go:90 | comparing the saturated age with `d` agrees with comparing the exact age, unless both are beyond the largest duration |
| MacFraming.SpliceForgery | token.go:106 | without the secret, a genuine token whose nonce holds a `.` is turned into a valid token for a different, never issued identifier |
| MacFraming.SpliceExample | token.go:106 | nonce `00 2E 01` with identifier `07` yields a valid token for identifier `01 2E 07` |
| MacFraming.IdentifierSpliceForgery | token.go:106 | without the secret, a genuine token whose identifier holds a `.` is turned into a valid token for the part of the identifier after that `.` |
| MacFraming.IdentifierSpliceExample | token.go:106 | a token for identifier `a.b` yields a valid token for identifier `b` |
| MacFraming.FramedMacInputInjective | token.go:106 | the corrected message (encoded nonce, encoded identifier, decimal time) determines nonce, identifier and time |

## Left out

- `generateRandom` and `crypto/rand`: the nonce is a parameter. A failed read gives an empty nonce, which the model admits.
- `time.Now`: the clock reading is a parameter. `Generate` takes it as an `int64`; `Valid` takes any integer.
- HMAC and SHA-512/256 internals: `mac` is an uninterpreted deterministic function with 32-byte output. Properties that need unforgeability of the HMAC are out of reach. An example is rejection of a token whose nonce, identifier or time field was altered.
- `subtle.ConstantTimeCompare`: modelled as equality of the byte strings; its timing behaviour is not modelled.
- The `secret` parameter of `generateAtTime`: it is unused, because the function reads `tk.secret`, so the model takes only the service.
- `NewTokenHmacSha` and the `TokenEmitter` interface: the service is the `TokenHmacSha` datatype and its constructor; the interface adds no behaviour.
- Go's base64 decoder skipping `\r` and `\n`: the model's decoder rejects them. Generated tokens never contain them. For a presented token whose fields 1 to 3 contain them, both refuse it, since a rebuilt token never contains them. Go refuses it at gate 4 and reports the decoded identifier and time; the model refuses it at gate 2 and reports the empty identifier and the zero time.
- Concurrency: the service holds only an immutable secret.
- TokenProperties.ExpiryBoundary: requires that the exact age fits in an `int64` or that `d` is below the largest duration. Beyond that, `Time.Sub` saturates and a genuine token is valid however old it is, as `TokenProperties.LargestDurationNeverExpires` states.

## Findings

| source | as written | input that shows it | evidently intended | confidence | as-written member | corrected member |
|---|---|---|---|---|---|---|
| token.go:106 | the HMAC message is the raw nonce, identifier and time joined by `.`, and the raw nonce may contain `.` | nonce `00 2E 01`, identifier `07`: keeping hash and time fields gives a valid token for identifier `01 2E 07` | the hash binds exactly one nonce, identifier and time, for example by authenticating their base64 encodings | medium; not executed | MacFraming.SpliceForgery | MacFraming.FramedMacInputInjective |
| token.go:106 | the same message, where the caller's identifier may contain `.` | identifier `a.b`: keeping hash and time fields, with the nonce extended by `.a`, gives a valid token for identifier `b` | the hash binds exactly one nonce, identifier and time, for example by authenticating their base64 encodings | medium; not executed | MacFraming.IdentifierSpliceForgery | MacFraming.FramedMacInputInjective |

The `Token` module keeps the message as written, since it models the code.
The corrected message is `MacFraming.FramedMacInput`.
