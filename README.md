# Array codec of the coupon service

The coupon service stores a coupon's `applicable_products` (an ordered list of
product ids) in one text column. `intSliceToPostgresArray` writes the list as
`{v1,v2,...,vn}`. `postgresArrayToIntSlice` reads it back: it trims braces from
both ends, splits on commas and parses each piece with `strconv.Atoi`. It stops
with an error at the first piece that does not parse.

This project models that codec in Dafny and proves its properties:

- `strconv.dfy` (module `Strconv`) models Go's `%d` rendering and
  `strconv.Atoi` for a 64-bit `int`. That includes the range check and the
  order in which Go tells a syntax error from a range error.
- `strings.dfy` (module `Strings`) models `strings.Trim` with a cutset,
  `strings.Split` on a one-character separator and `strings.Join`.
- `codec.dfy` (module `Codec`) holds the two codec functions. Each is a method
  with the source's loop over a preallocated array, proved equal to a
  specification function (`Encode`, `Decode`). Lemmas about those functions
  state what the codec promises.
- `wrappers.dfy` (module `Wrappers`) holds the `Result` type that stands for
  Go's `(value, error)` pair.

The round trip holds for every non-empty list, negative ids included. It fails
for the empty list: `{}` trims to the empty text, which splits into one empty
token, and `Atoi("")` fails. The model keeps this as written. A separate,
corrected decoder special-cases the empty text, and the full round trip is
proved for it (see "## Findings"). That `{}` must be read is clear from the
code itself: the column's default value is `'{}'` (db.go:162), and the encoder
writes `{}` for an empty list (db.go:206-210).

## Model

| member | source | states |
|---|---|---|
| `Strconv.FormatInt` | db.go:208 | `%d` gives a non-empty text that starts with `-` exactly when the value is negative; every other character is a decimal digit, and so is the last one |
| `Strconv.Digits` | db.go:208 | the digits of a natural number have no leading zero and denote exactly that number |
| `Strconv.DigitsValue` | db.go:219 | reading more digits never lowers the value read so far |
| `Strconv.ScanDigits` | db.go:219 | the `ParseUint` digit loop never yields a value below the one read so far |
| `Strconv.ScanDigitsValue` | db.go:219 | on digits only, the `ParseUint` digit loop yields their value, or a range error once it passes the unsigned 64-bit range |
| `Strconv.ScanDigitsOnlyDigits` | db.go:219 | a digit scan that succeeds has read digits only |
| `Strconv.AtoiShape` | db.go:219-221 | an `Atoi` failure carries the whole offending token; a success needs a non-empty text that is all digits after an optional sign |
| `Strconv.AtoiValue` | db.go:219-221 | `Atoi` succeeds exactly when the text after an optional sign is one or more digits whose signed value is a 64-bit integer, and then gives that value (`+5`, `007` and `-0` included) |
| `Strconv.AtoiFormatInt` | db.go:219 | `Atoi` reads back the `%d` rendering of every 64-bit integer as that integer |
| `Strconv.AtoiFormatIntOutOfRange` | db.go:219 | a rendering of an integer outside the 64-bit range is a range error carrying the token |
| `Strconv.AtoiRejectsForeignChar` | db.go:219-221 | a token holding any character other than a digit or a sign fails to parse (a space, for one) |
| `Strconv.AtoiEmpty` | db.go:219-221 | the empty token is a syntax error |
| `Strings.IndexOf` | db.go:215 | the index found is -1 or a position in the text that holds the separator |
| `Strings.IndexOfFirst` | db.go:215 | no earlier position holds the separator, and -1 means the separator is absent |
| `Strings.TrimLeft` | db.go:214 | left trimming never lengthens the text and leaves it not starting with a cutset character |
| `Strings.TrimRight` | db.go:214 | right trimming never lengthens the text and leaves it not ending with a cutset character |
| `Strings.Split` | db.go:215 | a split always has at least one piece, so the empty text gives one empty piece |
| `Strings.SplitCount` | db.go:215 | there is one piece more than there are separators |
| `Strings.SplitPiecesAvoid` | db.go:215 | no piece contains the separator |
| `Strings.Trim` | db.go:214 | the trimmed text is no longer than the input and neither starts nor ends with a cutset character |
| `Strings.TrimLeftKeepsSuffix` | db.go:214 | left trimming keeps a suffix and drops only cutset characters |
| `Strings.TrimRightKeepsPrefix` | db.go:214 | right trimming keeps a prefix and drops only cutset characters |
| `Strings.TrimFrame` | db.go:214 | trimming removes exactly a frame of cutset characters of any length around a text that does not start or end with one |
| `Strings.TrimEmpty` | db.go:214 | a text trims to nothing exactly when all of its characters are in the cutset |
| `Strings.Join` | db.go:210 | a join of one or more elements starts with the first element |
| `Strings.JoinNonEmpty` | db.go:210 | a join whose first element is not empty is not empty |
| `Strings.JoinAvoids` | db.go:210 | joining brings in no character that is in neither the elements nor the separator |
| `Strings.JoinSplit` | db.go:215 | joining the pieces of a split with the separator gives back the text |
| `Strings.SplitJoin` | db.go:210-215 | splitting a join of at least one separator-free element gives back the elements |
| `Codec.IntSliceToPostgresArray` | db.go:205-211 | the render-then-join loop returns `Encode` of its input |
| `Codec.PostgresArrayToIntSlice` | db.go:213-226 | the trim-split-parse loop with its early error return gives `Decode` of its input |
| `Codec.Encode` | db.go:205-211 | the encoder's text is at least two characters, opening with `{` and closing with `}` |
| `Codec.ParseTokens` | db.go:217-225 | a successful parse of the tokens yields exactly one id per token |
| `Codec.Decode` | db.go:213-226 | a successful decode never gives the empty list |
| `Codec.ParseTokensAllGood` | db.go:217-225 | when every token parses, the result is the parsed values in token order |
| `Codec.ParseTokensFirstBad` | db.go:218-221 | the error of the whole parse is that of the first token `Atoi` rejects |
| `Codec.ParseTokensSuccess` | db.go:217-225 | the parse succeeds exactly when every token parses; then there is one value per token, in order |
| `Codec.ParseTokensFailure` | db.go:218-221 | a failed parse reports the error of some token that is the first bad one |
| `Codec.EncodeShape` | db.go:205-210 | the encoding is `{`, the renderings in order separated by commas, then `}`; it has no space and exactly n-1 commas for n ≥ 1 ids (none for n = 0) |
| `Codec.EncodeEmpty` | db.go:206-210 | the empty list encodes to exactly `{}` |
| `Codec.TrimEncoded` | db.go:210-214 | trimming any run of braces around the encoding of any list leaves the joined renderings (the empty text for the empty list) |
| `Codec.EncodeTokens` | db.go:205-215 | the decoder's tokens for an encoded non-empty list are the `%d` renderings of its ids |
| `Codec.RoundTrip` | db.go:205-226 | every non-empty list of 64-bit ids, negative ones included, decodes back to itself |
| `Codec.DecodeSuccess` | db.go:213-225 | decoding succeeds exactly when every token parses; then it yields one id per token in order, one more than the commas in the trimmed text |
| `Codec.DecodeFailure` | db.go:219-221 | decoding fails with the error, naming the token, of the first token `Atoi` rejects |
| `Codec.DecodeBracesOnly` | db.go:214-221 | any brace-only text, `{}` among them, fails with a syntax error on the empty token instead of giving the empty list |
| `Codec.EmptyListDoesNotRoundTrip` | db.go:205-226 | the encoding of the empty list does not decode |
| `Codec.DecodeIgnoresBraceRuns` | db.go:214 | any run of braces on either side of an encoding is stripped, not only one brace per side |
| `Codec.DecodeDoubleBraces` | db.go:214 | `{{1,2}}` decodes to `[1, 2]` |
| `Codec.DecodeRejectsForeignChar` | db.go:214-221 | any character other than a digit, a sign or a comma left in the trimmed text (whitespace of any kind, or an inner brace as in `{1}{2}`) makes decoding fail |
| `Codec.RoundTripCorrected` | db.go:213-226 | the corrected decoder inverts the encoder on every list, the empty one included |
| `Codec.DecodeCorrected` | db.go:213-226 | the corrected decoder gives the empty list for every brace-only text (`""`, `{}` and `{{}}` among them), and a success is the empty list only for such text |
| `Codec.PostgresArrayToIntSliceCorrected` | db.go:213-226 | the corrected decoder method returns `DecodeCorrected` of its input |

## Left out

- The `PostgresDatabase` methods (db.go:28-202): connection handling, schema creation, `GetCouponById`, `CreateCoupon` and the `UpdateCoupon`/`DeleteCoupon` stubs. They issue SQL through `database/sql`, which is outside the model. Only their calls into the codec matter, and the codec is modelled.
- api.go, types.go and main.go: HTTP routing, JSON, logging, random ids and process start-up. This is I/O with no codec logic.
- Go's `int` is taken to be 64 bits wide. The 32-bit variant of `Atoi` is not modelled.
- `Strconv.Atoi` leaves out the `Func` field of `strconv.NumError`, which is always `"Atoi"` here. It keeps the token and the error kind.
- Strings are sequences of characters, one character per byte of the Go string. The cutset, the separator and every character `Atoi` accepts are ASCII, so this changes no result.
- `Strings.Split` takes a one-character separator. That is the only way the codec calls `strings.Split`.
- `Codec.IntSliceToPostgresArray` takes its input as a sequence. The source only reads the slice, so aliasing cannot arise.
- `Codec.PostgresArrayToIntSlice` returns the sequence of filled elements. When a token fails, the source drops the half-filled slice, and the model does not keep it either.

## Findings

| source | as written | input that shows it | evidently intended | confidence | as-written member | corrected member |
|---|---|---|---|---|---|---|
| db.go:213-226 | `{}` trims to `""`, `Split` gives `[""]`, and `Atoi("")` fails, so the decoder returns a syntax error. `{}` is what the encoder writes for an empty list and what Postgres returns for an empty array. | `{}` | `{}` decodes to the empty list, so every list survives a round trip | not executed; high | `Codec.EmptyListDoesNotRoundTrip` | `Codec.RoundTripCorrected` |
