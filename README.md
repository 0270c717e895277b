# edgeOperation handler, modelled in Dafny

This project models the `edgeOperation` edge function: an HTTP handler that
reads the query parameters of a request, picks an operation by the
`operation` parameter and answers with a one-key JSON object:

- `reverse` (the default): `{reversed: <text reversed>}`, with `text`
  defaulting to the empty string;
- `random`: `{random: Math.floor(Math.random() * (max - min + 1)) + min}`,
  with `min` and `max` read by `parseInt` and defaulting to `"0"` and `"100"`;
- `timestamp`: `{timestamp: <seconds since the epoch>}` for `format=unix`,
  and the ISO-8601 text of the current instant for any other format;
- anything else: status 400 and `{error: "Invalid operation"}`.

Every response carries `Content-Type: application/json`; the status is 200
unless the operation is unknown.

The handler is pure apart from the random draw and the clock, so it is
modelled as one function, `EdgeOperation.Handle(params, r, nowMs)`:

- `params` are the already-decoded query parameters, a sequence of
  name/value pairs; lookup takes the first pair with that name, as
  `URLSearchParams.get` does;
- `r` is the value of `Math.random()`, an exact real with 0 <= r < 1;
- `nowMs` is the clock reading in integer milliseconds since the epoch.

Files:

- `Wrappers.dfy`: the `Option` datatype (a missing parameter, a `NaN` parse).
- `JsText.dfy`: JavaScript strings as sequences of UTF-16 code units, the
  reversal `split("").reverse().join("")` (which works on code units) and
  `parseInt` without a radix (optional sign, then hexadecimal digits after a
  `0x` or `0X` prefix and decimal digits otherwise, the longest run of them,
  `None` for `NaN`) with a decimal renderer `Decimal` that it reads back.
- `EdgeOperation.dfy`: parameter lookup and `||` defaulting, the operation
  datatype `Op = Reverse | Random | Timestamp | Unknown(name)`, the random
  formula, the timestamp, the response datatypes and `Handle`, with the
  lemmas that state what the handler promises.

Three behaviours of the code are easy to miss, and the model keeps them:

- The defaults are applied with `||`, so an empty parameter takes the
  default exactly as a missing one does: `?operation=` reverses rather than
  failing, and `?min=&max=` draws from [0, 100].
- With `min > max` the formula yields a value of [max + 1, min], never
  `max` itself. The test at
  `supabase/functions/edgeOperation/index.test.ts:66-76` checks only that
  `min=10&max=5` gives a value of [5, 10]; the model proves the tighter
  range, which lies inside it.
- A bound that does not parse makes the result `NaN`; `JSON.stringify`
  writes that as `null`. The model keeps it as the number value `NaN`.

## Model

| member | source | states |
|---|---|---|
| EdgeOperation.Get | supabase/functions/edgeOperation/index.ts:7 | the value of the first pair with the given name; `None` exactly when no pair has that name |
| EdgeOperation.Param | supabase/functions/edgeOperation/index.ts:7 | the `or`-defaulting of a lookup: a missing or empty parameter gives the fallback, any other value is returned as it is |
| EdgeOperation.ParseOp | supabase/functions/edgeOperation/index.ts:11-38 | each of `reverse`, `random`, `timestamp` selects its own operation, and every other name, and only those, is `Unknown` carrying the name |
| EdgeOperation.ParseOpName | supabase/functions/edgeOperation/index.ts:11-38 | dispatch loses nothing: the operation's name is the name requested, and a recognised operation is recognised again from its name |
| EdgeOperation.NamesDistinct | supabase/functions/edgeOperation/index.ts:12-26 | the three operation names are pairwise different, and `unix` differs from the default format `iso` |
| EdgeOperation.RequestedOp | supabase/functions/edgeOperation/index.ts:7 | a missing or empty `operation` selects `reverse` |
| JsText.Reverse | supabase/functions/edgeOperation/index.ts:14 | reversal keeps the number of code units |
| JsText.ReverseMirrors | supabase/functions/edgeOperation/index.ts:14 | position i of the reversal holds the input's code unit at position length - 1 - i |
| JsText.ReverseInvolutive | supabase/functions/edgeOperation/index.ts:14 | reversing twice gives back the original text |
| JsText.DigitPrefix | supabase/functions/edgeOperation/index.ts:18-19 | `parseInt` reads the longest prefix of digits of the radix: a prefix, all digits, followed by a non-digit or the end |
| JsText.ReadDigits | supabase/functions/edgeOperation/index.ts:18-19 | no value exactly when the text does not start with a digit of the radix |
| JsText.Magnitude | supabase/functions/edgeOperation/index.ts:18-19 | after a `0x` or `0X` prefix the digits are read in radix 16 from behind the prefix; otherwise in radix 10 from the start |
| JsText.Unsigned | supabase/functions/edgeOperation/index.ts:18-19 | `parseInt` skips a leading `+` or `-` when there is one, and only that one code unit; without a sign the text is left as it is |
| JsText.ParseInt | supabase/functions/edgeOperation/index.ts:18-19 | `NaN` (None) exactly when no digit of the selected radix follows the optional sign and prefix; otherwise the magnitude read, negated exactly when the text starts with `-` |
| JsText.ParseIntDecimal | supabase/functions/edgeOperation/index.ts:18-19 | `parseInt` reads back every integer written in decimal, also when other text follows that does not start with a digit (nor, after a lone `0`, with the `x` or `X` that would make a hexadecimal prefix) |
| JsText.ParseIntNegative | supabase/functions/edgeOperation/index.ts:18-19 | `-` followed by the decimal digits of n and a tail that does not continue the number parses to -n |
| JsText.ParseIntNonNegative | supabase/functions/edgeOperation/index.ts:18-19 | the decimal digits of n followed by a tail that does not continue the number parse to n |
| JsText.ParseIntSignedPadded | supabase/functions/edgeOperation/index.ts:18-19 | a number written with an optional `+` or `-` and any leading zeros, followed by text that does not start with a digit (nor, after a lone `0`, with `x` or `X`), parses to its value: `"+7"` and `"007"` give 7, `"-007x"` gives -7 |
| JsText.ParseIntHex | supabase/functions/edgeOperation/index.ts:18-19 | an optional sign, `0x` or `0X`, hexadecimal digits and a tail that does not start with one parse to the hexadecimal value, negated after `-` |
| JsText.ParseIntHexExample | supabase/functions/edgeOperation/index.ts:18-19 | `"0x1A"` parses to 26 |
| JsText.ParseIntNegativeHexExample | supabase/functions/edgeOperation/index.ts:18-19 | `"-0x10"` parses to -16 |
| JsText.ParseIntBareHexPrefix | supabase/functions/edgeOperation/index.ts:18-19 | `"0x"` with no hexadecimal digit after it parses to `NaN` |
| EdgeOperation.DefaultBounds | supabase/functions/edgeOperation/index.ts:18-19 | the default texts `"0"` and `"100"` parse to 0 and 100 |
| EdgeOperation.RandomFormula | supabase/functions/edgeOperation/index.ts:20 | `NaN` exactly when a bound is `NaN`; for min <= max the value lies in [min, max]; for min > max it lies in [max + 1, min] |
| EdgeOperation.FloorOfFraction | supabase/functions/edgeOperation/index.ts:20 | the floor of r * span lies in [0, span) for a positive span and in [span, 0] otherwise |
| EdgeOperation.RandomSlices | supabase/functions/edgeOperation/index.ts:20 | for min <= max the formula yields k exactly when r lies in the k-th of max - min + 1 equal slices of [0, 1), so each value of the range is drawn with equal chance |
| EdgeOperation.RandomCollapsed | supabase/functions/edgeOperation/index.ts:20 | with min = max + 1 the formula always yields min |
| EdgeOperation.TimestampOf | supabase/functions/edgeOperation/index.ts:24-30 | seconds exactly for the format `unix`, with 1000 t <= nowMs < 1000 (t + 1) (the floor); the ISO text of the same instant for every other format |
| EdgeOperation.Handle | supabase/functions/edgeOperation/index.ts:5-43 | every response has the JSON content-type header; the status is 400 exactly when the body is the error body, and 200 otherwise |
| EdgeOperation.HandleDispatch | supabase/functions/edgeOperation/index.ts:11-42 | status 400 exactly for an operation name other than the three, with body `{error: "Invalid operation"}`; each recognised name gets 200 and a body whose one key is `reversed`, `random` or `timestamp` |
| EdgeOperation.HandleReverse | supabase/functions/edgeOperation/index.ts:7-15 | whenever the reverse operation is selected (by `operation=reverse`, or by a missing or empty `operation`), the answer is 200 with `{reversed: <text reversed>}`, `text` defaulting to the empty string; the body has the text's length and reverses back to it |
| EdgeOperation.HandleRandomBounds | supabase/functions/edgeOperation/index.ts:17-21 | when both bounds parse the random answer is an integer with status 200, in [min, max] for min <= max and in [max + 1, min] otherwise |
| EdgeOperation.HandleRandomDefaults | supabase/functions/edgeOperation/index.ts:18-20 | missing or empty `min` and `max` give an integer of [0, 100] |
| EdgeOperation.HandleRandomUnparsed | supabase/functions/edgeOperation/index.ts:18-20 | a bound that does not parse gives status 200 with the value `NaN`, not an error |
| EdgeOperation.HandleTimestamp | supabase/functions/edgeOperation/index.ts:23-31 | status 200 always; whole seconds (the floor, positive once the clock is past one second) exactly when `format` is `unix`, otherwise the ISO text of the instant |
| EdgeOperation.ReverseHelloScenario | supabase/functions/edgeOperation/index.test.ts:11-39 | `text=hello`, with `operation=reverse` or with no operation, answers `{reversed: "olleh"}` |
| EdgeOperation.ReverseEmptyScenario | supabase/functions/edgeOperation/index.test.ts:22-30 | an empty text answers `{reversed: ""}` |
| EdgeOperation.RandomSwappedScenario | supabase/functions/edgeOperation/index.test.ts:66-76 | `min=10&max=5` answers an integer of [5, 10] |
| EdgeOperation.InvalidOperationScenario | supabase/functions/edgeOperation/index.test.ts:115-124 | `operation=invalid_operation` answers 400 with `{error: "Invalid operation"}` |

## Left out

- Server start-up and logging (`console.log`, `Deno.serve`): host I/O.
- URL parsing and percent-decoding: the parameters come in already decoded.
- `Math.random()` and the clock are inputs. The floating-point rounding of
  `r * (max - min + 1)` is not modelled; the product is computed exactly.
  The model's `nowMs / 1000` is exact on the whole date range: a time value
  is an integer of magnitude at most 8.64e15, so the double quotient is off
  by at most 2^-11, while a non-integer quotient is at least 0.001 from the
  next integer, and `Math.floor` of the float division equals floor
  division.
- JsText.ParseInt: does not model leading white space or the loss of
  precision of very long digit strings, and reads `-0` as 0.
- EdgeOperation.TimestampOf: the ISO-8601 rendering by
  `Date.prototype.toISOString` is a library call whose code is not part of
  this model; the result records the instant it renders (`IsoTime(nowMs)`)
  instead of its text, and the range error it raises for instants outside
  the date range is not modelled.
- `JSON.stringify` and the `Response` object: the body is a datatype with
  one constructor per key, not serialised text.
- `async`/`await`: the handler never waits on anything.
