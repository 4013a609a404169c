# Bitsy encoder front half, in Dafny

Bitsy turns an arbitrary file name into a *StrictName*: a name built only
from ASCII letters, digits, `-`, `_` and `.`, at most 255 units long, with
no leading dot (except the names `.` and `..`), no trailing hyphen or dot,
no hyphen next to a dot, no doubled dot, and a label before the first dot
that is not a reserved device name (`aux`, `con`, `nul`, `prn`, `com#`,
`lpt#`, in any case, `#` a digit).

The JavaScript module `bitsy.js` implements the grammar checks and the
first part of `encode`. This project models that part:

- `CodeUnits` (`units.dfy`): a JavaScript string as a sequence of UTF-16
  code units (`str.length`, `charCodeAt`), the module's constants, and
  `indexOf` and the ASCII part of `toLowerCase`.
- `Grammar` (`grammar.dfy`): `isAlmostStrict` as a loop proved equal to a
  declarative statement of the rules, and `isStrictName` as the source
  computes it, proved equal to "almost strict and the label is not a
  device label".
- `Encoder` (`encoder.dfy`): `encode` up to the general tier. It covers
  the empty and too-long checks, the validation loop (proved to report the
  first offending unit, although it skips the low half of each surrogate
  pair), the `hasUpper`/`hasPrefix` classification, pass-through, the
  prefix escape and the device escape. The three returning tiers are
  proved to lose nothing: no two inputs share a name, and the input can
  be read back from the name. Each escape tier is shown to be reached, with an example of each,
  and every name of at most 255 units that the tiers return is a
  StrictName.
- `Findings` (`findings.dfy`): two places where the code does not do what
  it evidently means to do (see below), each modelled as written and as
  intended.

Strings are `seq<CodeUnit>` with `CodeUnit` in `[0, 0xFFFF]`, so lone
surrogates can be represented, as in JavaScript. An `EncodeException` is
`Rejected(failure)`. Its `Failure` value names the source's message, and
`TooLong` is the only failure whose `tooLong` flag is true. Reaching the
general tier is its own outcome, `General`.

Where the code and its comments or documented intent differ, the model
follows the code:

- `isAlmostStrict` forbids a leading dot, not a leading hyphen, whatever
  its comment says. So `-a` is almost strict (bitsy.js:216-220).
- Tiers 2 and 3 do not re-check the 255 bound, so `encode` can return a
  name that is not a StrictName (Findings, second row).
- `decode` returns its input unchanged (bitsy.js:574-583). No decoder is
  modelled. Reversibility of the first three tiers is stated instead as
  injectivity plus explicit recovery equations.

## Model

| member | source | states |
|---|---|---|
| `CodeUnits.IndexOf` | bitsy.js:284 | `indexOf` returns -1 exactly when the unit is absent; otherwise it returns a position that holds the unit, with no earlier occurrence |
| `CodeUnits.AsciiLower` | bitsy.js:317 | lower-casing keeps the length, leaves no ASCII capital, maps each capital to the same letter in lower case, and leaves every other unit unchanged |
| `CodeUnits.LabelEnd` | bitsy.js:284-295 | the device candidate ends at the first dot, or at the end of the string; no dot comes before that point |
| `Grammar.IsAlmostStrict` | bitsy.js:179-254 | the character loop returns true exactly when `AlmostStrict` holds: `.` and `..`, or 1 to 255 units over `[0-9A-Za-z_.-]` with no leading dot, no trailing hyphen or dot, no hyphen before or after a dot, and no two adjacent dots |
| `Grammar.IsStrictName` | bitsy.js:267-330 | a StrictName is always almost strict |
| `Grammar.StrictNameIffNotDevice` | bitsy.js:284-329 | for an almost-strict name, `isStrictName` is false exactly when the label before the first dot spells aux, con, nul or prn, or spells com or lpt followed by a digit, in any ASCII case; the label is empty when the dot comes first |
| `Grammar.LowerSpells` | bitsy.js:315-326 | comparing the lower-cased candidate with a lower-case stem is the same as matching the stem letter by letter in either case |
| `Grammar.DotNamesStrict` | bitsy.js:189-192 | `.` and `..` are StrictNames, since their device candidate is empty |
| `Encoder.FirstFault` | bitsy.js:401-451 | no failure exactly when no unit offends; otherwise the failure is the one for some offending unit with no offending unit before it |
| `Encoder.ScanUnits` | bitsy.js:398-451 | the validation loop, which skips the low half of each checked pair, reports exactly the failure of the first offending unit, or none |
| `Encoder.SurrogateRejection` | bitsy.js:425-450 | with no control code, slash or backslash present, the input is refused exactly when a low surrogate has no high surrogate before it or a high surrogate has no low surrogate after it, and the failure is then the improper-surrogate one |
| `Encoder.UpperIffLowerChanges` | bitsy.js:455-459 | the input has an ASCII capital exactly when lower-casing its ASCII letters changes it |
| `Encoder.HasPrefix` | bitsy.js:463-469 | the input has a reserved prefix exactly when it has at least four units: `x`, then `z` or `q`, then two hyphens, compared without case folding |
| `Encoder.PrefixEscaped` | bitsy.js:493-514 | the prefix escape is two units longer than its input |
| `Encoder.DeviceEscaped` | bitsy.js:516-536 | the device escape is six units longer than its input |
| `Encoder.EncodeSpec` | bitsy.js:377-536 | the input is refused exactly when it is empty, longer than 255 units, or has an offending unit; `tooLong` is set exactly when it is longer than 255 units; the empty input gives the "may not be empty" failure |
| `Encoder.Encode` | bitsy.js:377-536 | the method takes the decision `EncodeSpec` describes: length checks, validation loop, classification, then the first tier that applies |
| `Encoder.PassThrough` | bitsy.js:486-491 | a StrictName with no ASCII capital and no `xz--`/`xq--` prefix is returned unchanged |
| `Encoder.PrefixEscapeTier` | bitsy.js:493-514 | a StrictName with no ASCII capital and a reserved prefix passes validation and is encoded by the prefix escape |
| `Encoder.DeviceEscapeTier` | bitsy.js:516-536 | an almost-strict name that is not strict, with no ASCII capital and no reserved prefix, passes validation and is encoded by the device escape |
| `Encoder.PrefixedLabel` | bitsy.js:461-469 | a prefixed input has no dot in its first four units, and its second unit is `z` or `q` |
| `Encoder.PrefixEscapedRecoverable` | bitsy.js:493-514 | the prefix escape starts with `xq--`; its label is two units longer and ends in `-` and the input's second letter; the input is the output with that letter restored in second place and the suffix removed |
| `Encoder.DeviceEscapedRecoverable` | bitsy.js:516-536 | the device escape starts with `xq--`; its label is six units longer and ends in `-x`; the input is the output without its first four units and without that suffix |
| `Encoder.PrefixEscapedLower` | bitsy.js:495-513 | the prefix escape of a name with no capitals has none |
| `Encoder.DeviceEscapedLower` | bitsy.js:519-535 | the device escape of a name with no capitals has none |
| `Encoder.EncodedTier` | bitsy.js:486-536 | a returned name comes from pass-through (a StrictName, unprefixed, no capitals, returned as is), the prefix escape (a prefixed StrictName, no capitals) or the device escape (almost strict but not strict, unprefixed, no capitals); with `PassThrough`, `PrefixEscapeTier` and `DeviceEscapeTier` this is both directions of the tier choice |
| `Encoder.EncodedShape` | bitsy.js:453-536 | every returned name has no ASCII capital, and is either the unprefixed input itself or starts with `xq--` |
| `Encoder.SpliceAtLabel` | bitsy.js:493-536 | an escape (a dot-free head, the rest of the label, a dot-free suffix, then everything from the first dot on) has its label end right after the suffix, and each copied part sits at a known place in it |
| `Encoder.NoOffenceIffWellPaired` | bitsy.js:425-450 | with no control code, slash or backslash, no unit offends exactly when every surrogate is half of a pair |
| `Encoder.ReadBackPrefixEscaped` | bitsy.js:493-514 | reading back a prefix-escaped name returns the input |
| `Encoder.ReadBackDeviceEscaped` | bitsy.js:516-536 | reading back a device-escaped name returns the input |
| `Encoder.ReadBackEncoded` | bitsy.js:486-536 | every name the three tiers return reads back to its input, whichever tier produced it |
| `Encoder.EncodeInjective` | bitsy.js:486-536 | two inputs that both get a name get the same name only if they are equal, so the encoding loses nothing |
| `Encoder.PrefixEscapeExample` | bitsy.js:493-514 | `encode("xz--a.b")` is `xq--a-z.b` |
| `Encoder.DeviceEscapeExample` | bitsy.js:519-535 | `encode("con")` is `xq--con-x` |
| `Findings.EncodeAsWritten` | bitsy.js:377-403 | `encode` as written returns (a refusal) exactly when the input is empty or over 255 units, and then agrees with the intended `encode`; every other input ends in a ReferenceError at the first statement of the validation loop |
| `Findings.ReferenceErrorWitness` | bitsy.js:401-403 | as written, `encode("hello.txt")` throws a ReferenceError, where the intended validation returns `hello.txt` unchanged |
| `Encoder.PrefixEscapedStrict` | bitsy.js:495-514 | the prefix escape of a StrictName is a StrictName whenever the input has at most 253 units |
| `Encoder.DeviceEscapedStrict` | bitsy.js:519-535 | the device escape of an almost-strict name with a non-empty label is a StrictName whenever the input has at most 249 units |
| `Encoder.NotStrictLabel` | bitsy.js:297-329 | an almost-strict name that is not strict has a label of three or four units |
| `Encoder.StrictWithinBound` | bitsy.js:486-536 | every name the three tiers return is a StrictName if it has at most 255 units |
| `Findings.EncodeBounded` | bitsy.js:357-367 | with the 255 bound applied to the result, every returned name is a StrictName; the input is refused exactly when `encode` refuses it or the result would be too long; `encode`'s own refusals keep their failure, an over-long result is refused as too long (`tooLong` set), a result that fits is returned unchanged, and the general tier is still reached as before |
| `Findings.OverflowWitness` | bitsy.js:516-536 | `con.` followed by 251 `a` (255 units) is device-escaped to 261 units, which is not a StrictName; the bounded encoder refuses it as too long |

## Findings

| source | as written | input that shows it | evidently intended | confidence | as-written member | corrected member |
|---|---|---|---|---|---|---|
| bitsy.js:403 | The validation loop begins with `cpc++`, and `cpc` is declared nowhere. Reading the undeclared `cpc` throws a ReferenceError (in strict and sloppy mode alike) on the first pass, for every input of 1 to 255 units. | `hello.txt` | The loop only validates the units, so `hello.txt` passes through unchanged | high, not executed | `Findings.EncodeAsWritten` (shown by `Findings.ReferenceErrorWitness`) | `Encoder.Encode` |
| bitsy.js:493-536 | The prefix and device escapes add 2 or 6 units and return with no check against the 255 bound. | `con.` followed by 251 `a` (255 units) gives 261 units | Refuse with `tooLong` set, as the documentation of `encode` describes the flag (bitsy.js:363-367), so that every returned name is a StrictName | medium, not executed | `Encoder.EncodeSpec` (shown by `Findings.OverflowWitness`) | `Findings.EncodeBounded` |

## Left out

- The general tier (bitsy.js:538-555). `str.normalize("NFC")` is a call into Unicode tables, and everything after it is unimplemented (`return "?TODO?"`). The model stops at the `General` outcome.
- `getCPC` (bitsy.js:346-350) is a stub that returns `str.length`. It is used only in the general tier.
- `decode` (bitsy.js:574-583) is a stub that returns its input. No decoder is modelled.
- `fault` (bitsy.js:143-161) only logs and throws. The `typeof` guards in `EncodeException`, `DecodeException` and the entry points are left out, because Dafny's types fix the argument types.
- The exception message strings are reduced to the `Failure` constructor that names each one.
- `toLowerCase` is modelled on ASCII units only. Only ASCII reaches it, because the candidate has already passed `isAlmostStrict`.
- `bitsy_app.js` is page glue (DOM lookups, display toggling, button handlers) around `encode` and `decode`, and is not part of this model.
- `Encoder.EncodeSpec` models the code as written for long inputs, so it gives no StrictName guarantee. That guarantee is stated for `Findings.EncodeBounded`, and for `EncodeSpec` only up to 255 result units.
