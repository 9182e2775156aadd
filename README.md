# Visual Brain colour values, in Dafny

Visual Brain is a small photo app: the user picks a photo, the app shrinks
it, asks a clustering library for five dominant colours and shows one card
per colour with its hex code, its RGB channels and its CMYK percentages.
The two pieces of logic the app itself contains are modelled here:

- `rgb_to_cmyk` (module `CmykConversion`, file `cmyk.dfy`): three channels in
  [0, 255] to four integer percentages. Black is special-cased to
  (0, 0, 0, 100). Any other colour has k = 1 - max(r/255, g/255, b/255) and
  c = (1 - r/255 - k) / (1 - k), likewise m and y. Each is scaled by 100 and
  passed to Python's `round`. The model evaluates this expression in exact
  rational arithmetic (`real`). It proves that the divisor `1 - k` is
  max(r, g, b)/255, which is positive off black. It also proves that c is the exact
  ink share (max - r)/max, that every component lies in [0, 100], and that
  k never lands on a rounding tie, so k has an exact closed form.
- the hex code of a card (module `HexNotation`, file `hex_notation.dfy`):
  `"#{:02x}{:02x}{:02x}"` applied to the channels. This is the six-digit RGB
  hexadecimal notation of CSS Color Module Level 4, section 5.2. A decoder
  for that notation partners the encoder. Decoding the code of any colour
  gives that colour back, so the encoding is injective. Encoding the colour
  read from a lower-case code gives that code back; the decoder also
  accepts upper-case digits, which the encoder never writes.

`Colour` (file `colour.dfy`) holds the shared values: a channel `Byte` in
[0, 255], the `Rgb` triple, and `max(r, g, b)`.

`Round` is Python's `round` on one argument applied to the exact value:
it gives the nearest integer, and the even one at an exact tie. The
contracts on c, m and y do not depend on how ties are broken. They state
that each component lies within one half of its exact percentage, and
`InkFixedOffTies` shows that away from ties this pins the component down.

The app itself does no colour clustering: it shrinks the photo with PIL's
`thumbnail` (main.py:46) and takes the dominant colours from
`colorgram.extract` (main.py:51). Its only rounding is Python's `round` in
`rgb_to_cmyk` (main.py:22), which breaks exact ties to even.

## Model

| member | source | states |
|---|---|---|
| Colour.MaxChannel | main.py:18 | the result is one of the three channels and no channel exceeds it |
| CmykConversion.Round | main.py:22 | Python's `round`: the result is within one half of its argument, and even when the argument is an exact tie |
| CmykConversion.OnlyTiesAreAmbiguous | main.py:22 | away from exact ties, any integer within one half of the value is the one `round` returns, so the tie rule is the only freedom |
| CmykConversion.StrictlyNearestIsRound | main.py:22 | an integer strictly closer than one half is what `round` returns, and the value is then no tie |
| CmykConversion.InkPercent | main.py:19-21 | the exact ink percentage 100 * (max - v) / max lies in [0, 100] and is 0 exactly for the strongest channel |
| CmykConversion.BlackPercent | main.py:18 | the exact black percentage 100 * (255 - max) / 255 lies in [0, 100] and is 0 exactly when max is 255 |
| CmykConversion.MaxReal | main.py:18 | Python's `max` of three numbers: the result is one of them and none exceeds it |
| CmykConversion.MaxOfQuotients | main.py:18 | `max(r/255, g/255, b/255)` equals max(r, g, b)/255 |
| CmykConversion.DivisorIsPositive | main.py:16-21 | for every colour other than black, the divisor `1 - k`, with k = 1 - max(r/255, g/255, b/255), equals max(r, g, b)/255 and is positive, so the general branch never divides by zero |
| CmykConversion.InkShareIsPercent | main.py:19-21 | the source's `(1 - v/255 - k) / (1 - k) * 100` equals the exact ink percentage 100 * (max - v) / max |
| CmykConversion.BlackRoundsTo | main.py:18-22 | k * 100 is never an exact tie, and it rounds to (20 * (255 - max) + 25) div 51 |
| CmykConversion.RgbToCmyk | main.py:15-22 | all four components lie in [0, 100]; k equals the closed form of the rounded black percentage; c, m and y are 0 for black and otherwise each within one half of its channel's exact ink percentage |
| CmykConversion.CmykOfBlack | main.py:16-17 | (0, 0, 0) converts to exactly (0, 0, 0, 100) |
| CmykConversion.CmykOfWhite | main.py:18-22 | (255, 255, 255) converts to exactly (0, 0, 0, 0) |
| CmykConversion.CmykOfGrey | main.py:18-22 | a grey v = r = g = b > 0 has c = m = y = 0 and k = round(100 * (255 - v) / 255) |
| CmykConversion.StrongestChannelHasNoInk | main.py:19-22 | the ink component of a channel equal to max(r, g, b) is 0 |
| CmykConversion.InkFixedOffTies | main.py:19-22 | for each of c, m and y: when the exact ink percentage of its channel is no tie, the component is the unique integer within one half of it |
| CmykConversion.InkCanTie | main.py:19-22 | the ink percentages can tie: max 200 with a channel of 1 gives exactly 99.5 |
| CmykConversion.ExactPercentagesInvert | main.py:18-21 | before rounding the conversion loses nothing: 255 * (1 - c/100) * (1 - k/100) gives the channel back |
| HexNotation.DigitValue | main.py:56 | a character has a value exactly when it is a hexadecimal digit of either case, and that value is below 16 |
| HexNotation.HexDigit | main.py:56 | the digit `x` writes for a value below 16 is lower-case and reads back as that value |
| HexNotation.LowerDigitIsCanonical | main.py:56 | every lower-case hexadecimal digit is the one written for its own value |
| HexNotation.HexValue | main.py:56 | a string has a value exactly when all its characters are hexadecimal digits, and a value of k digits is below 16^k |
| HexNotation.ToHex | main.py:56 | `{:x}` writes at least one lower-case digit, the digits denote the number, there is no leading zero except for 0 itself, one digit exactly below 16 and at most two below 256 |
| HexNotation.ZeroPad | main.py:56 | the `0` flag with a width: the result has the width (or the string's own length if longer), ends with the string, and is zeros followed by the string when padding happens |
| HexNotation.HexValueLeadingZero | main.py:56 | a leading `0` does not change the value a digit string denotes |
| HexNotation.HexValueLeadingZeros | main.py:56 | any number of leading zeros does not change the value, so zero-padding keeps the number |
| HexNotation.HexValueOfPair | main.py:56 | a two-digit string denotes sixteen times its first digit plus its second |
| HexNotation.LowerHexSpellingIsUnique | main.py:56 | two lower-case digit strings of one length with the same value are equal |
| HexNotation.FormatByte | main.py:56 | `{:02x}` of a channel is exactly two lower-case digits, which denote the channel |
| HexNotation.FormatByteNibbles | main.py:56 | `{:02x}` of a channel is the digit of its high nibble followed by the digit of its low nibble |
| HexNotation.HexCode | main.py:56 | the code has length 7, starts with `#`, continues with lower-case digits, and its three digit pairs denote r, g and b in that order |
| HexNotation.ParseHexCode | main.py:56 | the decoder accepts exactly the strings of `#` followed by six hexadecimal digits |
| HexNotation.ParseHexCodeOfHexCode | main.py:56 | decoding the code of any colour gives that colour back |
| HexNotation.HexCodeInjective | main.py:56 | two colours with the same code are equal |
| HexNotation.HexCodeOfParseHexCode | main.py:56 | encoding the colour decoded from a lower-case code gives that code back |

## Left out

- RgbToCmyk: c, m and y are stated only to lie within one half of their exact percentages. At an exact tie (for example 99.5) the source evaluates in IEEE-754 doubles, which may land on either side, and Python's `round` breaks a true tie to even. The model applies `Round` to the exact rational, so its choice at a tie is not claimed to match the float result. Away from ties the exact value is at least 1/510 from a tie, and the component is pinned down (`InkFixedOffTies`).
- Floating point in general: the model computes in exact rationals, not IEEE-754 doubles.
- Channels outside [0, 255]: the clustering library only produces bytes, so `Byte` is the input type of the conversion and of the hex code. `ToHex` and `ZeroPad` are general; for larger values `{:02x}` would write more digits, which the model does not use.
- The page layout, widgets and visibility flags (main.py:7-12, 32-37, 41-42, 52, 59-74, 80-84, 100-135): presentation with no logic to state.
- File picking and the temporary thumbnail file (main.py:25-28, 45, 47-48, 76-78): filesystem side effects.
- PIL's `thumbnail` and `colorgram.extract` (main.py:46, 51): foreign library calls whose resampling and clustering are not part of this model. No bucketing, ranking or merging is modelled, because the code contains none.
- Clipboard copy and notifications (main.py:90-91, 94-98): platform I/O.
- The catch-all error handler (main.py:86-92): it only reports a message to the user.
- The `RGB: ...` and `CMYK: ...` display strings (main.py:65-66): presentation only.
