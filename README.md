# NFUID in Dafny

NFUID makes short, URL-safe, time-ordered identifiers. An identifier is a
66-bit value laid out as `timestamp (42 bits) | hidden flag (1 bit) |
random (23 bits)` and written as 11 characters of the alphabet
`A–Z a–z 0–9 - _`, six bits per character, most significant group first.
In hidden mode the timestamp field holds the millisecond timestamp xor-ed
with a 42-bit mask that `stretchRandom` derives from the random field.
`parse` applies the same mask again to recover the timestamp.

The library exists twice: `js/nfuid.js` on BigInt and `php/nfuid.php` on
decimal digit strings. This project models both:

- `Wrappers`, `Bits`, `Widths`: the result type that stands in for
  exceptions, and bitwise and/or/xor and shifts on unbounded naturals.
  `Widths` also holds the field widths and the two masks (`MAX_TIMESTAMP`,
  `MAX_RANDOM`).
- `Alphabet`: `BASE64_CHARS`, the lookup `BASE64_MAP`, and the loop that
  fills the lookup.
- `Codec`, `CodecLaws`: `encodeBitsToBase64` and `decodeBase64ToBits`.
  Each loop is a method proved equal to a recursive specification
  function, whose contract states the error behaviour. `CodecLaws` proves
  round trips, shape and padding about those functions.
- `StretchRandom`: the mixer over unbounded integers, as both sources
  compute it, with the second multiplier of each implementation.
- `Nfuid`: field packing, hiding, `generate` and `parse`, with the clock
  reading and the random source as parameters. The functions follow
  `js/nfuid.js`, which is also the PHP algorithm once the helpers are
  replaced by their numeric meaning.
- `DecimalString`, `DecimalBits`: the PHP `bigInt*` helpers,
  `decimalToBinary` and `binaryToDecimal`, as digit-by-digit loops. Each
  is proved to compute the sum, difference, product, quotient, remainder,
  shift or bitwise operation of the numbers its arguments denote.
- `PhpNfuid`: the PHP `initConstants`, `getSecureRandom`,
  `stretchRandom`, codec, `generate` and `parse`, written with the
  decimal-string helpers. Each is proved equal to the number-level model
  applied to the values the strings denote.

Three facts about the code shape the model:

- Decoding has no length check (js/nfuid.js:75-90, php/nfuid.php:306-321).
  The only error is an invalid character: a short string decodes to a
  smaller value (`parse("")` gives timestamp 0), and characters past the
  expected width are checked against the alphabet and then ignored.
- The two multiplications in `stretchRandom` are not cut to 64 bits in
  either implementation: BigInt `*=` at js/nfuid.js:42 and 44,
  `bigIntMultiply` at php/nfuid.php:269 and 271. Only the final result is
  masked to 42 bits (js/nfuid.js:47, php/nfuid.php:274).
- The PHP second multiplier is the decimal 13787848793156543417
  (php/nfuid.php:271), which is 0xbf58476d1ce4e3b9. The JavaScript code
  multiplies by 0xbf58476d1ce4e5b9 (js/nfuid.js:44), the second multiplier
  of the SplitMix64 finaliser whose first multiplier, 0x9e3779b97f4a7c15,
  both implementations share (see Findings).

## Model

| member | source | states |
|---|---|---|
| Alphabet.IndexOf | js/nfuid.js:14-18 | a character found in the lookup has a position below 64, and the alphabet's character at that position is the character itself |
| Alphabet.IndexOfSymbol | js/nfuid.js:14 | every position 0..63 is found again at itself, so the 64 characters are distinct and the lookup is a bijection |
| Alphabet.SymbolIsCharsAt | js/nfuid.js:14 | `BASE64_CHARS` (`Chars`) has 64 characters, and character i is `Symbol(i)`, the character the four ranges A–Z, a–z, 0–9 and `-_` give for position i; the PHP constant at php/nfuid.php:4 is the same string |
| Alphabet.IndexOfFinds | js/nfuid.js:77 | the lookup succeeds exactly on the characters of `BASE64_CHARS` and returns the position of the character |
| Alphabet.BuildTable | js/nfuid.js:15-18 | the loop fills a map whose keys are exactly the 64 symbols, each mapped to its position (the PHP loop at php/nfuid.php:16-18 is the same) |
| Widths.MaskValues | js/nfuid.js:23-24 | `MAX_TIMESTAMP` is 0x3FF_FFFF_FFFF and `MAX_RANDOM` is 0x7F_FFFF |
| Widths.TimestampMask | js/nfuid.js:109 | `& MAX_TIMESTAMP` keeps the value modulo 2^42, so the result is below 2^42 |
| Widths.TimestampMaskId | js/nfuid.js:120 | a value below 2^42 is unchanged by `& MAX_TIMESTAMP` |
| Widths.RandomMask | js/nfuid.js:131 | `& MAX_RANDOM` keeps the value modulo 2^23 |
| Codec.GroupIndex | js/nfuid.js:55-62 | the index of the next character, the group padded on the right to six bits, is below 64 |
| Codec.EncodeBits | js/nfuid.js:50-69 | the encoding of n bits has ceil(n/6) characters |
| Codec.EncodeBitsToBase64 | js/nfuid.js:50-69 | the loop returns the encoding `EncodeBits(value, bitCount)`: ceil(bitCount/6) characters, all from the alphabet |
| Codec.EncodeBitsSymbols | php/nfuid.php:293 | every character of an encoding is one of the 64 symbols |
| Codec.Step | js/nfuid.js:81-89 | one character moves the bit count to min(expected, total + 6) |
| Codec.DecodeFrom | js/nfuid.js:75-90 | a successful decode never counts more bits than expected, and never fewer than it started with |
| Codec.DecodeBits | js/nfuid.js:71-93 | decoding fails exactly when some character is outside the alphabet; there is no other error and no length check (php/nfuid.php:306-310 is the same) |
| Codec.DecodeBase64ToBits | js/nfuid.js:71-93 | the loop returns what `DecodeBits` specifies: the value, or the invalid-character error at the first bad character |
| CodecLaws.GroupIndexValue | js/nfuid.js:58-62 | the index is the group (value shifted right by the lower bits, mod 2^width) shifted left by the padding |
| CodecLaws.EncodeDependsOnLowBits | js/nfuid.js:58 | two values that agree modulo 2^n have the same n-bit encoding |
| CodecLaws.StepOnGroup | php/nfuid.php:315-317 | decoding the character of a group padded on encode shifts the padding back out: the right shift cancels the left shift |
| CodecLaws.DecodeEncode | php/nfuid.php:277-324 | round trip: decoding the n-bit encoding of v < 2^n gives v |
| CodecLaws.DecodeWidth | js/nfuid.js:81-89 | a decoded value is below 2^min(n, 6·length): a short string decodes to a smaller value |
| CodecLaws.DecodeIgnoresTrailing | php/nfuid.php:312 | once ceil(n/6) characters are read, further alphabet characters change nothing |
| CodecLaws.PadBits | php/nfuid.php:289-291 | the padding of the last group is below 6 and makes the width a multiple of 6 |
| CodecLaws.EncodeCanonical | php/nfuid.php:289-291 | an encoding is canonical: ceil(n/6) symbols, with the padding bits of the last one clear |
| CodecLaws.DecodeCanonical | php/nfuid.php:315-317 | a canonical string decodes to a value below 2^n that encodes back to the same string |
| StretchRandom.Mix | js/nfuid.js:38-48 | `stretchRandom` for a given second multiplier: the input masked to 23 bits, the xor-shift and multiply rounds (`Rounds`), then the 42-bit mask; the result is below 2^42 whatever the multiplier |
| StretchRandom.FirstMultiplierLiteral | php/nfuid.php:269 | the PHP decimal first multiplier 11400714819323198485 is the JavaScript 0x9e3779b97f4a7c15 of js/nfuid.js:42 |
| StretchRandom.Stretch | js/nfuid.js:38-48 | stretchRandom with the JavaScript multipliers gives a mask below 2^42 |
| StretchRandom.StretchAsWritten | php/nfuid.php:263-275 | stretchRandom with the PHP multipliers gives a mask below 2^42 |
| StretchRandom.MixCongruent | php/nfuid.php:266 | inputs equal after `& MAX_RANDOM` give the same mask |
| StretchRandom.MixMasksInput | php/nfuid.php:266 | the mask reads only the input modulo 2^23, or equally the input `& MAX_RANDOM` |
| StretchRandom.StretchMasksInput | js/nfuid.js:39 | `stretchRandom(r) == stretchRandom(r & MAX_RANDOM) == stretchRandom(r mod 2^23)`, and the mask is at most `MAX_TIMESTAMP` |
| StretchRandom.RoundsLowBit | js/nfuid.js:40-45 | when the first product has the low bits it has for input 1, the lowest bit of `Rounds` (three xor-shifts and two unbounded multiplies) is fixed by the 16 low bits of the second multiplier |
| StretchRandom.MaskEven | js/nfuid.js:44 | a second multiplier ending in 0xe5b9, as the JavaScript one does, gives an even mask for input 1 |
| StretchRandom.MaskOdd | php/nfuid.php:271 | a second multiplier ending in 0xe3b9, as the PHP one does, gives an odd mask for input 1 |
| StretchRandom.AsWrittenDiffers | php/nfuid.php:271 | for a random field of 1, the PHP mask is odd and the JavaScript mask even, so the two differ |
| Nfuid.Hide | js/nfuid.js:117-121 | the hidden timestamp field is below 2^42 |
| Nfuid.HideIsXor | js/nfuid.js:119-120 | on a 42-bit timestamp, hiding is a plain xor with the mask |
| Nfuid.HideInvolution | js/nfuid.js:137-141 | hiding twice with the same random field gives back the timestamp, so `parse` undoes `generate` |
| Nfuid.HideMasksRandom | js/nfuid.js:138 | hiding reads only the random field modulo 2^23 |
| Nfuid.Pack | js/nfuid.js:123 | for fields within their widths, the or of the shifted fields is their sum `(2·timestamp + flag)·2^23 + random` |
| Nfuid.PackBound | js/nfuid.js:123 | packed fields within their widths are below 2^66 |
| Nfuid.Unpack | js/nfuid.js:131-133 | whatever the decoded value, the timestamp, flag and random fields read from it fit 42, 1 and 23 bits |
| Nfuid.UnpackPack | js/nfuid.js:131-133 | unpacking a packed value gives back the timestamp (bits 24..65), the flag (bit 23) and the random field (bits 0..22) |
| Nfuid.PackUnpack | js/nfuid.js:131-133 | every value below 2^66 unpacks to fields within their widths that pack back to it |
| Nfuid.Encode64 | js/nfuid.js:95-97 | `encode64ToBase64` gives 11 characters |
| Nfuid.Decode64 | js/nfuid.js:99-101 | `decodeBase64To64` of any string, whatever its length, is below 2^64 |
| Nfuid.Encode64Shape | js/nfuid.js:95-97 | `encode64ToBase64` gives 11 symbols, the last with an index that is a multiple of 4 (4 bits over 2 padding bits) |
| Nfuid.Decode64Encode64 | js/nfuid.js:95-101 | `decodeBase64To64(encode64ToBase64(v)) == v` for v < 2^64 |
| Nfuid.EncodeRandom | js/nfuid.js:103-105 | `encodeRandomToBase64` gives 4 characters |
| Nfuid.EncodeRandomShape | js/nfuid.js:103-105 | the random field encodes to 4 symbols, the last with an even index |
| Nfuid.DecodeEncodeRandom | js/nfuid.js:103-105 | a 23-bit random field decodes back from its 4-character encoding |
| Nfuid.SecureRandom | js/nfuid.js:29 | the random field is the 32-bit random value modulo 2^23, so it is below 2^23 |
| Nfuid.Generate | js/nfuid.js:107-126 | an identifier has 11 characters |
| Nfuid.ParsedTimestamp | js/nfuid.js:135-141 | the timestamp parse reports for a field below 2^42 is below 2^42 |
| Nfuid.Parse | js/nfuid.js:128-148 | a parsed timestamp is below 2^42, and the random field comes back as 4 characters |
| Nfuid.RegenerateFields | js/nfuid.js:107-126 | generating from the parsed timestamp, random field and flag rebuilds the same fields |
| Nfuid.GenerateCanonical | js/nfuid.js:125 | every identifier is 11 symbols in the canonical form of a 66-bit encoding |
| Nfuid.GeneratedFields | js/nfuid.js:109-123 | the generated fields fit their widths when the random field does, and the timestamp `parse` reads back from them is the clock reading modulo 2^42, hidden or not |
| Nfuid.DecodeGenerated | js/nfuid.js:123-125 | an identifier decodes without error, and unpacking the decoded value gives back the generated fields |
| Nfuid.ParseGenerate | js/nfuid.js:107-148 | `parse(generate(hidden))` gives the clock reading modulo 2^42, the same hidden flag and the encoding of the random field, in both modes |
| Nfuid.GenerateParse | js/nfuid.js:128-148 | every canonical identifier parses, and generating from what it parses to gives the same identifier |
| Nfuid.ParseFails | js/nfuid.js:77-79 | `parse` fails exactly when some character is outside the alphabet; there is no length error |
| Nfuid.ParseIgnoresTrailing | js/nfuid.js:81 | characters after the eleventh, if in the alphabet, do not change the result |
| Nfuid.ParseZero | js/nfuid.js:128-148 | a string that decodes to 0 parses as timestamp 0, not hidden, with the encoding of random field 0 |
| Nfuid.ParseEmpty | js/nfuid.js:129 | `parse("")` succeeds with timestamp 0, not hidden |
| DecimalString.TrimZeros | php/nfuid.php:47 | `ltrim(s, '0')` is no longer than `s` and does not start with '0' |
| DecimalString.Normalize | php/nfuid.php:47 | `ltrim(s, '0') ?: '0'` denotes the same number as `s` and is canonical for a digit string |
| DecimalString.NormalizeCanonical | php/nfuid.php:47 | a canonical decimal is its own normal form |
| DecimalString.ToDecimal | php/nfuid.php:258 | `(string)$n` is the canonical decimal denoting n |
| DecimalString.ToDecimalValue | php/nfuid.php:258 | each number has exactly one canonical decimal |
| DecimalString.Compare | php/nfuid.php:137-145 | `bigIntCompare` is -1, 0 or 1: negative exactly when a < b, zero exactly when a = b, leading zeros ignored |
| DecimalString.LongerIsLarger | php/nfuid.php:141-142 | of two canonical decimals, the longer one is larger |
| DecimalString.LexCompareValue | php/nfuid.php:144 | on digit strings of equal length, `strcmp` orders as the numbers do |
| DecimalString.Add | php/nfuid.php:26-48 | `bigIntAdd` returns the canonical decimal of the sum |
| DecimalString.Subtract | php/nfuid.php:50-80 | `bigIntSubtract` returns '0' when a < b and the canonical decimal of a - b otherwise |
| DecimalString.Multiply | php/nfuid.php:82-104 | `bigIntMultiply` returns the canonical decimal of the product |
| DecimalString.PartialProduct | php/nfuid.php:91-97 | the inner loop builds the canonical decimal of digit × a |
| DecimalString.BringDown | php/nfuid.php:117-123 | bringing down one digit and subtracting b while possible leaves a remainder below b, where remainder + count·b = 10·previous + digit |
| DecimalString.LongDivision | php/nfuid.php:113-128 | the digit loop and `ltrim` return the canonical decimal of the floor quotient |
| DecimalString.Divide | php/nfuid.php:106-129 | `bigIntDivide` throws exactly for the divisor '0' and otherwise returns the canonical floor quotient |
| DecimalString.Modulo | php/nfuid.php:131-135 | `bigIntModulo` throws exactly for the divisor '0' and otherwise returns the canonical remainder |
| DecimalString.LeftShift | php/nfuid.php:147-155 | `bigIntLeftShift` multiplies by 2^bits, is canonical when it shifts at all, and returns its argument for 0 bits |
| DecimalString.RightShift | php/nfuid.php:157-165 | `bigIntRightShift` divides by 2^bits, rounding down, and is canonical when it shifts at all |
| DecimalBits.DecimalToBinary | php/nfuid.php:224-235 | `decimalToBinary` returns a string of '0' and '1' whose binary value is the number |
| DecimalBits.BinaryToDecimal | php/nfuid.php:237-251 | `binaryToDecimal` returns the canonical decimal of the binary value |
| DecimalBits.SmallCanonical | php/nfuid.php:368 | a canonical decimal below 2 is "0" or "1", so `$flagBit === '1'` tests the flag |
| DecimalBits.PadLeft | php/nfuid.php:175-176 | `str_pad(..., '0', STR_PAD_LEFT)` reaches the wanted length and keeps the binary value |
| DecimalBits.Combine | php/nfuid.php:178-181 | the character loop over two equal-length bit strings gives the bitwise and/or/xor of their values |
| DecimalBits.Bitwise | php/nfuid.php:167-184 | converting to binary, padding, combining and converting back gives the canonical decimal of the bitwise operation |
| DecimalBits.BitAnd | php/nfuid.php:167-184 | `bigIntAnd` returns the canonical decimal of a & b |
| DecimalBits.BitOr | php/nfuid.php:186-203 | `bigIntOr` returns the canonical decimal of a \| b |
| DecimalBits.BitXor | php/nfuid.php:205-222 | `bigIntXor` returns the canonical decimal of a ^ b |
| PhpNfuid.FirstMultiplierDigits | php/nfuid.php:269 | the multiplier string is canonical and denotes 11400714819323198485, which `StretchRandom.FirstMultiplierLiteral` shows is the JavaScript first multiplier |
| PhpNfuid.SecondMultiplierDigits | php/nfuid.php:271 | '13787848793156543417' denotes the PHP second multiplier |
| PhpNfuid.LowMask | php/nfuid.php:286 | `bigIntSubtract(bigIntLeftShift('1', k), '1')` is the canonical decimal of 2^k - 1 |
| PhpNfuid.InitConstants | php/nfuid.php:20-21 | `MAX_TIMESTAMP` and `MAX_RANDOM` are the canonical decimals of 2^42 - 1 and 2^23 - 1 |
| PhpNfuid.SecureRandom | php/nfuid.php:253-261 | the random field is the canonical decimal of the 32-bit random value modulo 2^23 |
| PhpNfuid.Rounds | php/nfuid.php:268-272 | the xor-shift and multiply rounds on decimals compute the number-level rounds |
| PhpNfuid.StretchRandom | php/nfuid.php:263-275 | the PHP `stretchRandom` returns the canonical decimal of `StretchAsWritten` of the input |
| PhpNfuid.Group | php/nfuid.php:282-291 | the group cut out with bigInt shifts and masks is the character index `GroupIndex` |
| PhpNfuid.EncodeBitsToBase64 | php/nfuid.php:277-298 | the PHP encoder returns the same characters as the number-level encoding of the decimal's value |
| PhpNfuid.DecodeBase64ToBits | php/nfuid.php:300-324 | the PHP decoder fails exactly when the number-level decoder does, and otherwise returns the canonical decimal of its value |
| PhpNfuid.EncodeRandomToBase64 | php/nfuid.php:326-328 | the PHP random-field encoding is the number-level one |
| PhpNfuid.HideAsWritten | php/nfuid.php:342-346 | the timestamp field hidden with the PHP mask is below 2^42 |
| PhpNfuid.HideAsWrittenIsXor | php/nfuid.php:344-345 | on a 42-bit timestamp, hiding with the PHP mask is a plain xor |
| PhpNfuid.HideAsWrittenInvolution | php/nfuid.php:370-374 | hiding twice with the PHP mask gives back the timestamp |
| PhpNfuid.GeneratedFields | php/nfuid.php:336-350 | the PHP fields fit their widths when the random field does, and the timestamp PHP `parse` reads back from them is the clock reading modulo 2^42, hidden or not |
| PhpNfuid.DecodeGeneratedAsWritten | php/nfuid.php:348-356 | a PHP identifier decodes without error, and unpacking the decoded value gives back the PHP fields |
| PhpNfuid.GenerateAsWritten | php/nfuid.php:330-357 | a PHP identifier has 11 characters |
| PhpNfuid.ParseAsWritten | php/nfuid.php:359-387 | PHP parse fails exactly when decoding fails, and a parsed timestamp is below 2^42 |
| PhpNfuid.Generate | php/nfuid.php:330-357 | the PHP `generate` on decimals returns the identifier `GenerateAsWritten` specifies for the clock reading, random value and flag |
| PhpNfuid.Parse | php/nfuid.php:359-387 | the PHP `parse` on decimals returns what `ParseAsWritten` specifies |
| PhpNfuid.ParseGenerateAsWritten | php/nfuid.php:330-387 | PHP parse of a PHP identifier gives the clock reading modulo 2^42, the flag and the encoded random field |
| PhpNfuid.CrossParse | php/nfuid.php:271 | a hidden PHP identifier with random field 1 parses in the JavaScript implementation to a different timestamp |
| PhpNfuid.ReverseCrossParse | js/nfuid.js:44 | a hidden JavaScript identifier with random field 1 parses in the PHP implementation to a different timestamp |
| PhpNfuid.HideThenUnhideAsWritten | php/nfuid.php:370-374 | hiding with the JavaScript mask and unhiding with the PHP mask flips the lowest bit of the timestamp when the random field is 1 |
| PhpNfuid.HideAsWrittenThenUnhide | js/nfuid.js:137-141 | hiding with the PHP mask and unhiding with the JavaScript mask flips the lowest bit of the timestamp when the random field is 1 |

## Left out

- The random sources are left out: `random_bytes`/`unpack` (php/nfuid.php:256-257), `crypto.randomBytes` (js/nfuid.js:28) and the `Math.random` fallback (js/nfuid.js:31, 34). The 32-bit value read is a parameter, `entropy`. The fallback's value below 2^23 is the case `entropy < 2^23`.
- The clock reads are left out: `microtime(true) * 1000` with its float and int casts (php/nfuid.php:333) and `Date.now()` (js/nfuid.js:108). The millisecond reading is a parameter, `nowMs`.
- Date rendering is left out: `gmdate` with float division (php/nfuid.php:376-380) and `new Date(...)` (js/nfuid.js:144). `parse` reports the timestamp in milliseconds.
- The UMD wrapper (js/nfuid.js:1-11, 150-153) is loading plumbing.
- The lazy-initialisation guard of `initConstants` is left out. `PhpNfuid.InitConstants` computes both masks on each call, and `Alphabet.BuildTable` is the map loop.
- The `Nfuid` functions are values, not loops. `Codec` holds the loops, which JavaScript `generate` and `parse` call.
- DecimalString.Divide, DecimalString.Modulo: the divisor must be '0' or denote a positive number. The source loops forever on a zero divisor written otherwise ('00', or the empty string), and the model does not represent non-termination.
- DecimalString.Value counts a character that is not a digit as 0, as PHP's `(int)` of such a character does. Inputs with such characters are otherwise not described: the shift and bitwise methods require digit strings, and every decimal the identifier code passes is one.
- DecimalString.Compare models `strcmp` by its sign (-1, 0 or 1). PHP returns some negative or positive integer, and every caller tests only the sign.
- PhpNfuid.FirstMultiplierDigits, PhpNfuid.SecondMultiplierDigits: the decimal literals of php/nfuid.php:269 and 271 are the constants `StretchRandom.PhpFirstMultiplier` and `StretchRandom.PhpSecondMultiplier`, written with the source's digits, turned into strings by `ToDecimal`. Their value and canonical form are proved, not their character-by-character spelling.
- PhpNfuid.Parse reports `(int)$timestamp` as a natural number. PHP's 64-bit integer holds every 42-bit timestamp.
- The number-level functions stand for BigInt and for bigInt arithmetic without overflow. Both sources compute with unbounded integers, so no wrap-around is modelled.

## Findings

| source | as written | input that shows it | evidently intended | confidence | as-written member | corrected member |
|---|---|---|---|---|---|---|
| php/nfuid.php:271 | the second multiplier is the decimal 13787848793156543417, which is 0xbf58476d1ce4e3b9 | a hidden identifier whose random field is 1: the PHP mask is odd, the JavaScript mask even, so each implementation reads the other's hidden timestamps wrongly, in both directions | 0xbf58476d1ce4e5b9 (13787848793156543929), as in js/nfuid.js:44 and in the SplitMix64 finaliser whose first multiplier both implementations use | not executed | StretchRandom.AsWrittenDiffers (with StretchRandom.StretchAsWritten, PhpNfuid.CrossParse and PhpNfuid.ReverseCrossParse) | StretchRandom.Stretch (used by Nfuid.Hide; Nfuid.ParseGenerate proves the round trip) |
