# Font-kit token generator: a Dafny model

`scripts/build.js` builds a font kit. To ask the font service for a subset, it
computes a "unicode" token locally, imitating the service's own script. The
code points a font needs go into a Bloom filter. The filter is then serialised
as URL-safe base 64. The code points come from the CSS `unicode-range`
expressions of the stylesheets. This project models that part of the script
(lines 17-152) and proves properties of the model:

- `js_int.dfy` (module `JsInt`): JavaScript's integer-valued numbers and the
  32-bit bitwise operators `&`, `|`, `^`, `<<`, `>>>`. It uses ToInt32 and
  ToUint32 on unbounded integers.
- `murmur.dfy` (module `Murmur`): `H_CONST`, the split multiply `G`, and the
  MurmurHash3 hashes `Ba` (numbers) and `Ca` (strings).
- `bit_array.dfy` (module `BitArrays`): the bit array `Da`, as a class over
  an `array<int>` of words.
- `bloom_filter.dfy` (module `BloomFilter`): the Bloom filter `Ea`, as a
  class owning a `BitArray`.
- `base64.dfy` (module `Base64`): the base 64 encoding of section 4 of
  RFC 4648, with a decoder.
- `token.dfy` (module `Token`): the serialiser `Fa`, the token generator
  `Ga`, and a decoder that reads a token back into words.
- `unicode_range.dfy` (module `UnicodeRange`): `parseUnicodeRange`, a loop
  over the comma-separated parts. The specification functions give the
  values each part denotes.

Each operation is first written as a function. The methods that mirror the
script's loops (`HashString`, `Filter.Add`, `Serialize`, `AddAll`,
`ParseUnicodeRange`, `PushRange`) are proved equal to those functions. So are
the in-place update `BitArray.Set` and the token generator `GenerateToken`.
The lemmas state what the functions mean:
- `G` is multiplication modulo 2^32;
- `set` turns on exactly one bit;
- `add` is monotone, idempotent and order-independent;
- a token decodes back to its words;
- a range expression yields exactly the values between its bounds.

## Model

| member | source | states |
|---|---|---|
| Murmur.Seed | scripts/build.js:17 | The seed of round c is below 2^32: `H_CONST[c]`, or 0 past the table, where `b \|\| 0` turns undefined into 0 |
| Murmur.SplitMul | scripts/build.js:19-21 | G itself, with no contract of its own; SplitMulWraps and SplitMulCongruent state what it computes |
| Murmur.SplitMulWraps | scripts/build.js:19-21 | G(a, b) is congruent to a * b modulo 2^32, so the split multiply is a 32-bit multiplication |
| Murmur.SplitMulCongruent | scripts/build.js:19-21 | G reads its first operand only modulo 2^32 |
| Murmur.HashNumber | scripts/build.js:23-32 | Ba returns an unsigned 32-bit value (the final `>>> 0`) |
| Murmur.HashNumberIsOneBlock | scripts/build.js:23-32 | Ba(x, s) equals Ca(s) on the four characters holding x's little-endian bytes: one block, no tail, length 4 |
| Murmur.BlockCount | scripts/build.js:36-37 | The block loop covers 4m characters with 4m <= length < 4m + 4 |
| Murmur.BlockWordOfBytes | scripts/build.js:39 | The block word built from four byte-sized characters is their little-endian value modulo 2^32 |
| Murmur.BlockWord | scripts/build.js:39 | The block word of characters c to c + 3, with no contract of its own; BlockWordOfBytes states its value |
| Murmur.MixBlock | scripts/build.js:40-45 | One pass of the block loop on the accumulator, with no contract of its own; MixNext and HashString use it as their specification |
| Murmur.MixTail | scripts/build.js:47-58 | The fall-through switch on the 0 to 3 characters left, with no contract of its own; HashString uses it as its specification |
| Murmur.Finalize | scripts/build.js:59-62 | XOR of the length and the avalanche end in an unsigned 32-bit value |
| Murmur.MixNext | scripts/build.js:38-46 | One pass of the block loop takes the accumulator of i blocks to that of i + 1 blocks |
| Murmur.HashString | scripts/build.js:34-63 | Ca's loop over the blocks, the fall-through switch on the tail and the avalanche compute HashStringValue |
| Murmur.HashStringValue | scripts/build.js:34-63 | Ca returns an unsigned 32-bit value |
| BitArrays.WordCount | scripts/build.js:67 | `Math.ceil(size / 32)` words hold exactly the size bits: size <= 32n < size + 32 |
| BitArrays.OutOfBoundsIff | scripts/build.js:72 | The bounds test `Math.floor(i / 32 + 1) > values.length` holds iff i >= 32 * values.length |
| BitArrays.SetBitBits | scripts/build.js:73-74 | After `values[b] \|= 1 << i - 32b`, bit j is set iff it was set before or j == i, and no other word changes |
| BitArrays.BitArray.constructor | scripts/build.js:66-70 | A new array has ceil(size / 32) words, all zero |
| BitArrays.BitArray.Set | scripts/build.js:71-75 | `set(i)` throws "Index is out of bounds." iff i >= 32 * length, leaving the words unchanged; otherwise it turns on bit i and nothing else |
| BitArrays.BitArray.Has | scripts/build.js:76-80 | `has(i)` throws the same error under the same condition, and otherwise returns bit i |
| BloomFilter.Hash | scripts/build.js:92 | The round hash, Ba for a number and Ca for a string, is an unsigned 32-bit value |
| BloomFilter.Index | scripts/build.js:92 | The bit round c sets, `hash % size`, is below size |
| BloomFilter.Indices | scripts/build.js:91-93 | The g indices `add` passes to `set`, in round order |
| BloomFilter.RoundHash | scripts/build.js:92 | Round c hashes with Ba for a number and Ca for a string, seeded by `H_CONST[c]` |
| BloomFilter.SetAllBits | scripts/build.js:91-93 | After setting bits xs in turn, bit j is set iff it was set before or j is among xs |
| BloomFilter.Filter.constructor | scripts/build.js:84-88 | A filter of size bits and g rounds starts with all words zero |
| BloomFilter.Filter.AddRound | scripts/build.js:91-93 | One round of `add` sets the round's bit, and its `set` never throws |
| BloomFilter.Filter.Add | scripts/build.js:89-94 | `add(key)` leaves the words AddWords of the old words: every round's bit set, in order |
| BloomFilter.AddWords | scripts/build.js:89-94 | The words after `add`: as many as before, and still 32-bit values |
| BloomFilter.AddBits | scripts/build.js:89-94 | After `add`, bit j is set iff it was set before or some round hashed the key to j |
| BloomFilter.AddMonotone | scripts/build.js:89-94 | `add` never clears a bit, and afterwards every round's bit for the key is set: no false negatives |
| BloomFilter.AddIdempotent | scripts/build.js:89-94 | Adding the same key twice leaves the same words as adding it once |
| BloomFilter.AddCommutes | scripts/build.js:89-94 | Adding two keys gives the same words in either order |
| Token.MaskedByte | scripts/build.js:105-108 | `(d & (255 << s)) >>> s` is byte s / 8 of d modulo 2^32 |
| Token.WordBytes | scripts/build.js:103-108 | The four characters Fa appends for a word are its big-endian bytes modulo 2^32 |
| Token.ReadWordsToBytes | scripts/build.js:100-109 | Reading the bytes back four at a time gives every word modulo 2^32 |
| Token.StripPadding | scripts/build.js:113 | `replace(/=+$/, "")` keeps a prefix, removes only '=' characters, and leaves no '=' at the end |
| Token.TokenOf | scripts/build.js:111-113 | Fa's value on its words, with no contract of its own; TokenAlphabet and DecodeTokenOf state its alphabet and its round trip |
| Base64.EncodeBody | scripts/build.js:111 | The unpadded encoding has 4 characters per 3 bytes and 2 or 3 for a final 1 or 2 bytes, all from the standard alphabet |
| Base64.Encode | scripts/build.js:111 | The padded encoding, with no contract of its own; DecodeEncode states that it is invertible |
| Token.TokenAlphabet | scripts/build.js:111-113 | A token contains no '+', '/' or '=' |
| Token.Serialize | scripts/build.js:97-114 | Fa's loop over `[size, g].concat(values)` produces TokenOf of those words |
| Token.DecodeTokenOf | scripts/build.js:97-114 | A token decodes back to the words it was made from, each modulo 2^32 |
| Token.DecodeHeader | scripts/build.js:100 | A filter's token decodes to its size, its rounds, then its words modulo 2^32 |
| Base64.DecodeEncode | scripts/build.js:111 | Decoding the base 64 encoding of any bytes gives the bytes back |
| Token.FilterSize | scripts/build.js:119 | The bit count is the estimate, capped at 9586 |
| Token.Rounds | scripts/build.js:120 | The number of rounds is the estimate clamped to 1 to `H_CONST.length`: the estimate when in range, 10 above it, 1 below it |
| Token.AddAll | scripts/build.js:121-123 | The `forEach` adds the list's numbers in order |
| Token.AddNumbersBits | scripts/build.js:121-123 | After the `forEach`, bit j is set iff it was set before or some round of some listed number selects it: no false negatives for the whole list |
| Token.AddNumbersOrder | scripts/build.js:121-123 | The words after the `forEach` depend only on which numbers the list holds, not on their order or repeats |
| Token.GenerateToken | scripts/build.js:116-127 | Ga returns "AAAAAQAAAAEAAAAB" for an empty list, and otherwise the token of a fresh filter with every number added |
| Token.EmptyTokenDecodes | scripts/build.js:126 | The empty list's literal token decodes to the words [1, 1, 1] |
| UnicodeRange.SplitCommas | scripts/build.js:131 | The split gives at least one piece, and no piece contains a comma |
| UnicodeRange.JoinSplit | scripts/build.js:131 | Joining the pieces with commas gives the text back |
| UnicodeRange.SplitJoin | scripts/build.js:131 | Splitting comma-free pieces joined with commas gives the pieces back |
| UnicodeRange.TrimStart | scripts/build.js:131 | The white space the separator swallows after a comma is exactly the leading white space |
| UnicodeRange.TrimEnd | scripts/build.js:131 | The white space the separator swallows before a comma is exactly the trailing white space |
| UnicodeRange.Parts | scripts/build.js:131 | The separator split gives one part per comma piece |
| UnicodeRange.TwoParts | scripts/build.js:131 | Two texts around a comma with white space on both sides become exactly the two texts |
| UnicodeRange.LeadingSpace | scripts/build.js:131-134 | White space at the very start of the expression is kept, so the first part does not match |
| UnicodeRange.TrailingSpace | scripts/build.js:131-134 | White space at the very end of the expression is kept, so the last part does not match |
| UnicodeRange.MatchToken | scripts/build.js:134 | A match yields captures of 1 to 6 characters of `[0-9a-f?]`, and optionally 1 to 6 hex digits |
| UnicodeRange.MatchTokenSound | scripts/build.js:134 | A part matches only if it is `u+` or `U+` followed by its captures |
| UnicodeRange.MatchTokenComplete | scripts/build.js:134 | Every such text matches, with exactly those captures |
| UnicodeRange.MatchEnds | scripts/build.js:134 | A part that matches ends in a digit or '?', never in white space |
| UnicodeRange.ParseHex | scripts/build.js:137-141 | `parseInt(ds, 16)` of n digits is below 16^n |
| UnicodeRange.Fill | scripts/build.js:137-138 | `replace(/\?/g, c)` replaces each '?' with c and keeps every other character |
| UnicodeRange.PushRange | scripts/build.js:139 | `for (; e <= f; e++) result.push(e)` appends e, e + 1, ..., f, and nothing when e > f |
| UnicodeRange.PushPart | scripts/build.js:134-149 | One iteration appends the values of the part, or nothing when it does not match |
| UnicodeRange.ParseUnicodeRange | scripts/build.js:130-152 | The parser returns the values of the parts, in order |
| UnicodeRange.TokenValues | scripts/build.js:136-148 | The values of one match by the code's three branches, with no contract of its own; TokenValuesInterval states them as one interval |
| UnicodeRange.TokenValuesInterval | scripts/build.js:136-148 | Every branch pushes the full interval from Low to High, in increasing order |
| UnicodeRange.PartValuesIn | scripts/build.js:134-149 | A value comes out of a part iff the part matches and the value lies between its bounds |
| UnicodeRange.ValuesIn | scripts/build.js:133-150 | A value is in the result iff it comes out of one of the parts |
| UnicodeRange.RangeValuesBound | scripts/build.js:134-148 | Every value is below 0x1000000, but nothing clamps it to 0x10FFFF |
| UnicodeRange.TrailingWildcard | scripts/build.js:136-139 | Hex digits d followed by k '?' run from d * 16^k to d * 16^k + 16^k - 1, whatever end is written |
| UnicodeRange.TrailingWildcardIn | scripts/build.js:136-139 | A value is in that range iff its leading hex digits are d |
| UnicodeRange.InnerWildcard | scripts/build.js:136-139 | A '?' before a digit still enumerates the whole interval: "?4" runs from 0x04 to 0xF4 and includes 0x05 |
| UnicodeRange.SingleToken | scripts/build.js:130-152 | An expression holding a single token gives the interval from its Low to its High |
| UnicodeRange.ExampleRange | scripts/build.js:141-144 | "U+41-43" gives 0x41, 0x42, 0x43 |
| UnicodeRange.ExampleWildcard | scripts/build.js:136-139 | "U+4?" gives 0x40 to 0x4F |
| UnicodeRange.ExampleBackwards | scripts/build.js:141-144 | "U+43-41" gives nothing |
| UnicodeRange.SpacesAroundComma | scripts/build.js:131-149 | Two tokens separated by a comma with any white space around it give the first range, then the second |

## Left out

- The floating-point sizing on lines 119-120 (`Math.log`, `Math.pow`, `Math.ceil`, `Math.round`) is not modelled. `GenerateToken` takes the two estimates as integers and applies only the `Math.min`/`Math.max` clamps.
- Token.GenerateToken: requires a size estimate of at least 1. For a non-empty list the script's estimate is always at least 10, and a filter of 0 bits is not modelled (`% 0` would be NaN).
- `Buffer.from(b, 'binary').toString('base64')` is replaced by the encoding of section 4 of RFC 4648. Every character Fa builds is below 256, so the 'binary' conversion is the identity on these bytes.
- The run-time `typeof` check in `add` and its "Value should be a string or number." error are not modelled. The `Key` datatype admits only numbers and strings.
- Numbers are modelled as integers. Keys and words are assumed to be integral JavaScript numbers, exact below 2^53. NaN, fractions and infinities are not modelled.
- BitArrays.BitArray.Set: indices are naturals. A negative or fractional index (which the script's bounds test would let through) is not modelled.
- `parseUnicodeRange` receives a string. The `rangeStr || ""` fallback for a non-string argument is not modelled.
- The regular-expression engine and `String.prototype.split` are replaced by hand-written functions. Those functions give the same pieces and captures for this separator and this pattern.
- Token.EmptyTokenDecodes: proves only that the literal decodes to [1, 1, 1]. It does not prove that Fa would produce the literal for some filter.
- Everything after line 152 is not part of this model: configuration loading, downloading CSS and fonts, rewriting stylesheets, font splitting and file I/O.

## Behaviour the model keeps

The model follows the code on three points where a reader might expect otherwise:

- `parseUnicodeRange` does not clamp values to the largest code point 0x10FFFF. Six hex digits reach 0xFFFFFF (`RangeValuesBound`).
- A '?' that is not trailing still enumerates the whole interval between the two fillings, not only the values matching the pattern (`InnerWildcard`).
- With a '?', any range end after '-' is ignored (`TrailingWildcard` holds for every `last`).
