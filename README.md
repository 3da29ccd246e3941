# Number encoding of the ElectionGuard verifier, in Dafny

This project models `src/crypto/utils.ts` of the nVotes ElectionGuard SDK
verifier. That file holds the helpers that turn a decimal integer into the
shapes the vjsc cryptographic library consumes:

- `strDecToHex` writes the number as minimal lower-case hexadecimal text.
- `strDecToByteArray` turns that text into a big-endian byte array.
- `strDecToByteTree` pads the text to a fixed number of bytes, or refuses a
  number that is too big with the error "Number is too big for encoding".
- `strDecToModPGroupElement` hands the fixed-width leaf to a modular group's
  `toElement`.
- `removeSpaces`, `isError` and `isNull` are the small helpers of the same file.

Modules:

- `Outcomes`: the error values, and a `Result` for functions of type
  `T | Error`.
- `HexDigits`: hexadecimal digits and the number a digit string denotes.
- `BigEndian`: bytes, big-endian value, fixed-width encoding and its
  uniqueness.
- `Vjsc`: the parts of vjsc the file calls, with the behaviour they are
  taken to have:
  - `util.hexToByteArray`
  - `eio.ByteTree`
  - `arithm.ModPGroup`, which has a modulus byte length and an element
    constructor.
- `CryptoUtils`: the four conversions, and the properties proved about them.
- `Whitespace`: `removeSpaces`.
- `TypeTests`: `isNull` and `isError` on JavaScript values of type `T | Error`.

`strDecToByteTree` is a `method` with the source's padding loop. Its
contract says it returns exactly `FixedWidthLeaf(n, treeSize)`, an
independent reference definition:

- the leaf holding `Encode(n, treeSize)` when `1 <= treeSize` and
  `n < 256^treeSize`;
- the "too big" error otherwise.

The lemmas then prove what the source's comments promise:

- the size check is exactly "the natural encoding does not fit";
- padding adds zero bytes in front;
- nothing is ever truncated;
- the boundary is inclusive.

## Model

| member | source | states |
|---|---|---|
| CryptoUtils.StrDecToHex | src/crypto/utils.ts:32-34 | the text is minimal lower-case hexadecimal, denotes `n`, and is `"0"` exactly for zero |
| CryptoUtils.StrDecToHexOfValue | src/crypto/utils.ts:32-34 | on minimal digit strings `StrDecToHex` is the inverse of reading the digits: `StrDecToHex(HexValue(s)) == s` |
| CryptoUtils.StrDecToByteArray | src/crypto/utils.ts:42-46 | the bytes denote `n` big endian, number half the hex digits rounded up, and have no leading zero byte unless they are the single byte of zero |
| CryptoUtils.StrDecToByteArrayOfValue | src/crypto/utils.ts:42-46 | the byte array is the inverse of big-endian reading on shortest encodings |
| CryptoUtils.NaturalLengthBounds | src/crypto/utils.ts:42-46 | the natural byte length `L` is the least `L >= 1` with `n < 256^L` |
| Vjsc.HexToByteArrayValue | src/crypto/utils.ts:45 | decoding hexadecimal text (odd length given a leading `0`) preserves the number it denotes |
| Vjsc.HexToByteArrayZeroPairs | src/crypto/utils.ts:74-78 | each `"00"` put in front of even-length text becomes one zero byte in front of its decoding |
| CryptoUtils.WholeBytes | src/crypto/utils.ts:61-64 | after the odd-length fix the text has even length, is still lower-case hexadecimal and denotes the same number |
| CryptoUtils.WholeBytesDecodes | src/crypto/utils.ts:59-67 | the evened text decodes to the natural byte array and half its length is that array's byte count, the quantity the size check compares |
| CryptoUtils.FitsIff | src/crypto/utils.ts:66-69 | the size check refuses exactly the numbers whose natural encoding has more than `treeSize` bytes (both directions) |
| CryptoUtils.PaddedNatural | src/crypto/utils.ts:71-78 | when it fits, the fixed-width leaf is the natural encoding with `treeSize - length` zero bytes in front |
| CryptoUtils.PaddedHexIsFixedWidth | src/crypto/utils.ts:71-78 | the text after the padding loop is valid hexadecimal and decodes to the fixed-width leaf |
| CryptoUtils.StrDecToByteTree | src/crypto/utils.ts:55-79 | the loop's result is exactly the reference `FixedWidthLeaf(n, treeSize)`: the "too big" error when the number does not fit, else the leaf of `treeSize` big-endian bytes |
| CryptoUtils.FixedWidthLeafRoundTrip | src/crypto/utils.ts:71-78 | a successful result is a leaf of exactly `treeSize` bytes that reads back as the input |
| CryptoUtils.OversizeIsUnrepresentable | src/crypto/utils.ts:66-69 | for `treeSize >= 1`, a refused number could not have been held by any `treeSize` bytes, so no value is lost by refusing |
| CryptoUtils.ExactFitAccepted | src/crypto/utils.ts:66-69 | the boundary is inclusive: a size equal to the natural length is accepted and nothing is padded |
| CryptoUtils.ZeroIsAllZeros | src/crypto/utils.ts:59-78 | zero becomes `treeSize` zero bytes for every `treeSize >= 1`, and every number is refused for a size below one |
| CryptoUtils.Examples | src/crypto/utils.ts:55-79 | 255 is `"ff"` and `00 ff` in two bytes; 256 is refused in one byte |
| CryptoUtils.StrDecToModPGroupElement | src/crypto/utils.ts:88-113 | an oversize number gives the "too big" error; otherwise the result is `toElement` of the padded natural encoding, so a failure of the constructor is returned unchanged |
| CryptoUtils.ElementInput | src/crypto/utils.ts:93-112 | an oversize refusal does not depend on the group's constructor; otherwise the constructor sees a leaf of the modulus byte length that holds `n` |
| CryptoUtils.ElementRoundTrip | src/crypto/utils.ts:88-113 | if the group's elements read back as the number their bytes denote, a successful conversion reads back as the input |
| CryptoUtils.ElementFailurePropagates | src/crypto/utils.ts:99-110 | when the constructor never reports "too big", the result is "too big" exactly when the number does not fit, so the two kinds of failure are never confused |
| Whitespace.RemoveSpaces | src/crypto/utils.ts:119-121 | no space, tab or newline is left, and the text does not grow |
| Whitespace.RemoveSpacesKeepsOthers | src/crypto/utils.ts:119-121 | every character other than space, tab and newline occurs as often as before |
| Whitespace.RemoveSpacesConcat | src/crypto/utils.ts:119-121 | removal distributes over concatenation |
| Whitespace.KeepsOrder | src/crypto/utils.ts:119-121 | a kept character stays between what is kept of its left and right context |
| Whitespace.RemoveSpacesIdempotent | src/crypto/utils.ts:119-121 | removing blanks twice is the same as removing them once |
| TypeTests.IsNull | src/crypto/utils.ts:10-12 | `isNull` as written: false on `null`, true on `undefined`, on an `Error` and on every ordinary value |
| TypeTests.IsError | src/crypto/utils.ts:21-23 | `isError` (`instanceof Error`): true on an `Error` instance, false on `null`, `undefined` and every ordinary value |
| TypeTests.IsErrorDetectsFailure | src/crypto/utils.ts:21-23 | `isError` is true exactly on failures; a success is the plain value; the oversize failure carries the message "Number is too big for encoding" |
| TypeTests.IsNullInverted | src/crypto/utils.ts:10-12 | as written, `isNull` is false on `null` and true on `undefined` and on every result of a function returning a value or an `Error` |
| TypeTests.IsNullIntendedIsNegation | src/crypto/utils.ts:3-12 | the documented test holds of `null` alone and is the exact negation of the test as written |

## Left out

- Parsing: `BigInt(decLiStr)` (src/crypto/utils.ts:33, 45) parses a decimal
  string or a JavaScript number. The model takes the parsed value as a
  non-negative integer `n` (a `nat`), so these inputs are excluded:
  - Text that does not parse throws a `SyntaxError`, and a non-integer number
    throws a `RangeError`. The throw leaves `strDecToHex`, `strDecToByteArray`
    and `strDecToByteTree`. It also leaves `strDecToModPGroupElement`, because
    that function calls `strDecToByteTree` (line 94) outside its `try`, which
    covers only `toElement` (lines 106-110). This is the one failure that does
    not come back as an `Error` value.
  - A negative number gives hexadecimal text with a leading `-` (`-5` gives
    `"-5"`), which then reaches `util.hexToByteArray`.
- treeSize: `treeSize` is a JavaScript number. It is modelled as an
  integer. A non-integer size, where `treeSize - hex.length / 2` would be
  fractional, is not modelled.
- vjsc: the library's source is not part of this model. Its calls are
  modelled by the behaviour the file relies on:
  - `util.hexToByteArray` gives odd-length text one leading `0` digit, then
    reads each pair of digits as one byte.
  - `eio.ByteTree.asByteTree(bytes)` is a leaf of those bytes.
  - How `util.hexToByteArray` reads characters that are not hexadecimal
    digits is not modelled. The file only ever passes it `toString(16)`
    output.
- CryptoUtils.StrDecToModPGroupElement: `modPGroup.toElement` is modelled as
  a function parameter that returns either an element or an error.
  - A thrown exception is its `Err(Thrown(message))`.
  - Which byte trees a particular group accepts is not modelled.
  - Thrown values that are not `Error` objects are not distinguished from
    errors.
- The exception mechanism itself (`try`/`catch`) and JavaScript's object
  identity are not modelled.
- `src/crypto/SigmaProofOr.ts` is not part of this model. It is a one-line
  delegation into the vjsc library.

## Findings

| source | as written | input that shows it | evidently intended | confidence | as-written member | corrected member |
|---|---|---|---|---|---|---|
| src/crypto/utils.ts:10-12 | `isNull` returns `obj !== null`, so it is true for every value except `null` | `isNull(null)` is false; `isNull(undefined)` and `isNull(x)` for any other `x` are true | `obj === null`, as the name, the documentation and the `obj is null` type predicate say | high, from reading the code; not executed | TypeTests.IsNullInverted | TypeTests.IsNullIntendedIsNegation |
