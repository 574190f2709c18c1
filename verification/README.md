# Base32 codec and Filecoin transaction messages, modelled in Dafny

This project models two parts of a Filecoin signing library.

**The base32 codec** (`src/utils/base32.ts`). `encode` reads bytes as one
most-significant-bit-first stream. It emits one alphabet character per 5 bits
and fills a last partial group with zero bits. It can then add `=` up to a
multiple of 8 characters. `decode` maps characters back to 5-bit values and
emits a byte for every 8 bits; a trailing partial byte is dropped. There are
four variants:

- RFC 3548 and RFC 4648, which share the alphabet of section 6 of RFC 4648;
- "RFC4648-HEX", the extended-hex alphabet of section 7 of RFC 4648;
- Crockford's Base32, whose decoder upper-cases and reads `O` as `0` and
  `I`/`L` as `1`.

Both directions are modelled twice:

- `Base32.Encode` and `Base32.Decode` are methods that run the source's
  accumulator loops. The accumulator is a 32-bit `value`, updated by shifts that
  wrap around, plus a bit count `bits`. The decoder fills a pre-sized `array`
  through a moving `index`.
- `Base32.EncodeSpec` and `Base32.DecodeSpec` are pure specifications over the
  bit stream of module `BitStream`.

Each method is proved equal to its specification. Length, alphabet, padding,
error and round-trip properties are then proved about the specifications, in
`Base32Properties`.

**The transaction message** (`src/transaction/index.ts`). Module
`Transactions` models:

- the constructor's check on `value`;
- `fromJSON`, with its nine key checks in their fixed order;
- `fromCBOR`, from a decoded CBOR item (a small `Cbor` datatype), with its shape,
  version and sign-byte guards;
- `toJSON`, and the 10-element array that `serialize` hands to the CBOR encoder.

The bn.js conversion of a byte string to a decimal string is
`Transactions.DecodeBigNum`: the big-endian value of the bytes, rendered by
`Decimal.DecimalString`.

Addresses, base64 and `serializeBigNum` are collaborators whose code is not part
of this model. They are the function-valued fields of `Transactions.Env`, and
`Address` is an opaque type. `TransactionProperties` proves the check order, the
field copying and both round trips. Each round trip holds under stated
assumptions about the collaborators.

Modules: `Wrappers` (Option, Result), `BitStream` (bit strings, packing, 32-bit
shifts, big-endian values), `Base32`, `Ordering`, `Base32Properties`, `Decimal`,
`Transactions`, `TransactionProperties`.

The model follows the code in three places where a natural reading would
expect something else:

- **Crockford with padding round-trips only whole 5-byte groups.** With
  `padding: true`, Crockford encoding adds `=` when the byte count is not a
  multiple of 5. Crockford decoding does not strip `=`, so it rejects that
  output (`Base32Properties.CrockfordPaddedNoRoundTrip`). When the byte count is
  a multiple of 5, no `=` is added and the round trip holds. So the round trip
  holds exactly when the byte count is a multiple of 5
  (`Base32Properties.CrockfordPaddedRoundTrip`).
- **The `f8 3e 7f 83` vector gives `7A7H7AY=`.** Encoding these four bytes
  under RFC 4648 with padding gives `7A7H7AY=`: seven symbols for 32 bits, then
  one `=` (`Base32Properties.VectorF83E`).
- **`fromJSON` does not check strings for emptiness.** It checks only the type
  of each key, plus the emptiness and sign of `Value`. An empty `To` or
  `Params` string passes the key checks. The model does the same.

## Model

| member | source | states |
|---|---|---|
| Base32.ParseVariant | src/utils/base32.ts:15-31 | exactly the four tags RFC3548, RFC4648, RFC4648-HEX and Crockford select a variant; every other tag selects none |
| Base32.ToUpper | src/utils/base32.ts:97 | lower-case ASCII letters become the matching upper-case letter; every other character is unchanged, so no lower-case letter remains |
| Base32.CrockfordCanonical | src/utils/base32.ts:97 | after upper-casing, `O` becomes `0`, `I` and `L` become `1`, and every other character stays; the result is never `O`, `I`, `L` or lower case |
| Base32.Preprocess | src/utils/base32.ts:85-101 | for the RFC variants, the prepared input is a prefix of the input, does not end in `=`, and only `=` was cut; for Crockford it has the same length and holds no `O`, `I`, `L` or lower-case letter |
| Base32.EncodeSpec | src/utils/base32.ts:11-61 | encoding fails exactly for an unknown variant tag, and then with the unknown-variant error |
| Base32.DecodeSpec | src/utils/base32.ts:82-122 | an unknown tag gives the unknown-variant error; any other failure names a character outside the variant's alphabet; a success has floor(5L/8) bytes for L prepared characters |
| Base32.Alphabet | src/utils/base32.ts:4-6 | each variant's table has 32 symbols and repeats none, so `indexOf` inverts indexing; RFC 4648 holds only `A`-`Z` and `2`-`7`, base32hex only digits and `A`-`V`, Crockford only digits and upper-case letters other than `I`, `L` and `O` |
| Base32.Rfc4648Symbols | src/utils/base32.ts:4 | the RFC 4648 alphabet repeats no symbol and holds only `A`-`Z` and `2`-`7` |
| Base32.Rfc4648HexSymbols | src/utils/base32.ts:5 | the base32hex alphabet repeats no symbol and holds only digits and `A`-`V` |
| Base32.CrockfordSymbols | src/utils/base32.ts:6 | Crockford's alphabet repeats no symbol and holds only digits and upper-case letters other than `I`, `L` and `O` |
| Base32.UsePadding | src/utils/base32.ts:33 | an explicit padding option always wins; without one, padding is on for every variant except Crockford |
| Base32.FillGroup | src/utils/base32.ts:50-52 | the filled length is the least multiple of 5 not below the input length |
| Base32.Quintets | src/utils/base32.ts:40-52 | every 5-bit group of the input's bit stream is below 32, so it indexes the 32-character alphabet |
| Base32.PadCountLeast | src/utils/base32.ts:55-57 | the number of `=` added is the least that brings the length to a multiple of 8 |
| Base32.EncodeSymbols | src/utils/base32.ts:36-52 | the accumulator loop over a 32-bit `value` emits exactly the symbols of the zero-filled 5-bit groups of the input |
| Base32.Pad | src/utils/base32.ts:54-58 | the padding loop appends `=` up to the next multiple of 8 |
| Base32.Encode | src/utils/base32.ts:11-61 | `encode` returns the specification's result, including the unknown-variant error |
| Base32.ByteIn | src/utils/base32.ts:41-42 | shifting `value` left by 8 and or-ing in the byte, in 32 bits, keeps the pending bits as the low bits of `value`, now followed by the byte's 8 bits |
| Base32.GroupOut | src/utils/base32.ts:44-47 | `(value >>> (bits - 5)) & 31` is the value of the first five pending bits, and the rest stay pending |
| Base32.LastGroup | src/utils/base32.ts:50-52 | `(value << (5 - bits)) & 31` is the last, zero-filled group, which completes the specified symbols |
| Base32.IndexOf | src/utils/base32.ts:73 | returns -1 exactly when the character is absent; otherwise its first position |
| Base32.ReadChar | src/utils/base32.ts:72-80 | succeeds exactly on alphabet characters and gives their position; otherwise fails with the invalid-character error naming the character |
| Base32.StripPadding | src/utils/base32.ts:89 | removes exactly the trailing run of `=`: the result is a prefix, does not end in `=`, and only `=` was removed |
| Base32.Lookup | src/utils/base32.ts:111-113 | a successful lookup has one value per character; a failure names a character of the input that is not in the alphabet |
| Base32.DecodeChars | src/utils/base32.ts:103-121 | a successful decode has exactly floor(5L/8) bytes for L characters; a failure names a character of the input that is not in the alphabet |
| Base32.LookupErrPrefix | src/utils/base32.ts:111-113 | once a prefix holds an invalid character, the characters after it do not change the error |
| Base32.DecodeSymbols | src/utils/base32.ts:103-121 | the accumulator loop writes every slot of a buffer of floor(5L/8) bytes with the specified bytes, or fails at the first invalid character |
| Base32.FlushOctet | src/utils/base32.ts:115-118 | `(value >>> (bits - 8)) & 255` is written at `index`, which stays inside the buffer; the bits consumed become written bytes |
| Base32.TakeSymbol | src/utils/base32.ts:112-118 | shifting in one character and flushing a byte once 8 bits are pending keeps fewer than 8 bits pending and the buffer consistent |
| Base32.DecodedLength | src/utils/base32.ts:109 | after the last character, the bytes written fill the buffer: floor(5L/8) of them |
| Base32.Decode | src/utils/base32.ts:82-122 | `decode` returns the specification's result, including the unknown-variant and invalid-character errors |
| BitStream.ValueOfBitsOf | src/utils/base32.ts:45 | reading back the low w bits of a value below 2^w gives the value |
| BitStream.PackUnpack | src/utils/base32.ts:111-119 | regrouping w-bit values into bits and back into w-bit groups gives the values |
| BitStream.UnpackPack | src/utils/base32.ts:40-48 | splitting whole w-bit groups into bits and back gives the bits |
| BitStream.TakeIn | src/utils/base32.ts:41 | shifting `acc` left by w and or-ing in d, in 32 bits, appends d's w bits to the low bits of the accumulator, as long as at most 32 bits are pending |
| BitStream.TakeOut | src/utils/base32.ts:116 | `(acc >>> (n - o)) & (2^o - 1)` is the value of the first o of the n pending bits, and the rest stay pending |
| BitStream.FillOut | src/utils/base32.ts:51 | `(acc << (w - n)) & (2^w - 1)` is the value of the n pending bits followed by zero bits |
| BitStream.PackBitsOf | src/utils/base32.ts:40-48 | the w-bit groups of a value's n*w low bits are its n base-2^w digits |
| BitStream.UnpackBigEndian | src/utils/base32.ts:40-52 | a byte string's bits are the bits of its big-endian value, which ties the 5-bit groups to base-32 digits |
| Ordering.AscendingBelow | src/utils/base32.ts:4-6 | in a strictly ascending run, every earlier character is below every later one |
| Base32Properties.LookupOk | src/utils/base32.ts:111-113 | the lookup succeeds exactly when every character is in the alphabet, and then gives each one's position |
| Base32Properties.LookupErr | src/utils/base32.ts:72-80 | the first character outside the alphabet decides the error |
| Base32Properties.LookupSymbols | src/utils/base32.ts:45 | over an alphabet without repeats, looking up the symbols of some values gives those values back |
| Base32Properties.QuintetsLength | src/utils/base32.ts:40-52 | n bytes give ceil(8n/5) symbols |
| Base32Properties.EncodeUnpadded | src/utils/base32.ts:36-52 | without padding, encoding succeeds with ceil(8n/5) characters, all from the variant's alphabet |
| Base32Properties.EncodePadded | src/utils/base32.ts:54-58 | with padding, the output is the unpadded output and then only `=`: at most 7 of them, the least number that brings the length to a multiple of 8 |
| Base32Properties.PaddingDefault | src/utils/base32.ts:15-33 | with no option, padding is on for the RFC variants and off for Crockford |
| Base32Properties.UnknownVariantFails | src/utils/base32.ts:31 | encoding fails exactly for an unknown tag; then encoding and decoding both give the unknown-variant error |
| Base32Properties.DecodeOk | src/utils/base32.ts:103-121 | decoding succeeds exactly when every character of the prepared input is in the alphabet |
| Base32Properties.DecodeFirstInvalid | src/utils/base32.ts:112 | the first character of the prepared input outside the alphabet is the one the error names |
| Base32Properties.RejectsInteriorPadding | src/utils/base32.ts:89 | RFC 4648 decoding strips only trailing `=`, so `MY=A` fails on `=` |
| Base32Properties.RejectsLowerCase | src/utils/base32.ts:89 | RFC 4648 decoding does not fold case, so `my` fails on `m` |
| Base32Properties.CrockfordFolds | src/utils/base32.ts:97 | Crockford reads lower case as upper case, `O`/`o` as `0`, and `I`/`i`/`L`/`l` as `1` |
| Base32Properties.CrockfordLenient | src/utils/base32.ts:97 | two inputs that agree character by character after Crockford folding decode alike |
| Base32Properties.CrockfordSymbolsCanonical | src/utils/base32.ts:6 | Crockford folding fixes every Crockford symbol |
| Base32Properties.CrockfordPreprocessIdentity | src/utils/base32.ts:97 | Crockford preparation leaves encoder output unchanged |
| Base32Properties.DecodeSymbolsOfQuintets | src/utils/base32.ts:111-121 | decoding the symbols of the input's 5-bit groups gives the input bytes (the fill bits fall in the dropped partial byte) |
| Base32Properties.StripPadded | src/utils/base32.ts:89 | stripping trailing `=` undoes the padding of a string that does not end in `=` |
| Base32Properties.PreprocessEncoded | src/utils/base32.ts:85-101 | the decoder's preparation turns encoder output back into its symbols, unless Crockford output was padded |
| Base32Properties.SymbolCountWhole | src/utils/base32.ts:50-57 | ceil(8n/5) symbols are a multiple of 8 exactly when n is a multiple of 5 |
| Base32Properties.CrockfordPadCount | src/utils/base32.ts:54-58 | Crockford output needs no `=` exactly when the byte count is a multiple of 5 |
| Base32Properties.CrockfordPaddedOutput | src/utils/base32.ts:54-58 | Crockford with padding on gives the unpadded output and then `=`, and adds none exactly when the byte count is a multiple of 5 |
| Base32Properties.CrockfordPaddedWhole | src/utils/base32.ts:95-121 | Crockford with padding on round-trips a byte count that is a multiple of 5 |
| Base32Properties.CrockfordPaddedPartial | src/utils/base32.ts:95-121 | Crockford with padding on fails to decode its own output for any other byte count |
| Base32Properties.CrockfordPaddedRoundTrip | src/utils/base32.ts:54-58 | Crockford with padding on round-trips exactly when the byte count is a multiple of 5 |
| Base32Properties.RoundTrip | src/utils/base32.ts:11-122 | decoding an encoding gives the bytes back for every variant and padding choice, except Crockford with padding on and a byte count that is not a multiple of 5 |
| Base32Properties.QuintetsDigits | src/utils/base32.ts:40-52 | the 5-bit groups are the base-32 digits of the big-endian value shifted left by the fill bits |
| Base32Properties.VectorF | src/utils/base32.ts:11-61 | the RFC 4648 section 10 vector: "f" encodes as "MY======" |
| Base32Properties.VectorHexF | src/utils/base32.ts:21-24 | the RFC 4648 section 10 base32hex vector: "f" encodes as "CO======" |
| Base32Properties.VectorRfc3548F | src/utils/base32.ts:16-20 | the RFC3548 tag encodes "f" as "MY======", the same as RFC4648 |
| Base32Properties.CrockfordPaddedF | src/utils/base32.ts:25-28 | Crockford with padding forced on encodes "f" as "CR======" |
| Base32Properties.CrockfordRejectsPadding | src/utils/base32.ts:95-98 | Crockford decoding rejects "CR======" at the first `=` |
| Base32Properties.CrockfordPaddedNoRoundTrip | src/utils/base32.ts:95-97 | Crockford with padding on does not round-trip "f" |
| Base32Properties.VectorF83E | src/utils/base32.ts:11-61 | f8 3e 7f 83 encodes as "7A7H7AY=" under RFC 4648 with padding |
| Decimal.DigitsNoSign | src/transaction/index.ts:26 | a string of digits has no minus sign |
| Decimal.DecimalStringCanonical | src/transaction/index.ts:46 | base-10 rendering gives a non-empty string of digits with no leading zero and no sign |
| Decimal.DecimalStringValue | src/transaction/index.ts:46 | reading the rendering back gives the number |
| Decimal.ValueString | src/transaction/index.ts:46 | rendering the value of a canonical numeral gives the numeral back |
| Transactions.NewTransaction | src/transaction/index.ts:14-27 | construction succeeds exactly when `value` is non-empty with no `-`; it then holds the fields as given, and otherwise fails with the value error |
| Transactions.DecodeBigNum | src/transaction/index.ts:46-48 | the decoded amount is a canonical decimal whose value is the big-endian value of all the bytes, so it never fails the constructor's check |
| Transactions.FromCBOR | src/transaction/index.ts:35-62 | a non-array fails first, then an array of fewer than 10 items; success needs version 0 and gives a valid version-Zero transaction |
| Transactions.Field | src/transaction/index.ts:72 | a key is present exactly when the message is an object holding the key's name, and then gives the value stored there |
| Transactions.IsObject | src/transaction/index.ts:70 | a message passes the object check exactly when it is not `null`, a boolean, a number or a string: objects and arrays pass |
| Transactions.KeyOk | src/transaction/index.ts:72-89 | a key passes exactly when it is present and holds a number for Nonce, GasLimit and Method, or a string for the others, which for Value must also be non-empty and free of `-` |
| Transactions.SignNegative | src/transaction/index.ts:44 | only a byte string whose first byte is 0x01 counts as negative; an empty one does not |
| Transactions.FromJSON | src/transaction/index.ts:69-103 | a non-object or `null` fails before any key is checked; success gives a valid version-Zero transaction |
| Transactions.NameInjective | src/transaction/index.ts:72-89 | the nine key names are pairwise distinct |
| Transactions.ToJSON | src/transaction/index.ts:109-119 | the record has exactly the nine key names |
| Transactions.Written | src/transaction/index.ts:109-119 | the record stores a number exactly under Nonce, GasLimit and Method, and a string under every other key |
| Transactions.ToJSONField | src/transaction/index.ts:109-119 | each key's name holds that key's field |
| Transactions.Serialize | src/transaction/index.ts:126-137 | the wire form is an array of exactly 10 items |
| TransactionProperties.Position | src/transaction/index.ts:72-89 | the checking order lists every key |
| TransactionProperties.FromJSONFirstFailure | src/transaction/index.ts:72-89 | for an object, the first key in order To, From, Nonce, Value, GasFeeCap, GasPremium, GasLimit, Method, Params that fails its check decides the error, which names that key |
| TransactionProperties.FromJSONErrorIsFirst | src/transaction/index.ts:72-89 | conversely, a field error names a failing key whose predecessors all passed |
| TransactionProperties.FromJSONChecksAll | src/transaction/index.ts:70-89 | success means an object in which all nine keys passed |
| TransactionProperties.FromJSONAccepts | src/transaction/index.ts:91-102 | with all keys valid, success happens exactly when both addresses parse; the result has version Zero and the other fields copied unchanged |
| TransactionProperties.ToJSONKeysOk | src/transaction/index.ts:109-119 | every key of a valid transaction's record passes `fromJSON`'s check |
| TransactionProperties.ToJSONText | src/transaction/index.ts:109-119 | the string keys read back the strings written |
| TransactionProperties.ToJSONNumber | src/transaction/index.ts:109-119 | the number keys read back the numbers written |
| TransactionProperties.JsonRoundTrip | src/transaction/index.ts:69-119 | `fromJSON(toJSON(t)) == t` for a valid transaction whose addresses survive their text form |
| TransactionProperties.FromCBORIgnoresExtra | src/transaction/index.ts:39-42 | items past the tenth are never read |
| TransactionProperties.FromCBORVersionFirst | src/transaction/index.ts:43 | a version other than 0 fails before the value or any other field is looked at |
| TransactionProperties.FromCBORNegativeValue | src/transaction/index.ts:44 | a version-0 value whose first byte is 0x01 fails with the negative-value error |
| TransactionProperties.FromCBORFields | src/transaction/index.ts:44-60 | on success, the value does not start with 0x01; each of the three amounts is the big-endian value of all its bytes, in canonical decimal; the other fields are read by position |
| TransactionProperties.FromCBORValueValid | src/transaction/index.ts:46-50 | `fromCBOR` never fails the constructor's value check |
| TransactionProperties.BigEndianLeadingZero | src/transaction/index.ts:46 | a leading zero byte adds nothing to the big-endian value |
| TransactionProperties.SignByteZero | src/transaction/index.ts:46-48 | a leading 0x00 sign byte does not change a decoded amount |
| TransactionProperties.DecodeEncodedBigNum | src/transaction/index.ts:132 | reading back a correctly serialized canonical amount gives the amount |
| TransactionProperties.FromCBORAccepts | src/transaction/index.ts:42-61 | for a version-0, well-kinded array with a non-negative value, success happens exactly when both addresses parse; the fields are then read by position |
| TransactionProperties.CborRoundTrip | src/transaction/index.ts:126-137 | `fromCBOR(serialize(t)) == t` when the amounts are canonical decimals and the collaborators invert each other on t's fields |
| TransactionProperties.LeadingZerosLost | src/transaction/index.ts:46 | a valid value "007" comes back from the wire as "7", so the round trip needs canonical amounts |

## Left out

- `toDataView` and its typed-array dispatch (`src/utils/base32.ts:63-70`). The input is a byte sequence.
- Base32.ToUpper: upper-cases ASCII letters only. JavaScript's `toUpperCase` also maps non-ASCII characters, and Crockford decoding then accepts some of them. `ı` becomes `I` and then `1`, and `ſ` becomes `S`. `ß` becomes `SS`, which also changes the length and so the buffer size. The source accepts these inputs; the model rejects them as invalid characters.
- Base32.Preprocess: strings are sequences of Unicode scalar values, while JavaScript strings are indexed by UTF-16 code unit (`src/utils/base32.ts:103`, `:112`). For a character outside the Basic Multilingual Plane the source fails on its lone high surrogate; the model fails on the whole character. A lone surrogate cannot be represented here.
- Base32.DecodeSymbols: the buffer size `(length * 5 / 8) | 0` is floor(5L/8). `length * 5 / 8` is a floating-point division, and `| 0` truncates to 32 bits. That changes the result only for L of at least 3,435,973,837. No JavaScript engine holds a string that long, so the case cannot occur and is not modelled.
- `decode` and `encode` on arguments of the wrong JavaScript type (`input: any`, a missing `options` object) are not modelled beyond an absent padding option.
- Base32Properties.RoundTrip: excludes Crockford with padding forced on and a byte count that is not a multiple of 5, because the decoder rejects the `=` the encoder adds there. `Base32Properties.CrockfordPaddedRoundTrip` covers Crockford with padding: the round trip holds exactly when the byte count is a multiple of 5.
- The RFC 4648 section 10 vectors other than "f" (for example "foobar" → "MZXW6YTBOI======") are not evaluated. They follow from `Base32Properties.QuintetsDigits`, but evaluating them is costly.
- src/verify.ts is not part of this model. It wraps foreign signature-recovery code.
- CBOR encoding and decoding (`@ipld/dag-cbor`) are not part of this model. `fromCBOR` starts from the decoded item, and `serialize` stops at the array it hands to the encoder.
- The hex-string input branch of `fromCBOR` (`src/transaction/index.ts:36`) is not modelled.
- Address parsing and rendering, base64, and `serializeBigNum` are not part of this model. They are the opaque functions of `Transactions.Env`.
- The internals of bn.js are not part of this model. Its hexadecimal-to-decimal conversion is modelled by its result: the big-endian value in base 10.
- Transactions.FromCBOR: an item of the wrong kind (for example a number where bytes are expected) fails with `FieldType`. The source has no such check and hands the item to `Buffer`, bn.js or the address parser as it is. The sign check differs for one such input. When the value item is an array whose first element is the integer 1, `valueRaw[0] === 0x01` holds and the source fails with the negative-value error, where the model gives `FieldType(4)`.
- Transactions.FromCBOR: its version check compares with the integer 0. `TxVersion.Zero` is taken to be 0 on the wire.
- Transactions.FromJSON: JSON numbers are integers. Fractional and non-finite JavaScript numbers are not modelled.
- TransactionProperties.CborRoundTrip: holds only for canonical decimal amounts and collaborators that invert each other. A value with leading zeros is accepted by the constructor but does not survive the wire form (`TransactionProperties.LeadingZerosLost`). The `params` collaborator is taken to be base64. That holds only if the CBOR decoder returns a Node `Buffer` for byte strings. On a plain `Uint8Array`, `paramsRaw.toString('base64')` (`src/transaction/index.ts:60`) ignores its argument and joins the byte values with commas.
- The `async`/`Promise` wrappers of `fromCBOR` and `serialize` are left out; their results are computed without waiting.
