# Verification of the wallet core

A Dafny model of the codecs, key derivation, signatures and small state machines of the HD wallet
library, with proofs of what they promise. Each component is a module; loops and objects that the
library updates in place are methods and classes here, proved against functions, and the promises are
lemmas about those functions, for every input or every run.

- **Canonical JSON** (RFC 8785): `Utf8`, `KeyOrder`, `Decimals`, `Json`, `JsonWriter`,
  `JsonSerializer`, `JsonReader`, `JsonParser`; the grammar and what the parser accepts in `JsonGrammar`,
  `JsonStrings`, `JsonLanguage`; `NumberForms` (which numeral is written), `JsonErrors`; and
  `JsonRoundTrip`, `JsonTheorems`.
- **Text codecs**: `Radix` and `Base58`; `Regroup`, `BitCodecs` and `TextCodecs` (base32, base64url,
  CIDs); `Bech32Checksum` and `Bech32` (BIP-173 and BIP-350), with published strings in `Bech32Vectors`.
- **BIP-32**: `ExtendedKeys`, `DerivationPaths`, `PathGrammar`, `KeyText`, and the second
  implementation in the identity module.
- **BIP-39**: `Bits`, `MnemonicText`, `Mnemonics`, both validators, and `MnemonicMeaning`.
- **ECDSA**: `Der` (strict DER) and `Ecdsa`.
- **Identities**: `HandleTable`, `Usernames`, `IdentityTransfer`, `Calendar`.
- **Caches and streams**: `KeyCaches`, `AlignedStream`.
- Shared: `Prelude`, `Lexicographic`, `BigEndian`, `DecimalText`.

Foreign cryptography enters as parameters. Hashes and HMACs are functions of fixed output size. A curve
is a group of n scalars seen through its point encodings (`ExtendedKeys.Crypto`) or through an x
coordinate shared by a point and its negation (`Ecdsa.Group`). X25519 is a commuting agreement and
AES-GCM a box that opens under its own key and associated data (`IdentityTransfer.Primitives`).
`to_chars` and `strtod` are a pair in which reading back the shortest digits of a finite double gives
that double; a finite double is a sign and one of the bit patterns below that of infinity
(`Decimals.FloatLibrary`). The laws assumed are the `Lawful` predicates beside these records, and a
lemma next to each, `LawfulExists`, exhibits an instance, so no theorem is about an empty class. The
BIP-39 word list is any strictly sorted list of 2048 lower-case words.

Byte strings are sequences of numbers below 256. Machine arithmetic is explicit where it matters: the
32-bit accumulators wrap, generations and depths have their widths, and the Bech32 register is a 32-bit
vector. Where the code does less than its description suggests, a lemma says exactly when, and another gives
an input: the second BIP-32 child derivation accepts a zero left half that the first one refuses
(`ExtendedKeys.PathsAgree`, `ZeroLeftHappens`); base32 decoding accepts texts no encoder writes
(`TextCodecs.EncodeDecode`, `Base32Loose`); a Bech32 string whose padding is refused decodes to no data
rather than failing (`Bech32.EncodeDecode`, `PaddingIgnored`); path strings may omit slashes, repeat
leading zeros and use other marks (`DerivationPaths.PrintsBack`, `MissingSlashes`, `OtherMarks`); a batch
that passes the last index wraps around where a stream ends (`AlignedStream.StreamMeetsBatch`).

`dafny verify dfyconfig.toml` checks the whole project.

## Model

| member | source | states |
|---|---|---|
| Utf8.DecodeEncode | src/canonical_json.cpp:70-86 | decoding the front of any byte string that starts with the encoding of a scalar finds that scalar and its length, for every scalar value and whatever follows |
| Utf8.ScalarsIff | src/canonical_json.cpp:29-68 | a byte string is accepted with given scalars exactly when it is their encoding, so no overlong form and no surrogate is accepted and accepted bytes re-encode to themselves |
| Utf8.EncodeInjective | src/canonical_json.cpp:70-86 | no two scalars have one encoding |
| Utf8.DecodeStep | src/canonical_json.cpp:29-68 | the step advances past exactly the well-formed scalar at the position, and fails where there is none |
| Utf8.ValidIJson | src/canonical_json.cpp:646-655 | accepts exactly well-formed UTF-8 without noncharacters |
| Utf8.DecodeStrict | src/password_profile.cpp:68-110 | accepts exactly well-formed UTF-8, noncharacters included, and returns its scalars |
| Utf8.StrictUtf8 | src/sdn_identity.cpp:481-490 | the third decoder accepts exactly what the second one accepts |
| Utf8.Utf16Units | src/canonical_json.cpp:400-418 | the loop returns the code units of an accepted name, surrogate pairs included, and none for a rejected one |
| Utf8.Utf16Injective | src/canonical_json.cpp:400-418 | distinct accepted names have distinct UTF-16 code unit sequences, surrogate pairs included |
| KeyOrder.BeforeIsTotal | src/canonical_json.cpp:420-422 | on accepted names the UTF-16 comparison is total and antisymmetric |
| KeyOrder.BeforeTransitive | src/canonical_json.cpp:420-422 | on accepted names the UTF-16 comparison is transitive |
| KeyOrder.BeforeIff | src/canonical_json.cpp:400-422 | one name comes before another exactly when its UTF-16 code units are a proper prefix of the other's or the smaller ones at the first difference |
| KeyOrder.SortSorts | src/canonical_json.cpp:548-550 | sorting members gives the same members in strictly increasing key order |
| KeyOrder.SortedUnique | src/canonical_json.cpp:548-550 | a set of members with distinct accepted names has one sorted arrangement, so the result does not depend on the sorting algorithm |
| Decimals.ScanNumeral | src/canonical_json.cpp:327-376 | every numeral of the JSON grammar (either exponent mark, any sign, leading zeros in the exponent) that the next byte does not continue is scanned to its end and to its exact decimal value |
| Decimals.ScanIff | src/canonical_json.cpp:327-376 | the scanner succeeds with an end and a value exactly when a numeral of the grammar with that value lies there and the next byte does not continue it |
| Decimals.LayoutKeepsValue | src/canonical_json.cpp:424-493 | the ECMAScript layout of shortest digits is a well-formed JSON numeral of the same exact value, in all four layouts; NumberForms says which numeral |
| NumberForms.OneForm | src/canonical_json.cpp:424-493 | of all numerals of one exact value there is at most one of the ECMAScript form: an exponent exactly below 10^-6 or from 10^21, no redundant zero and no empty part in a plain one, one nonzero digit before the point, "e", a sign and the shortest digits in the other |
| NumberForms.LayoutFormIff | src/canonical_json.cpp:424-493 | the layout of well-formed digits has that form exactly when the digits neither start nor end with a redundant zero |
| NumberForms.FormatForm | src/canonical_json.cpp:424-493 | the text of a finite double is "0" for both zeros and otherwise the numeral of that form with the exact value of its shortest digits |
| NumberForms.OnlyText | src/canonical_json.cpp:424-493 | whatever numeral has that form and that value is the text of the double |
| Decimals.FormatScans | src/canonical_json.cpp:424-493 | reading back the text of any of the finite IEEE 754 doubles gives that double, and 0 for -0, given that strtod inverts to_chars on them |
| Decimals.LawfulExists | src/canonical_json.cpp:95-130 | the facts assumed of to_chars and strtod can be met by a library of those doubles that overflows to infinity |
| JsonWriter.WriteIff | src/canonical_json.cpp:512-566 | serialization succeeds exactly when the value is clean and fits the remaining depth, tokens and bytes, and then appends exactly its canonical text and counts its values |
| JsonErrors.WriteErrors | src/canonical_json.cpp:512-579 | a refusal names what is there: the depth, token or byte limit that is really passed, or a number, string or repeated name somewhere in the value that has the fault reported |
| JsonSerializer.Serializer.Append | src/canonical_json.cpp:512-566 | the in-place serializer leaves the output and token count the specification gives, or the same error |
| JsonSerializer.Serializer.AppendString | src/canonical_json.cpp:581-609 | appends the quoted, escaped string or reports the same limit or encoding error |
| JsonRoundTrip.EscapesShortest | src/canonical_json.cpp:581-609 | no sequence of characters and escapes standing for a permitted string is shorter than what is written for it, and none of that length with small hexadecimal digits is different |
| JsonSerializer.ClassifyInvalid | src/canonical_json.cpp:568-579 | names the first decoding problem of a rejected string |
| JsonSerializer.SerializeJcs | src/canonical_json.cpp:667-669 | the whole serializer, exactly: success, bytes and errors are those of the specification, whose meaning is JsonTheorems.WrittenMeans, NumberForms and JsonErrors |
| JsonParser.Parser.ParseValue | src/canonical_json.cpp:173-193 | the in-place parser ends at the position, token count and value, or error, of the reader specification, and terminates |
| JsonParser.Parser.ParseArray | src/canonical_json.cpp:205-218 | the array loop reads what the specification reads |
| JsonParser.Parser.ParseObject | src/canonical_json.cpp:220-249 | the object loop reads what the specification reads, refusing a repeated name |
| JsonParser.Parser.ParseString | src/canonical_json.cpp:251-314 | the string loop, escapes and surrogate pairs included, leaves the position and the text or error of the string specification, whose meaning is JsonStrings.StringIff |
| JsonParser.Parser.ParseNumber | src/canonical_json.cpp:327-376 | the number scanner leaves the position and value of the scanning specification, whose grammar is Decimals.ScanIff, and refuses what strtod does not make finite |
| JsonParser.ParseJson | src/canonical_json.cpp:657-665 | the parser object as a whole: the value or error of the specification, and a value exactly for a text of the grammar that stands for it within the byte, depth, token and string limits |
| JsonStrings.EscapeIff | src/canonical_json.cpp:275-299 | an escape is read as a scalar exactly when its hexadecimal digits, of either case, write the UTF-16 code units of that scalar, a surrogate pair beyond the basic plane, and the scalar is no noncharacter |
| JsonStrings.StringIff | src/canonical_json.cpp:251-314 | a string is read with a text and an end exactly when quoted pieces (characters as they are, letter escapes, code unit escapes) standing for that text lie there and the text is not longer than permitted |
| JsonLanguage.ParseIff | src/canonical_json.cpp:146-398 | the parser accepts a byte string as a value exactly when it is white space, the text of a syntax tree standing for that value, and white space, and value and size are within the limits; it counts the values of the tree |
| JsonLanguage.ValueIsTree | src/canonical_json.cpp:173-249 | whatever is read inside any text, at any depth and token count, is the text of a syntax tree with that value, distinct names, permitted strings and finite numbers, and what it adds to depth and tokens is what the value has |
| JsonLanguage.TreeReads | src/canonical_json.cpp:173-249 | every syntax tree whose value is affordable at a depth and token count is read there, with its value |
| JsonLanguage.LimitsIff | src/canonical_json.cpp:146-398 | a text that some limits admit is admitted by any others exactly when its value and size are within them, and then as the same value |
| JsonParser.ParseExactJcs | src/canonical_json.cpp:671-685 | accepts exactly what parses and serializes to the same bytes |
| JsonRoundTrip.ValueReads | src/canonical_json.cpp:173-193 | inside any text, at any depth and token count, the canonical text of a value that fits is read as the canonical value, spending the same bytes, depth and tokens |
| JsonTheorems.RoundTrip | src/canonical_json.cpp:146-398 | whatever serializes under some limits parses under the same limits to the same tree with members in UTF-16 order and -0 as 0; byte and token counts agree on both sides |
| JsonTheorems.WrittenMeans | src/canonical_json.cpp:512-566 | what is written is the text of a syntax tree that stands for the value, -0 read as 0 and members reordered, without white space, and with the names of every object strictly in UTF-16 order |
| JsonTheorems.CanonSame | src/canonical_json.cpp:512-566 | the canonical value is the value with -0 read as 0, up to the order of members at every depth |
| JsonTheorems.ParsedSerializes | src/canonical_json.cpp:146-398 | whatever parses, from any text, is a clean value within the depth, token and string limits, and serializes under the same limits exactly when its canonical text is within the byte limit |
| JsonTheorems.LimitsAgree | src/canonical_json.cpp:512-566 | under any limits the parser admits a canonical text exactly when the serializer writes its value: both sides enforce the same byte, depth, token and string limits |
| JsonTheorems.ExactAccepts | src/canonical_json.cpp:671-685 | every successful serializer output is accepted by the exact parser |
| JsonTheorems.ExactIff | src/canonical_json.cpp:671-685 | a byte string is accepted by the exact parser exactly when it is what the serializer writes for some value |
| JsonTheorems.OrderDoesNotMatter | src/canonical_json.cpp:536-563 | permuting members at any depth changes neither whether a value serializes nor its bytes |
| JsonTheorems.CanonicalIsUnique | src/canonical_json.cpp:671-685 | two accepted byte strings whose values differ only in member order are byte-identical |
| Radix.ConvertBack | src/bip32.cpp:651-700 | changing base and back is the identity on digit strings, leading zeros included |
| Radix.MulAdd | src/bip32.cpp:621-631 | one pass of the carry loop multiplies the number in the buffer and adds, in place; it keeps untouched digits zero and accounts for the final carry |
| Base58.EncodeFits | src/bip32.cpp:600-646 | a buffer of n*138/100+1 base-58 digits holds every n bytes |
| Base58.DecodeFits | src/bip32.cpp:651-700 | a buffer of n*733/1000+1 bytes holds every n base-58 digits |
| Base58.Fits36 | src/libp2p.cpp:211-243 | the base-36 buffer holds the digits of any input |
| Base58.ChangeBase | src/bip32.cpp:600-646 | the loop over a zeroed buffer, walking all of it or only the used window, leaves carry 0 and the converted digits |
| Base58.DecodeEncode | src/bip32.cpp:600-700 | decoding inverts encoding for every byte string |
| Base58.EncodeDecode | src/bip32.cpp:651-700 | encoding inverts decoding exactly on strings over the alphabet |
| Base58.Alphabet58 | src/bip32.cpp:68-69 | the alphabet is the digits and letters of ASCII in order, without 0, I, O and l |
| Base58.Alphabet36 | src/libp2p.cpp:211-243 | the base-36 digits are 0 to 9 and a to z |
| Base58.EncodeFull | src/bip32.cpp:600-646 | the full-buffer encoder writes the Base58 text |
| Base58.EncodeWindow | src/sdn_identity_secrets.cpp:229-250 | the used-window encoder with its larger buffer writes the same text |
| Base58.DecodeText | src/utils.cpp:123-175 | both decoders give the bytes, or nothing for a foreign character |
| Base58.Encode36 | src/libp2p.cpp:211-243 | writes the base-36 digits of the input, one "0" for each leading zero byte |
| BitCodecs.Drain | src/utils.cpp:474-477 | while only the low bits of the accumulator are right, the inner loop hands out the right symbols |
| BitCodecs.ConvertBits | src/utils.cpp:461-489 | with a signed 32-bit accumulator that is never masked, on input of any length, returns the regrouped number or refuses |
| BitCodecs.PaddedValue | src/utils.cpp:461-489 | regrouping with padding gives as many symbols as the bits need, which write the number of the input followed by fewer zero bits than a symbol has |
| BitCodecs.ExactPadded | src/utils.cpp:461-489 | strict regrouping inverts padded regrouping for every pair of widths |
| BitCodecs.PaddedExact | src/utils.cpp:461-489 | what strict regrouping accepts with less than a symbol to spare is what padding produces |
| BitCodecs.ConvertBitsInverse | src/utils.cpp:504-511 | convertBits 5 to 8 without padding inverts 8 to 5 with padding |
| BitCodecs.ConvertBitsExact | src/utils.cpp:480-489 | a nonempty 5-to-8 result is returned exactly for nonempty members of the 8-to-5 range |
| TextCodecs.EncodeMasked | src/sdn_identity.cpp:532-550 | the masked encoders write the base32 or base64url form of the number |
| TextCodecs.EncodeUnmasked | src/libp2p.cpp:186-204 | the never-masked 32-bit accumulator writes the same base32 text for input of every length |
| TextCodecs.DecodeMasked | src/sdn_identity.cpp:688-714 | the masked decoders return the bytes, or refuse a foreign character, a leftover bit and, for base64url, a length of 1 mod 4 |
| TextCodecs.DecodeEncode | src/sdn_identity.cpp:509-550 | decoding inverts encoding in both alphabets |
| TextCodecs.EncodeDecode | src/sdn_identity.cpp:509-530 | an accepted text re-encodes to itself exactly when less than a symbol is left over; always for base64url |
| TextCodecs.Base64UrlExact | src/sdn_identity.cpp:688-714 | base64url accepts exactly the encoder outputs |
| TextCodecs.Base32Loose | src/sdn_identity.cpp:509-530 | base32 does not: "a" decodes to no bytes |
| TextCodecs.Alphabets | src/sdn_identity.cpp:532-535 | the symbols are a to z, 2 to 7, and A to Z, a to z, 0 to 9, minus, underscore |
| TextCodecs.Hex | src/sdn_identity.cpp:119-127 | two lower-case digits for each byte, which read back as that byte |
| TextCodecs.ValidCid | src/sdn_identity.cpp:552-563 | accepts exactly the one CID of a lower-case SHA-256 digest |
| TextCodecs.CidDistinct | src/sdn_identity.cpp:552-563 | no CID is accepted for two digests |
| TextCodecs.CidStarts | src/sdn_identity.cpp:552-563 | every CID has 59 characters and starts with "bafkrei" |
| Bech32Checksum.ComputePolymod | src/utils.cpp:382-398 | the loop over values and generators computes the register |
| Bech32Vectors.PolymodIsPlain | src/utils.cpp:382-398 | the register is that of the step written out in BIP-173, shift, mask and five generators |
| Bech32Checksum.ExpandMeans | src/utils.cpp:403-416 | the expansion has 2n+1 values, the separator in the middle; in front of it the high bits and behind it the low five bits of every character |
| Bech32Checksum.ExpandHrp | src/utils.cpp:403-416 | the two loops compute that expansion |
| Bech32Checksum.StepLinear | src/utils.cpp:388-396 | one step of the register is linear over exclusive or |
| Bech32Checksum.PolymodLinear | src/utils.cpp:382-398 | reading any two value strings of one length from any two registers is linear over exclusive or |
| Bech32Checksum.ZeroStep | src/utils.cpp:388-396 | a nonzero register stays nonzero when a zero is read |
| Bech32Checksum.BurstDetected | src/utils.cpp:382-398 | changing any run of at most six consecutive symbols, so any single symbol, changes the register at the end, whatever surrounds it |
| Bech32Checksum.CreateChecksum | src/utils.cpp:421-435 | returns the six symbols of the register over the expanded human-readable part, the data and six zeros, adjusted by the constant; the expansion is pinned by ExpandMeans, the register by Bech32Vectors.PolymodIsPlain |
| Bech32Checksum.ChecksumVerifies | src/utils.cpp:440-456 | for every human-readable part, data and specification, data plus its checksum verifies and reports that specification |
| Bech32Checksum.CorruptionDetected | src/utils.cpp:440-456 | a corrupted run of at most six symbols never verifies under the same specification |
| Bech32.Encode | src/utils.cpp:504-527 | writes the human-readable part, "1", data and checksum |
| Bech32.Decode | src/utils.cpp:533-593 | returns what the string means: case rules, last "1", lengths, alphabet, checksum and regrouping |
| Bech32.DecodesIff | src/utils.cpp:533-593 | a text decodes exactly when it is printable, in one letter case, and in lower case a human-readable part, "1" and characters of symbols whose last six verify; and then as what those open to |
| Bech32.DecodeEncode | src/utils.cpp:533-593 | decoding inverts encoding exactly for nonempty, printable human-readable parts without capitals, "1" inside allowed |
| Bech32.EncodeDecode | src/utils.cpp:533-593 | a text that decodes is the encoding of its result, letter case aside, exactly when fewer than five bits follow the last whole byte of its symbols and they are zero; otherwise it holds symbols and decodes to no data |
| Bech32.PaddingIgnored | src/utils.cpp:484-486 | the failing text: after any good human-readable part one zero symbol with its checksum decodes as the text without that symbol does |
| Bech32.OnlyPayload | src/utils.cpp:587-593 | symbols that verify are the payload of what they open to exactly when their padding is clean |
| Bech32Vectors.EmptyBech32 | src/utils.cpp:504-593 | "a12uel5l" of BIP-173 decodes to "a" and no data, and is what encoding them gives |
| Bech32Vectors.EmptyBech32m | src/utils.cpp:504-593 | "a1lqfn3a" of BIP-350, the same for the second constant |
| Bech32Vectors.AllCharacters | src/utils.cpp:504-593 | the BIP-173 string "abcdef1qpzry9x8gf2tvdw0s3jn54khce6mua7lmqqqxw" decodes with all 32 symbols in order, and is the encoding of what it decodes to |
| ExtendedKeys.CompareBytes | src/bip32.cpp:325-343 | the loop that looks at every byte returns the sign of the difference of the numbers |
| ExtendedKeys.IsValidPrivateKey | src/bip32.cpp:353-368 | accepts exactly 0 < key < n |
| ExtendedKeys.OrderIs | src/bip32.cpp:59-65 | n is the order of secp256k1 |
| ExtendedKeys.DerivePath | src/bip32.cpp:1449-1466 | the loop over components is the step-by-step walk, first error included |
| ExtendedKeys.WalkEnds | src/bip32.cpp:1325-1466 | the key a walk ends with has the number of the last component, 2^31 more exactly when that is marked, is one level deeper than the key before it and carries the fingerprint of that key |
| ExtendedKeys.StepCommutes | src/bip32.cpp:1325-1433 | for a key paired with its point and a normal index, public derivation of the neutered key equals the neutered private derivation, errors included, and the child is paired again |
| ExtendedKeys.WalkCommutes | src/bip32.cpp:1449-1475 | the same over every path of components that are unmarked and below 2^31 |
| ExtendedKeys.HardenedNeedsPrivate | src/bip32.cpp:1328-1331 | from a key without its private part a path stops with HardenedFromPublic at the first step that is marked hardened or numbered from 2^31, or earlier with its earlier error, whatever follows |
| ExtendedKeys.ReachedKeysArePaired | src/bip32.cpp:1079-1133 | every key reached from a seed by any path holds the point of its private key |
| ExtendedKeys.InputsDistinct | src/bip32.cpp:1333-1350 | under one key different indices give different HMAC inputs, hardened or not |
| ExtendedKeys.MastersAgree | src/sdn_identity_secrets.cpp:170-184 | the second implementation of the master key agrees exactly on seeds of 16 to 64 bytes and on seeds whose digest does not start with a valid scalar |
| ExtendedKeys.ImplementationsAgree | src/sdn_identity_secrets.cpp:186-219 | the second child derivation agrees exactly when the left half of the digest is not zero; when it is zero it returns a child with the private key of its parent |
| ExtendedKeys.PathsAgree | src/sdn_identity_secrets.cpp:221-227 | over whole paths, one of marked components and the other of their raw numbers, a successful first implementation is matched, and the two differ exactly when the second arrives past a step with a zero left half; the second one is modelled on its own input layout, fingerprint and seed key |
| ExtendedKeys.IdentityPath | src/sdn_identity_secrets.cpp:221-227 | the loop of the second implementation over raw indices |
| ExtendedKeys.ZeroLeftHappens | src/sdn_identity_secrets.cpp:186-219 | such a difference is possible: lawful hashes, a seed on which both masters agree, and a step that the first refuses and the second takes |
| DerivationPaths.ParseNumber | src/bip32.cpp:787-818 | reads a run of at most ten digits as a number of at most 32 bits |
| DerivationPaths.Parse | src/bip32.cpp:747-845 | the loop over the string is the recursive grammar, with the same errors |
| PathGrammar.ParsedIff | src/bip32.cpp:774-845 | a text is accepted as a path exactly when it is "m" or "M" and at most ten components: a number of at most ten digits below 2^31, an optional mark, and a slash in front unless it comes first or after a mark |
| DerivationPaths.ParsePrinted | src/bip32.cpp:851-863 | parsing inverts printing exactly for paths of at most ten components below 2^31 |
| DerivationPaths.PrintsBack | src/bip32.cpp:774-863 | an accepted text is what printing gives exactly when it starts with m, every number follows a slash and has no redundant zero, and the only mark is the apostrophe |
| DerivationPaths.PrintedReads | src/bip32.cpp:774-863 | every accepted text is printed as one that parses to the same path |
| DerivationPaths.MissingSlashes | src/bip32.cpp:774-838 | the input m1'2 is accepted and prints as m/1'/2 |
| DerivationPaths.OtherMarks | src/bip32.cpp:774-838 | the input M/07h is accepted and prints as m/7' |
| DerivationPaths.SlashOptional | src/bip32.cpp:774-838 | in any text a slash may be left out where no digit precedes it: both texts give the same path or the same error |
| KeyText.CheckDecodeEncode | src/bip32.cpp:705-738 | Base58Check decoding inverts encoding for every payload |
| KeyText.CheckEncodeDecode | src/bip32.cpp:719-738 | a text accepted by Base58Check is the encoding of its payload, so each payload has one text |
| KeyText.PrivateRoundTrip | src/bip32.cpp:1480-1523 | fromString of serializePrivate returns the key in every field exactly when the version is private and the key a valid secp256k1 pair |
| KeyText.PublicRoundTrip | src/bip32.cpp:1528-1561 | fromString of serializePublic returns the neutered key exactly when the version is public and the key a compressed secp256k1 encoding |
| KeyText.ParsedIsSerialized | src/bip32.cpp:1164-1278 | every accepted text is the serialization of the key it gives, under the version it carries |
| KeyText.SerializedSize | src/bip32.cpp:1480-1561 | the text has 111 characters for all eight versions, public and private |
| KeyText.SerializedPrefix | src/bip32.cpp:1480-1561 | and starts with the four letters of the version, "xprv" or "xpub" for the main network |
| KeyText.SerializedLayout | src/bip32.cpp:1480-1561 | both serializers write Base58 of 82 bytes: version, depth, fingerprint and child number highest byte first, chain code, key material, and the first four bytes of the double hash of all that |
| KeyText.WriteKey | src/bip32.cpp:1480-1561 | the byte-by-byte serializers write that text |
| KeyText.SerializeXpub | src/sdn_identity_secrets.cpp:252-273 | the second serializer, filling a fixed buffer in place, writes the same xpub for the same node |
| Der.EncodeInteger | src/ecdsa.cpp:182-212 | the loop writes the minimal positive INTEGER |
| Der.WriteDer | src/ecdsa.cpp:178-223 | the SEQUENCE of both integers |
| Der.ParseInteger | src/ecdsa.cpp:274-293 | the strict INTEGER reader accepts what the specification accepts |
| Der.ParseDer | src/ecdsa.cpp:265-300 | the strict parser accepts what the specification accepts |
| Der.StrictIff | src/ecdsa.cpp:265-300 | a string is accepted with r and s exactly when it is SEQUENCE, length, and two INTEGERs of those bytes, each nonzero, minimal, with a zero in front exactly when the top bit is set, and no longer than a coordinate |
| Der.WriteCompact | src/ecdsa.cpp:228-242 | copies both integers right-aligned into a zeroed buffer |
| Der.ParseWritten | src/ecdsa.cpp:265-300 | parsing inverts encoding exactly when both integers are nonzero and fit the coordinate size, and refuses every other encoding |
| Der.CompactRoundTrip | src/ecdsa.cpp:1093-1112 | derToCompact of compactToDer is the identity exactly when r and s are nonzero, and refuses otherwise |
| Der.CompactIff | src/ecdsa.cpp:1093-1112 | derToCompact gives a string exactly when it is r and then s of the strict form, each with zeros in front up to a coordinate |
| Der.DerIsCanonical | src/ecdsa.cpp:1093-1112 | compactToDer of derToCompact is the identity on every accepted DER string: one accepted encoding for each signature |
| Ecdsa.ScalarsVerify | src/ecdsa.cpp:472-539 | the scalars of any signature are in range, satisfy low-S when asked, and verify with the matching public key whether or not s was negated |
| Ecdsa.LeadingBits | src/ecdsa.cpp:347-358 | the integer a hash stands for is below 2 to the order width, and is the hash value divided by the surplus power of two, rounded down |
| Ecdsa.SignedVerifies | src/ecdsa.cpp:575-618 | verify is true on the DER output of sign for every valid scalar, hash of 32, 48 or 64 bytes and low-S choice, and low-S output has s at most n/2 |
| Ecdsa.SignIff | src/ecdsa.cpp:575-618 | sign returns a string exactly when key and hash are of a supported kind, the nonce of key and hash signs to r and s0, s is n - s0 exactly when low S is asked for and s0 exceeds n/2, and the string is their DER encoding and fits the buffer |
| Ecdsa.SignSucceeds | src/ecdsa.cpp:575-618 | in a buffer of twice the coordinate size and eight bytes signing succeeds exactly when such r and s exist |
| Ecdsa.VerifyIff | src/ecdsa.cpp:788-878 | the verifier accepts r and s exactly when some nonce in range signs to them: r is the x coordinate of its point and s solves the signing equation |
| Ecdsa.VerifiesExactly | src/ecdsa.cpp:752-878 | verify accepts exactly the strict DER encodings of such pairs |
| Ecdsa.NegatedAlsoVerifies | src/ecdsa.cpp:788-878 | r, s and r, n-s are both accepted or both refused for every key and hash |
| HandleTable.Table.Insert | src/sdn_identity.cpp:227-238 | fills the first free slot and returns its handle, or changes nothing |
| HandleTable.Table.Find | src/sdn_identity.cpp:240-251 | returns the record a current handle names |
| HandleTable.Table.Destroy | src/sdn_identity.cpp:1942-1962 | empties the slot and raises its generation, or retires it at the last one; a stale handle changes nothing |
| HandleTable.NeverReissued | src/sdn_identity.cpp:106-113 | in any run of inserts and destroys no handle value is issued twice |
| HandleTable.ResolvesExactlyLive | src/sdn_identity.cpp:240-251 | after any run a 64-bit value resolves exactly to the record inserted under it and not destroyed since |
| HandleTable.DestroyedForever | src/sdn_identity.cpp:1942-1962 | an issued handle that is no longer live never resolves again, whatever follows, also at generation 2^32-1 |
| HandleTable.OthersKept | src/sdn_identity.cpp:227-251 | inserting changes nothing about the other handles |
| HandleTable.RefusedWhenFull | src/sdn_identity.cpp:227-238 | after any run insertion is refused exactly when all sixteen slots are live or retired; live slots resolve, and only slots at the last generation are retired |
| HandleTable.NextHandle | src/sdn_identity.cpp:227-238 | a new record gets the first slot that is neither live nor retired, at its first generation not issued yet, and nothing else changes |
| HandleTable.RetiredIsExhausted | src/sdn_identity.cpp:1942-1962 | a slot is retired only after all its 2^32 - 1 handles were issued, and then none of them is live |
| Usernames.Canonicalize | src/password_profile.cpp:316-347 | the loops compute the canonical username or the same error |
| Usernames.CanonicalIff | src/password_profile.cpp:316-347 | a name is accepted exactly when it is at most 256 bytes of well-formed UTF-8 without control characters and 3 to 64 of them are left between the spaces around it; those with capitals in lower case are its canonical form |
| Usernames.Idempotent | src/password_profile.cpp:316-347 | a canonical username is its own canonical form and has 3 to 64 bytes |
| Usernames.CaseDoesNotMatter | src/password_profile.cpp:316-347 | on well-formed text, folding ASCII capitals beforehand changes neither the canonical username nor the error |
| IdentityTransfer.Clamped | src/sdn_identity.cpp:1591-1595 | clears the low three bits, sets bit 254 and clears bit 255, keeping every other bit of the key |
| IdentityTransfer.ParsedPlaintext | src/sdn_identity.cpp:1742-1772 | the header, username and seed of a sound record parse back to it |
| IdentityTransfer.ParsedIff | src/sdn_identity.cpp:1742-1772 | a plaintext parses exactly when it is that of a password identity with a canonical username, a 31-bit account and a 64-byte seed |
| IdentityTransfer.PlaintextFields | src/sdn_identity.cpp:1672-1690 | where version, kind, account, username size, username and seed lie in it |
| IdentityTransfer.Store.Begin | src/sdn_identity.cpp:1627-1645 | replaces any pending key and returns its public half |
| IdentityTransfer.Store.Seal | src/sdn_identity.cpp:1647-1706 | refuses stale handles and other kinds, and seals the record to the recipient |
| IdentityTransfer.SealIff | src/sdn_identity.cpp:1647-1706 | after any run sealing succeeds exactly for a handle that resolves to a password identity, with randomness, and a key the agreement takes; each other case has its error |
| IdentityTransfer.BoxIs | src/sdn_identity.cpp:1601-1704 | the box is the fresh public key and the plaintext sealed under the key drawn from the agreement, bound to both public keys and the profile |
| IdentityTransfer.Store.Open | src/sdn_identity.cpp:1708-1778 | consumes the pending key first, then opens, checks and stores the record, with the same errors |
| IdentityTransfer.OpenIff | src/sdn_identity.cpp:1708-1778 | after any run opening succeeds exactly with a key pending, for a box of 121 to 376 bytes holding the plaintext of a password identity whose keys exist, and a free slot; it stores that identity and changes no other handle; each other case has its error, and all of them consume the key |
| IdentityTransfer.Store.DerivePassword | src/sdn_identity.cpp:924-950 | stores a derivable record under its canonical username |
| IdentityTransfer.DeriveIff | src/sdn_identity.cpp:924-950 | after any run deriving succeeds exactly for account 0 or 1, a username with a canonical form, a 64-byte hash whose keys exist and a free slot; the record stored and the error of each other case |
| IdentityTransfer.LegacyIff | src/sdn_identity.cpp:885-985 | the same for the legacy kinds, whose usernames are kept as given and whose text checks and hash are one outcome |
| IdentityTransfer.RunsKeep | src/sdn_identity.cpp:267-298 | in any run every live record is derivable and every password identity has a canonical username |
| IdentityTransfer.SealedIsDelivered | src/sdn_identity.cpp:1647-1778 | a live password identity, randomness and an agreeing key are all it takes: the seal succeeds, and opening its box stores the record of the sender, username, account and seed, under a live handle, or the table is full |
| IdentityTransfer.TransferCompletes | src/sdn_identity.cpp:1591-1778 | the same over whole runs: begin, any operations that neither open nor begin, seal on any reachable sender, open; that sealing succeeds is concluded |
| IdentityTransfer.TransferHappens | src/sdn_identity.cpp:1591-1778 | such runs exist: lawful primitives, a live identity and keys with which it is transferred |
| IdentityTransfer.OpenServed | src/sdn_identity.cpp:1715-1721 | after any run an open gets past the missing-key refusal exactly when a begin serves it, and uses the key of that begin |
| IdentityTransfer.OneOpenEach | src/sdn_identity.cpp:1715-1721 | no begin serves two opens, failed opens included |
| Bits.CutRow | src/bip39.cpp:183-191 | cutting the bits of a row of numbers gives the numbers back |
| Bits.RowCut | src/bip39.cpp:165-180 | a bit string cut into whole numbers of one width is the row of those numbers |
| MnemonicText.NormalizeMnemonic | src/bip39.cpp:120-142 | the loop writes the words in lower case joined by single spaces |
| MnemonicText.SplitMnemonic | src/bip39.cpp:97-107 | splits at white space |
| MnemonicText.JoinMnemonic | src/bip39.cpp:109-118 | joins with single spaces |
| MnemonicText.FieldsJoined | src/bip39.cpp:97-118 | splitting inverts joining for plain words |
| MnemonicMeaning.FieldsIff | src/bip39.cpp:97-107 | the words of a text are the runs of bytes between its white space, in lower case |
| MnemonicMeaning.JoinIs | src/bip39.cpp:109-118 | joined words are laid out with one space between any two |
| MnemonicText.NormalizeHeldBack | src/sdn_identity_secrets.cpp:618-633 | the second normalisation writes the same text, and refuses bytes beyond ASCII |
| Mnemonics.FindWord | src/bip39.cpp:42-68 | binary search in the sorted list finds the index of a word, or none |
| Mnemonics.LowerBoundIndex | src/sdn_identity_secrets.cpp:341-350 | so does the lower bound |
| Mnemonics.BytesToBits | src/bip39.cpp:151-162 | all the bits of the bytes, most significant first |
| Mnemonics.ReadNumber | src/bip39.cpp:183-191 | the bits from a position, as the top bits of a number of that width |
| Mnemonics.BitsToBytes | src/bip39.cpp:165-180 | the bytes of a bit string, the last one filled up |
| Mnemonics.EntropyToMnemonic | src/bip39.cpp:245-284 | returns the phrase of the entropy and checksum bits, or the length error |
| MnemonicMeaning.PhraseNumber | src/bip39.cpp:245-284 | n bytes of entropy give 3n/4 word indices, the digits in base 2048 of the entropy followed by the first n/4 bits of its digest |
| MnemonicMeaning.PhraseSizes | src/bip39.cpp:245-284 | a phrase is made of 16, 20, 24, 28 or 32 bytes and of nothing else |
| MnemonicMeaning.PhraseWords | src/bip39.cpp:245-284 | a phrase is the words at those indices, joined |
| Mnemonics.MnemonicToEntropy | src/bip39.cpp:286-333 | returns the entropy of a phrase, or the length, word or checksum error |
| MnemonicMeaning.DecodesIff | src/bip39.cpp:286-333 | a mnemonic decodes to some entropy exactly when its normalised text is the phrase of it |
| MnemonicMeaning.DecodeErrors | src/bip39.cpp:286-333 | a mnemonic is refused for its length exactly unless it has 12, 15, 18, 21 or 24 words, and then for a word exactly when one is not in the list |
| Mnemonics.EntropyOfPhrase | src/bip39.cpp:245-333 | mnemonicToEntropy inverts entropyToMnemonic for every entropy of a valid length |
| Mnemonics.PhraseOfEntropy | src/bip39.cpp:245-333 | entropyToMnemonic of an accepted mnemonic gives its normalised text |
| Mnemonics.FillEntropy | src/sdn_identity_secrets.cpp:373-378 | setting bits one at a time in a zeroed buffer gives the entropy bytes |
| Mnemonics.ValidateIndices | src/sdn_identity_secrets.cpp:366-389 | accepts word indices exactly when their number is valid and the checksum bits are those of the digest of the entropy |
| Mnemonics.ValidateNormalized | src/sdn_identity_secrets.cpp:352-390 | splitting at single spaces, accepts exactly the word lists the first implementation decodes |
| Mnemonics.ValidateLegacy | src/sdn_identity_secrets.cpp:612-636 | the separate validator accepts exactly the mnemonics of at most 1024 bytes that the first one accepts |
| AlignedStream.DeriveBatch | src/aligned_api.cpp:237-309 | writes the entries of consecutive indices, the shortcut for hardened derivation without a private key included, and leaves the rest of the results alone |
| AlignedStream.BatchEntries | src/aligned_api.cpp:237-309 | entry k of a batch has index start+k modulo 2^32 and reports what deriving that index gives |
| AlignedStream.StreamContext.Next | src/aligned_api.cpp:501-559 | writes the next entries up to the batch size, the capacity and the last index, and advances the stream by as many |
| AlignedStream.StreamEntries | src/aligned_api.cpp:501-559 | entry k of a stream reports what deriving index start+k gives, and there is one for each entry asked for up to the last index |
| AlignedStream.LastErrorIs | src/aligned_api.cpp:501-559 | the error remembered is that of the last entry that had one |
| AlignedStream.StreamIsBatch | src/aligned_api.cpp:501-559 | for any sequence of capacities the concatenated entries are those of one batch over the same range, cut at the last index |
| AlignedStream.StreamMeetsBatch | src/aligned_api.cpp:501-559 | a stream and a batch of as many entries give the same exactly when the range ends by index 2^32 - 1; past it only the batch wraps around |
| AlignedStream.StreamIndices | src/aligned_api.cpp:501-559 | entry k has index start+k, and none follows 2^32-1 |
| KeyCaches.KeyManager.DeriveKeyAtPath | src/key_manager.cpp:327-402 | returns the cached or freshly derived key and stores it, evicting some entry at capacity |
| KeyCaches.KeyManager.SetCacheSize | src/key_manager.cpp:276-288 | evicts down to the new maximum and no further |
| KeyCaches.KeyManager.WipeAll | src/key_manager.cpp:300-305 | clears the cache and refuses every later derivation |
| KeyCaches.RunsAreTransparent | src/key_manager.cpp:269-402 | in any run of derive, resize, clear and wipe, whatever was evicted, private key, public key, chain code, fingerprint and path equal a fresh derivation, and the cache never exceeds its current maximum |
| KeyCaches.RepeatedDerivation | src/key_manager.cpp:327-402 | a derivation that succeeded with the cache in use is repeated from it, with the metadata of the first one |
| KeyCaches.EvictsOnlyWhenFull | src/key_manager.cpp:327-402 | storing a key throws nothing out below the maximum, and one other entry at it |
| KeyCaches.WipedForever | src/key_manager.cpp:300-402 | after a wipe every derivation of the run fails |
| KeyCaches.WalletEntry.DeriveKey | src/keyring.cpp:558-588 | serves an unexpired entry, else erases it and derives afresh |
| KeyCaches.WalletEntry.ClearExpired | src/keyring.cpp:149-161 | erases exactly the expired entries |
| KeyCaches.KeyringIsTransparent | src/keyring.cpp:558-588 | in any run the keyring returns a fresh derivation; an answer from the cache was derived by an earlier operation, at most 300 seconds before when both clocks are positive |
| KeyCaches.ServedIff | src/keyring.cpp:558-588 | the keyring answers from its cache exactly when an earlier operation derived the path, nothing cleared the entry since, and it is at most 300 seconds old by clocks that work |
| Calendar.CountsDays | src/sdn_identity.cpp:384-392 | the closed form grows by one from each Gregorian day to the next, in every year, and is 0 on 1970-01-01 |
| Calendar.CountsMilliseconds | src/sdn_identity.cpp:394-426 | the count grows by one with every millisecond and is 0 at the start of 1970 |
| Calendar.DaysOrdered | src/sdn_identity.cpp:384-392 | dates are ordered as their day numbers are |
| Calendar.ParseDigits | src/sdn_identity.cpp:375-382 | the number in a field of digits, or -1 |
| Calendar.ParseTimestamp | src/sdn_identity.cpp:394-426 | milliseconds of a timestamp of the exact shape and of a date that exists, else none |
| Calendar.StampIff | src/sdn_identity.cpp:394-426 | a text is accepted as a time exactly when the time is of the calendar and the text is what printing it gives |
| Calendar.TimestampsOrdered | src/sdn_identity.cpp:394-426 | accepted timestamps are ordered as their text is, and equal only when the text is |
| Calendar.ValidLifetime | src/sdn_identity.cpp:428-435 | true exactly when both timestamps are accepted, expiry follows issue in text order and by at most the maximum |

## Left out

- Decimals.FormatScans: splitting the raw characters of `to_chars` at sign, point and exponent is not modelled; the parts are given. Rounding itself, the floating-point environment and the range of doubles are the library's.
- Utf8.DecodeStep: the three strict decoders are modelled over one decoding step, since their steps differ only in reporting noncharacters; their agreement is that of the loops around it.
- JsonLanguage.ParseIff: says which texts are accepted and as what; which error a refused text gets is the specification's, first problem first.
- Calendar.CountsDays: years are unbounded integers; the library's `int` arithmetic would overflow beyond some 5.8 million years, and its callers pass years of four digits.
- Utf8.Encode: `appendUtf8` is modelled by its result; the string it appends to is the caller's.
- Ecdsa.ScalarsVerify: the nonce is any function of key and hash with values in 1..n-1; the RFC 6979 loop and its termination depend on HMAC outputs.
- Ecdsa.SignedVerifies: the public key is the group element itself; parsing and decompressing points, and recovery identifiers, are not modelled.
- Public key recovery (`recover`, `recoverWithId`): rests on the default state of a foreign point object that is not visible here.
- ExtendedKeys.StepCommutes: point addition is a parameter with the group law; square roots and encodings of coordinates are the curve library's, and so is the build that replaces scalar addition by libsecp256k1, which differs only on invalid private keys.
- BitCodecs.ConvertBits: left shifts of negative accumulators are taken as two's complement, as compilers for the targets do.
- Bech32.Decode: the pair of an empty string and no data that reports a failure is a separate outcome.
- Base58.DecodeText: the two decoders are one method with a flag for the walk, since they differ in nothing else.
- TextCodecs.EncodeMasked: the base32 and base64url loops are one method over an alphabet, since they differ in nothing else; the copy that writes into a secret buffer is the same loop.
- KeyText.ParsedIsSerialized: the C wrappers that copy strings into caller buffers are not modelled.
- IdentityTransfer.Store.Seal: the public description returned with an imported identity, and the derived key hierarchy, are functions of the stored record and not modelled; password hashing is a parameter.
- IdentityTransfer.LegacyIff: the size and UTF-8 checks of legacy names and passwords enter through the outcome of the hash.
- HandleTable.Table.Insert: each locked section is one atomic step; mutexes are not modelled.
- KeyCaches.RunsAreTransparent: purpose, coin, account and index of a cached key are those of its first derivation, so the statement is about key material; path builders are not modelled.
- KeyCaches.WalletEntry.DeriveKey: the map of wallets and their identifiers, locking and labels are not modelled; one wallet entry is.
- AlignedStream.DeriveBatch: null pointers, and structure layout, are not modelled.
- Mnemonics.EntropyToMnemonic: languages other than English are refused by the library before anything modelled here.
- Errors by exception or exhausted memory, size guards near the largest `size_t`, secure wiping, locking of memory and constant-time behaviour: outside a functional model.
- Signature batches, Ed25519 keys, SLIP-10, remembered wallets, field opening, requests and their envelopes: further members built on the codecs modelled here.
- Keyring signing, unlocking, export and import: placeholders in the code.
- FIPS and testing builds, X.509, the WASI bridge and the user interface: not part of the model.
