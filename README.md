# Bitcoin address codec

A model of the address codec of bcoin, a Bitcoin node library. The behaviour modelled here is what
`test/address-test.js` pins down. An address is a hash together with its kind and its network.
The codec turns it into text in one of two ways:

- **Legacy addresses** (pay-to-pubkey-hash, pay-to-script-hash) use Base58Check. The text holds a
  version byte, the 20-byte hash and four check bytes, written in base 58. Each leading zero byte
  becomes a leading `1`.
- **Witness addresses** (pay-to-witness-pubkey-hash, pay-to-witness-script-hash) use bech32, as in
  BIP 173:
  - a human-readable part (`bc` on main, `tb` on testnet), the separator `1`, the witness version and
    the program regrouped into 5-bit words, then a six-character checksum;
  - the checksum is a BCH code, the "polymod" of BIP 173;
  - BIP 141 limits the program to 2–40 bytes, and to exactly 20 or 32 bytes for version 0.

Reading text back checks every rule BIP 173 and BIP 141 set:

- at most 90 characters, and no mixed case;
- a final checksum constant of 1;
- a witness version of at most 16;
- at most four padding bits, all of them zero;
- the program length.

The model is pure: every operation is a function, and every property is a lemma.

Modules, one per file:

| module | what it holds |
|---|---|
| `Wrappers` | `Option` and `Result` |
| `Radix` | big-endian numerals in any base |
| `BitGroups` | regrouping between bit widths (BIP 173's `convertbits`) |
| `Bech32` | the checksum and the bech32 text format |
| `Segwit` | witness version and program on top of bech32 |
| `Base58`, `Base58Check` | legacy text |
| `Networks` | per-network constants |
| `Address` | the façade: constructors, `ToString`, `FromString` |
| `Evaluation`, `WitnessVectors`, `LegacyVectors`, `Rejections` | work out the test vectors over written-out values |

Double SHA-256 is a parameter (`Base58Check.Hasher`), so the legacy vectors hold for any hash
function that yields the vector's four check bytes. The witness vectors need no hash and hold
outright.

## Model

| member | source | states |
|---|---|---|
| Networks.Lookup | test/address-test.js:30-36 | The network names picked are exactly "main" and "testnet", and each names its own network. |
| Networks.Hrp | test/address-test.js:83-130 | The human-readable part of each network ("bc" for main, "tb" for testnet); pinned by Networks.FromHrp and Networks.FromHrpHrp, which read it back. |
| Networks.FromHrpHrp | test/address-test.js:83-130 | Each network's human-readable part reads back as that network, is a valid bech32 hrp, and has two characters. |
| Networks.FromHrp | test/address-test.js:132-135 | Only "bc" and "tb" name a network; each one is the human-readable part of the network it names. |
| Networks.FromPrefix | test/address-test.js:14-81 | Only 0x00, 0x05, 0x6f and 0xc4 are legacy version bytes; each is the prefix of the network and kind it names. |
| Networks.Prefix | test/address-test.js:14-81 | The legacy version byte of each network and kind; pinned by Networks.FromPrefixPrefix, which reads it back, and Networks.Distinct. |
| Networks.FromPrefixPrefix | test/address-test.js:14-81 | Each network and kind's version byte reads back as that network and kind. |
| Networks.Distinct | test/address-test.js:14-130 | No two networks share a human-readable part, and no two network-kind pairs share a version byte. |
| Address.FromPubkeyhash | test/address-test.js:14-48 | Succeeds exactly for a 20-byte hash and a known network. Any other hash length, including the empty hash and the 21-byte one, fails with InvalidHashLength. |
| Address.FromScripthash | test/address-test.js:59-81 | Succeeds exactly for a 20-byte hash and a known network, giving a valid script-hash address; other lengths fail. |
| Address.FromWitnessPubkeyhash | test/address-test.js:83-89 | Succeeds exactly for a 20-byte hash and a known network, giving a version-0 witness address; other lengths fail. |
| Address.FromWitnessScripthash | test/address-test.js:91-100 | Succeeds exactly for a 32-byte hash and a known network, giving a version-0 witness address; other lengths fail. |
| Address.FromString | test/address-test.js:132-178 | Fails exactly when the text reads neither as a witness address nor as a legacy one; whatever it reads is a valid address. |
| Address.FromWitnessString | test/address-test.js:132-178 | Whatever it reads is a valid witness address of a known network. |
| Address.FromLegacyString | test/address-test.js:14-81 | Whatever it reads is a valid legacy address. |
| Address.ToString | test/address-test.js:14-130 | The text of an address (each test's `toString()`); pinned by Address.FromStringToString, which reads it back, and by the vector lemmas, which fix it for each tested hash. |
| Address.FromStringToString | test/address-test.js:14-130 | Every valid address reads back from its own text as the same address. |
| Address.ToStringFromString | test/address-test.js:132-178 | Text that reads as an address is that address's text: the same string for legacy, its lower-case form for witness. |
| Address.WitnessRoundTrip | test/address-test.js:83-130 | A witness address's text reads back as that witness address. |
| Address.LegacyRoundTrip | test/address-test.js:14-81 | A legacy address's text reads back as that legacy address. |
| Address.LegacyNotWitness | test/address-test.js:14-81 | A legacy address's text never reads as a witness address: its first character starts no known human-readable part. |
| Address.WitnessCanonical | test/address-test.js:163-167 | Text read as a witness address is the lower-case form of that address's text. |
| Address.LegacyCanonical | test/address-test.js:14-81 | Text read as a legacy address is exactly that address's text. |
| Address.WitnessLength | test/address-test.js:147-156 | Text read as a witness address has ten characters more than its program has 5-bit words. |
| Address.WitnessHasWords | test/address-test.js:147-150 | A program read from text has at least one word. |
| Address.WitnessHrp | test/address-test.js:132-135 | Text read as a witness address starts, in either case, with its network's human-readable part. |
| Address.WitnessVersion | test/address-test.js:142-145 | The character after the separator stands for the witness version. |
| Address.WitnessWord | test/address-test.js:174-178 | Each data character before the checksum stands for the matching word of the regrouped program. |
| Address.WitnessLastWord | test/address-test.js:174-178 | The character just before the checksum stands for the program's last word. |
| Address.WitnessPadding | test/address-test.js:174-178 | That last data character's value is a multiple of 2^(padding bits): the padding is zero. |
| Address.WitnessCase | test/address-test.js:163-167 | Text read as a witness address is not in mixed case. |
| Address.LegacyBadCharacter | test/address-test.js:132-178 | A character outside the base-58 alphabet rules out a legacy address. |
| Address.LegacyTooShort | test/address-test.js:147-150 | Text of fewer than 25 characters is no legacy address: its bytes cannot hold version, hash and checksum. |
| Base58.DecodeEncode | test/address-test.js:14-81 | Decoding the base-58 text of any byte string gives back those bytes, leading zero bytes included. |
| Base58.Encode | test/address-test.js:14-81 | Base-58 text of a byte string; pinned by Base58.DecodeEncode and Base58.EncodeDecode, which make it the inverse of Base58.Decode, and by Base58.EncodeLeadingOnes. |
| Base58.EncodeDecode | test/address-test.js:14-81 | Text that decodes is exactly the text written for its bytes. Base-58 text has a single spelling. |
| Base58.EncodeLeadingOnes | test/address-test.js:14-28 | The text has as many leading '1's as the bytes have leading zero bytes, and uses only the alphabet. |
| Base58.Decode | test/address-test.js:132-178 | Decoding succeeds exactly when every character is in the alphabet, and otherwise names the position of one that is not. |
| Base58.DecodeLength | test/address-test.js:147-150 | The decoded bytes are no more than the characters. |
| Base58Check.DecodeEncode | test/address-test.js:14-81 | Decoding legacy text gives back its version byte and payload. |
| Base58Check.Encode | test/address-test.js:14-81 | Legacy text of a version byte and payload with four check bytes appended; pinned by Base58Check.DecodeEncode and Base58Check.EncodeDecode. |
| Base58Check.Decode | test/address-test.js:132-178 | Fails with InvalidCharacter exactly when the base-58 text does not decode; on success the bytes are the payload plus five. |
| Base58Check.EncodeDecode | test/address-test.js:14-81 | Text that decodes is the text written for its version byte and payload. |
| Base58Check.DecodeChecked | test/address-test.js:14-81 | Decoded text carries the check bytes of its version byte and payload. |
| Base58Check.FirstCharacter | test/address-test.js:14-81 | A 20-byte payload's text starts with '1' for 0x00, '3' for 0x05, 'm' or 'n' for 0x6f and '2' for 0xc4. |
| BitGroups.ConvertPadded | test/address-test.js:83-130 | A padded regrouping always succeeds. It writes the input's bits followed by just enough zero bits, so the word count and number value follow. |
| BitGroups.ConvertBits | test/address-test.js:83-178 | An InvalidWord error names an input word that is too wide; the padded and unpadded results are given by BitGroups.ConvertPadded and BitGroups.ConvertUnpadded. |
| BitGroups.ConvertUnpadded | test/address-test.js:158-178 | An unpadded regrouping fails with ExcessPadding exactly when `from` or more bits are left over. It fails with NonZeroPadding exactly when fewer are left but they are not zero. Otherwise it writes the bits without them. |
| BitGroups.BytesWordsBytes | test/address-test.js:83-130 | Spreading bytes over 5-bit words and gathering them back gives the bytes. |
| BitGroups.WordsBytesWords | test/address-test.js:83-130 | Words that gather into bytes are the words those bytes spread into. |
| Bech32.ChecksumValid | test/address-test.js:83-130 | Data followed by its created checksum verifies, i.e. its polymod is 1. |
| Bech32.Polymod | test/address-test.js:137-140 | BIP 173's polymod; pinned by Bech32.ChecksumValid, Bech32.ChecksumUnique and Bech32.SubstitutionDetected. |
| Bech32.VerifyChecksum | test/address-test.js:137-140 | The checksum rule: the polymod of the expanded hrp and all data words is 1; Bech32.ChecksumValid and Bech32.ChecksumUnique say exactly which suffix meets it. |
| Bech32.CreateChecksum | test/address-test.js:83-130 | Six words; by Bech32.ChecksumValid they make the data verify, and by Bech32.ChecksumUnique no other six words do. |
| Bech32.ChecksumUnique | test/address-test.js:137-140 | Only one six-word suffix makes given data verify. |
| Bech32.Decode | test/address-test.js:163-167 | Text of bad length fails with InvalidLength. Text in range but in mixed case fails with MixedCase. |
| Bech32.DecodeEncode | test/address-test.js:83-130 | Encoded text decodes to the human-readable part and data it was written from. |
| Bech32.Encode | test/address-test.js:83-130 | Text of hrp, separator, data and checksum, seven characters longer than hrp and data; pinned by Bech32.DecodeEncode and Bech32.EncodeDecode. |
| Bech32.EncodeDecode | test/address-test.js:132-178 | Text that decodes is the lower-case form of the encoding of what it decodes to. |
| Bech32.ChecksumDetects | test/address-test.js:137-140 | Lower-case text that matches an encoding except in its six checksum characters, but is not that encoding, is rejected. |
| Bech32.SubstitutionDetected | test/address-test.js:137-140 | Lower-case text that differs from an encoding in exactly one character after the separator, the new character not being a separator, is rejected. |
| Segwit.Decode | test/address-test.js:142-161 | Whatever decodes is a valid witness program: version at most 16, 2–40 bytes, and 20 or 32 bytes for version 0. |
| Segwit.DecodeEncode | test/address-test.js:83-130 | An encoded witness program decodes to its hrp, version and program. |
| Segwit.ToWords | test/address-test.js:83-130 | A program of n bytes gives (8n + 4) / 5 words; their value is the program shifted past its padding bits (Evaluation.WordsValue), and BitGroups.BytesWordsBytes reads them back. |
| Segwit.Encode | test/address-test.js:83-130 | A witness address of hrp, version and program; pinned by Segwit.DecodeEncode and Segwit.EncodeDecode. |
| Segwit.EncodeDecode | test/address-test.js:132-178 | A decoded witness address is the lower-case encoding of what it decodes to, and fits 90 characters. |
| Segwit.EncodeShape | test/address-test.js:83-130 | Where the hrp, the version character and each program word's character sit in an encoded address. |
| Segwit.LastWordPadding | test/address-test.js:174-178 | The low padding bits of a regrouped program's last word are zero. |
| Segwit.ChecksumDetects | test/address-test.js:137-140 | A witness address changed only in its checksum characters does not decode. |
| Segwit.SubstitutionDetected | test/address-test.js:137-140 | A witness address with one character after its separator replaced by another non-separator character does not decode. |
| LegacyVectors.MainnetP2pkh | test/address-test.js:14-20 | fromPubkeyhash accepts the hash e34c…0e84, and its text is 1MirQ9bwyQcGVJPwKUgapu5ouK2E2Ey4gX. |
| LegacyVectors.MainnetP2pkh2 | test/address-test.js:22-28 | The hash 0ef0…adaa, whose text is 12MzCDwodF9G1e7jfwLXfR164RNtx4BRVG. |
| LegacyVectors.TestnetP2pkh | test/address-test.js:30-36 | The testnet hash 78b3…e68f, whose text is mrX9vMRYLfVy1BnZbc5gZjuyaqH3ZW2ZHz. |
| LegacyVectors.MainnetP2sh | test/address-test.js:59-65 | fromScripthash accepts f815…5510, and its text is 3QJmV3qfvL9SuYo34YihAf3sRCW3qSinyC. |
| LegacyVectors.MainnetP2sh2 | test/address-test.js:67-73 | The script hash e8c3…b5b4, whose text is 3NukJ6fYZJ5Kk8bPjycAnruZkE5Q7UW7i8. |
| LegacyVectors.TestnetP2sh | test/address-test.js:75-81 | The testnet script hash c579…4a0a, whose text is 2NBFNJTktNa7GZusGbDbGKRZTxdK9VVez3n. |
| WitnessVectors.MainnetP2wpkh | test/address-test.js:83-89 | fromWitnessPubkeyhash accepts 751e…3bd6, and its text is bc1qw508d6qejxtdg4y5r3zarvary0c5xw7kv8f3t4. |
| WitnessVectors.MainnetP2wsh | test/address-test.js:91-100 | fromWitnessScripthash accepts 1863…3262, and its text is bc1qrp33g0q5c5txsp9arysrx4k6zdkfs4nce4xj0gdcccefvpysxf3qccfmv3. |
| WitnessVectors.TestnetP2wpkh | test/address-test.js:102-108 | The same key hash on testnet is tb1qw508d6qejxtdg4y5r3zarvary0c5xw7kxpjzsx. |
| WitnessVectors.TestnetP2wsh | test/address-test.js:110-119 | The same script hash on testnet is tb1qrp33g0q5c5txsp9arysrx4k6zdkfs4nce4xj0gdcccefvpysxf3q0sl5k7. |
| WitnessVectors.TestnetP2wshZeros | test/address-test.js:121-130 | The script hash 0000…6433 on testnet is tb1qqqqqp399et2xygdj5xreqhjjvcmzhxw4aywxecjdzew6hylgvsesrxh6hy. |
| Rejections.UnknownHrp | test/address-test.js:132-135 | fromString rejects tc1qw508…g3g4ty, whatever the hash function: "tc" names no network. |
| Rejections.BadChecksum | test/address-test.js:137-140 | fromString rejects the main witness key-hash address with its last character changed. |
| Rejections.BadVersion | test/address-test.js:142-145 | fromString rejects BC13W508…N40WF2: its version character '3' stands for 17. |
| Rejections.ProgramTooShort | test/address-test.js:147-150 | fromString rejects bc1rw5uspcuh: its program has one byte. |
| Rejections.ProgramTooLong | test/address-test.js:152-156 | fromString rejects the 76-character bc10w508… string: its 66 data words make a 41-byte program. |
| Rejections.ExcessPadding | test/address-test.js:158-161 | fromString rejects tb1pw508d6qejxtdg4y5r3zarqfsj6c3: its 22 data words leave five or more padding bits. The same string is the vector at lines 169-172. |
| Rejections.MixedCase | test/address-test.js:163-167 | fromString rejects the testnet script-hash address with one letter upper-cased. |
| Rejections.NonZeroPadding | test/address-test.js:174-178 | fromString rejects tb1qrp33…f3pjxtptv: its last data character 'p' leaves a padding bit set. |

## Left out

- lib/primitives/address.js, the implementation behind the tests, is not part of this model's
  sources. The codec follows BIP 173, BIP 141 and Base58Check in the form the tests pin down.
- Double SHA-256 is not computed; `Base58Check.Hasher` is a parameter. A function without a body
  is not available, and the hash is far too costly to evaluate in proofs.
- LegacyVectors.MainnetP2pkh: has the vector's four check bytes as a precondition. It holds for every
  hash function that yields them, not for double SHA-256 in particular.
- LegacyVectors.MainnetP2pkh2: has the vector's four check bytes as a precondition. It holds for every
  hash function that yields them, not for double SHA-256 in particular.
- LegacyVectors.TestnetP2pkh: has the vector's four check bytes as a precondition. It holds for every
  hash function that yields them, not for double SHA-256 in particular.
- LegacyVectors.MainnetP2sh: has the vector's four check bytes as a precondition. It holds for every
  hash function that yields them, not for double SHA-256 in particular.
- LegacyVectors.MainnetP2sh2: has the vector's four check bytes as a precondition. It holds for every
  hash function that yields them, not for double SHA-256 in particular.
- LegacyVectors.TestnetP2sh: has the vector's four check bytes as a precondition. It holds for every
  hash function that yields them, not for double SHA-256 in particular.
- The test at lines 50-57 derives its hash with `Script.fromRaw(...).hash160()` from a
  transaction fixture loaded with `common.readTX` (lines 7-11). The script interpreter, hash160
  and the fixture are outside the codec. That test's expected text equals the one at lines 59-65,
  which LegacyVectors.MainnetP2sh covers.
- The mocha test runner and `assert.throws` are not modelled. A thrown error is an `Err` result here.
- Bech32m (BIP 350) is not modelled. Every witness version uses the bech32 checksum constant 1,
  as BIP 173 does.
- Only main and testnet are modelled. Further networks, such as regtest, are left out: regtest
  shares testnet's legacy version bytes, so a legacy string could not name one network.
- Address.FromString reads the text as a witness address first, and as a legacy address only if
  that fails. bcoin's `fromString` does the same. The other order, Base58Check first, is not
  modelled. The two orders differ only on text that is valid bech32 and also passes a
  Base58Check checksum. With the hash as a parameter, that case cannot be excluded, and reading
  it as legacy would break the witness round trip.
- `fromString` in the tests takes no network argument; Address.FromString accepts every known
  network.
- `Segwit.Encode` requires that the address fit in 90 characters. Address.ToString always
  satisfies this (lemma `Address.Fits`), so no address is refused here.
- Witness addresses are one kind, `Witness(version)`. The key-hash and script-hash flavours of
  version 0 differ only in program length (20 or 32 bytes). Their constructors,
  Address.FromWitnessPubkeyhash and Address.FromWitnessScripthash, fix that length.
- Error values name the failing rule, but the lemmas about rejections promise only failure
  (`Err?`), as the tests do. They do not promise which error.
- Bech32.SubstitutionDetected: covers one character changed after the separator, to any
  character but the separator. Two cases are not covered. A changed character of the
  human-readable part changes two expanded words, and this model does not prove BIP 173's
  distance bound. A separator written into the data part moves the split, and no bound covers that.
- Base58Check's four check bytes catch a changed character only with high probability. With the
  hash as a parameter there is nothing to prove about it, so no lemma states it.
