/**
 * The legacy (Base58Check) address vectors. The four check bytes are the first bytes of the double
 * SHA-256 digest of the version byte and the hash; the digest is not computed in this model, so each
 * vector holds for any hash function that yields those four bytes for that body. The value of the
 * bytes and the value of the expected text's base-58 digits are worked out a few positions at a
 * time and shown to be the same number.
 *
 * The numbered lemmas are the stretches of one chain per vector, each taking up the number the
 * one before it ends with:
 *   - `…Value0`, `…Value1`, … give the value of the first 8, 16, … bytes of the hash, and
 *     `…HashValue` the whole; `…Bytes` (with `…BytesOf`, and `…Body` where the version byte is
 *     not zero) give the value of the checked body followed by its four check bytes.
 *   - `…DigitsAt{k}` read four base-58 digits off the expected text, `…Digits{k}` give the value
 *     of its first 8, 16, … digits, and `…Text` collects them into the text's value.
 *   - `…Join` puts the leading '1's in front, `…Encode` equates the two values, so that the text
 *     is the encoding of the bytes, and the lemma named after the vector states the address's text.
 */
module LegacyVectors {
  import opened Wrappers
  import opened Radix
  import opened Evaluation
  import Base58
  import Base58Check
  import Networks
  import Address

  /** The place values of a four-byte checksum and of a twenty-byte hash. */
  lemma PlaceValues()
    ensures Pow(256, 4) == 4294967296
    ensures Pow(256, 20) == 1461501637330902918203684832716283019655932542976
  {
    PowAdd(256, 4, 4);
    PowAdd(256, 8, 8);
    PowAdd(256, 16, 4);
  }

  /** The key hash e34cce70c86373273efcc54ce7d2a491bb4a0e84. */
  predicate MainnetP2pkhHash(p: seq<byte>) {
    |p| == 20 && p[0] == 0xe3 && p[1] == 0x4c && p[2] == 0xce && p[3] == 0x70 && p[4] == 0xc8 &&
    p[5] == 0x63 && p[6] == 0x73 && p[7] == 0x27 && p[8] == 0x3e && p[9] == 0xfc &&
    p[10] == 0xc5 && p[11] == 0x4c && p[12] == 0xe7 && p[13] == 0xd2 && p[14] == 0xa4 &&
    p[15] == 0x91 && p[16] == 0xbb && p[17] == 0x4a && p[18] == 0x0e && p[19] == 0x84
  }

  lemma MainnetP2pkhValue0(p: seq<byte>)
    requires MainnetP2pkhHash(p) && FromDigits(p[..0], 256) == 0
    ensures FromDigits(p[..8], 256) == 16378692928633271079
  {
    ValueNext(p, 256, 0, 0, 227, 227);
    ValueNext(p, 256, 1, 227, 76, 58188);
    ValueNext(p, 256, 2, 58188, 206, 14896334);
    ValueNext(p, 256, 3, 14896334, 112, 3813461616);
    ValueNext(p, 256, 4, 3813461616, 200, 976246173896);
    ValueNext(p, 256, 5, 976246173896, 99, 249919020517475);
    ValueNext(p, 256, 6, 249919020517475, 115, 63979269252473715);
    ValueNext(p, 256, 7, 63979269252473715, 39, 16378692928633271079);
  }

  lemma MainnetP2pkhValue1(p: seq<byte>)
    requires MainnetP2pkhHash(p) && FromDigits(p[..8], 256) == 16378692928633271079
    ensures FromDigits(p[..16], 256) == 302133556716374333307163794391050658961
  {
    ValueNext(p, 256, 8, 16378692928633271079, 62, 4192945389730117396286);
    ValueNext(p, 256, 9, 4192945389730117396286, 252, 1073394019770910053449468);
    ValueNext(p, 256, 10, 1073394019770910053449468, 197, 274788869061352973683064005);
    ValueNext(p, 256, 11, 274788869061352973683064005, 76, 70345950479706361262864385356);
    ValueNext(p, 256, 12, 70345950479706361262864385356, 231, 18008563322804828483293282651367);
    ValueNext(p, 256, 13, 18008563322804828483293282651367, 210, 4610192210638036091723080358750162);
    ValueNext(p, 256, 14, 4610192210638036091723080358750162, 164, 1180209205923337239481108571840041636);
    ValueNext(p, 256, 15, 1180209205923337239481108571840041636, 145, 302133556716374333307163794391050658961);
  }

  lemma MainnetP2pkhValue2(p: seq<byte>)
    requires MainnetP2pkhHash(p) && FromDigits(p[..16], 256) == 302133556716374333307163794391050658961
    ensures FromDigits(p[..20], 256) == 1297653745120988909248072019424830815319886532228
  {
    ValueNext(p, 256, 16, 302133556716374333307163794391050658961, 187, 77346190519391829326633931364108968694203);
    ValueNext(p, 256, 17, 77346190519391829326633931364108968694203, 74, 19800624772964308307618286429211895985716042);
    ValueNext(p, 256, 18, 19800624772964308307618286429211895985716042, 14, 5068959941878862926750281325878245372343306766);
    ValueNext(p, 256, 19, 5068959941878862926750281325878245372343306766, 132, 1297653745120988909248072019424830815319886532228);
  }

  /** The hash read as a big-endian number. */
  lemma MainnetP2pkhHashValue(p: seq<byte>)
    requires MainnetP2pkhHash(p)
    ensures |p| == 20 && FromDigits(p, 256) == 1297653745120988909248072019424830815319886532228
  {
    ValueStart(p, 256);
    MainnetP2pkhValue0(p);
    MainnetP2pkhValue1(p);
    MainnetP2pkhValue2(p);
    ValueAll(p, 256);
  }

  /** The value of the bytes after the leading zero bytes. */
  lemma MainnetP2pkhBytes(p: seq<byte>, c: seq<byte>)
    requires MainnetP2pkhHash(p) && c == [0x7b, 0x22, 0x16, 0x50]
    ensures FromDigits(p + c, 256) == 5573380396826566928399181274482325082131928434352175846992
  {
    MainnetP2pkhHashValue(p);
    MainnetP2pkhBytesOf(p, c);
  }

  lemma MainnetP2pkhBytesOf(p: seq<byte>, c: seq<byte>)
    requires |p| == 20 && FromDigits(p, 256) == 1297653745120988909248072019424830815319886532228 && c == [0x7b, 0x22, 0x16, 0x50]
    ensures FromDigits(p + c, 256) == 5573380396826566928399181274482325082131928434352175846992
  {
    ValueStart(c, 256);
    ValueNext(c, 256, 0, 0, 123, 123);
    ValueNext(c, 256, 1, 123, 34, 31522);
    ValueNext(c, 256, 2, 31522, 22, 8069654);
    ValueNext(c, 256, 3, 8069654, 80, 2065831504);
    ValueAll(c, 256);
    FromDigitsAppend(p, c, 256);
    PlaceValues();
  }

  lemma MainnetP2pkhDigitsAt0(t: string)
    requires t == "MirQ9bwyQcGVJPwKUgapu5ouK2E2Ey4gX" && forall i | 0 <= i < |t| :: Base58.DigitValue(t[i]).Some?
    ensures Base58.Values(t)[0] == 20 && Base58.Values(t)[1] == 41 && Base58.Values(t)[2] == 49 &&
        Base58.Values(t)[3] == 23
  {
    assert t[0] == 'M' && t[1] == 'i' && t[2] == 'r' && t[3] == 'Q';
  }

  lemma MainnetP2pkhDigitsAt1(t: string)
    requires t == "MirQ9bwyQcGVJPwKUgapu5ouK2E2Ey4gX" && forall i | 0 <= i < |t| :: Base58.DigitValue(t[i]).Some?
    ensures Base58.Values(t)[4] == 8 && Base58.Values(t)[5] == 34 && Base58.Values(t)[6] == 54 &&
        Base58.Values(t)[7] == 56
  {
    assert t[4] == '9' && t[5] == 'b' && t[6] == 'w' && t[7] == 'y';
  }

  lemma MainnetP2pkhDigitsAt2(t: string)
    requires t == "MirQ9bwyQcGVJPwKUgapu5ouK2E2Ey4gX" && forall i | 0 <= i < |t| :: Base58.DigitValue(t[i]).Some?
    ensures Base58.Values(t)[8] == 23 && Base58.Values(t)[9] == 35 && Base58.Values(t)[10] == 15 &&
        Base58.Values(t)[11] == 28
  {
    assert t[8] == 'Q' && t[9] == 'c' && t[10] == 'G' && t[11] == 'V';
  }

  lemma MainnetP2pkhDigitsAt3(t: string)
    requires t == "MirQ9bwyQcGVJPwKUgapu5ouK2E2Ey4gX" && forall i | 0 <= i < |t| :: Base58.DigitValue(t[i]).Some?
    ensures Base58.Values(t)[12] == 17 && Base58.Values(t)[13] == 22 &&
        Base58.Values(t)[14] == 54 && Base58.Values(t)[15] == 18
  {
    assert t[12] == 'J' && t[13] == 'P' && t[14] == 'w' && t[15] == 'K';
  }

  lemma MainnetP2pkhDigitsAt4(t: string)
    requires t == "MirQ9bwyQcGVJPwKUgapu5ouK2E2Ey4gX" && forall i | 0 <= i < |t| :: Base58.DigitValue(t[i]).Some?
    ensures Base58.Values(t)[16] == 27 && Base58.Values(t)[17] == 39 &&
        Base58.Values(t)[18] == 33 && Base58.Values(t)[19] == 47
  {
    assert t[16] == 'U' && t[17] == 'g' && t[18] == 'a' && t[19] == 'p';
  }

  lemma MainnetP2pkhDigitsAt5(t: string)
    requires t == "MirQ9bwyQcGVJPwKUgapu5ouK2E2Ey4gX" && forall i | 0 <= i < |t| :: Base58.DigitValue(t[i]).Some?
    ensures Base58.Values(t)[20] == 52 && Base58.Values(t)[21] == 4 &&
        Base58.Values(t)[22] == 46 && Base58.Values(t)[23] == 52
  {
    assert t[20] == 'u' && t[21] == '5' && t[22] == 'o' && t[23] == 'u';
  }

  lemma MainnetP2pkhDigitsAt6(t: string)
    requires t == "MirQ9bwyQcGVJPwKUgapu5ouK2E2Ey4gX" && forall i | 0 <= i < |t| :: Base58.DigitValue(t[i]).Some?
    ensures Base58.Values(t)[24] == 18 && Base58.Values(t)[25] == 1 &&
        Base58.Values(t)[26] == 13 && Base58.Values(t)[27] == 1
  {
    assert t[24] == 'K' && t[25] == '2' && t[26] == 'E' && t[27] == '2';
  }

  lemma MainnetP2pkhDigitsAt7(t: string)
    requires t == "MirQ9bwyQcGVJPwKUgapu5ouK2E2Ey4gX" && forall i | 0 <= i < |t| :: Base58.DigitValue(t[i]).Some?
    ensures Base58.Values(t)[28] == 13 && Base58.Values(t)[29] == 56 &&
        Base58.Values(t)[30] == 3 && Base58.Values(t)[31] == 39
  {
    assert t[28] == 'E' && t[29] == 'y' && t[30] == '4' && t[31] == 'g';
  }

  lemma MainnetP2pkhDigitsAt8(t: string)
    requires t == "MirQ9bwyQcGVJPwKUgapu5ouK2E2Ey4gX" && forall i | 0 <= i < |t| :: Base58.DigitValue(t[i]).Some?
    ensures Base58.Values(t)[32] == 30
  {
    assert t[32] == 'X';
  }

  lemma MainnetP2pkhDigits0(ds: seq<nat>)
    requires |ds| == 33 && ds[0] == 20 && ds[1] == 41 && ds[2] == 49 && ds[3] == 23 &&
        ds[4] == 8 && ds[5] == 34 && ds[6] == 54 && ds[7] == 56
    requires FromDigits(ds[..0], 58) == 0
    ensures FromDigits(ds[..8], 58) == 45752923184844
  {
    ValueNext(ds, 58, 0, 0, 20, 20);
    ValueNext(ds, 58, 1, 20, 41, 1201);
    ValueNext(ds, 58, 2, 1201, 49, 69707);
    ValueNext(ds, 58, 3, 69707, 23, 4043029);
    ValueNext(ds, 58, 4, 4043029, 8, 234495690);
    ValueNext(ds, 58, 5, 234495690, 34, 13600750054);
    ValueNext(ds, 58, 6, 13600750054, 54, 788843503186);
    ValueNext(ds, 58, 7, 788843503186, 56, 45752923184844);
  }

  lemma MainnetP2pkhDigits1(ds: seq<nat>)
    requires |ds| == 33 && ds[8] == 23 && ds[9] == 35 && ds[10] == 15 && ds[11] == 28 &&
        ds[12] == 17 && ds[13] == 22 && ds[14] == 54 && ds[15] == 18
    requires FromDigits(ds[..8], 58) == 45752923184844
    ensures FromDigits(ds[..16], 58) == 5859260340658838164058649710
  {
    ValueNext(ds, 58, 8, 45752923184844, 23, 2653669544720975);
    ValueNext(ds, 58, 9, 2653669544720975, 35, 153912833593816585);
    ValueNext(ds, 58, 10, 153912833593816585, 15, 8926944348441361945);
    ValueNext(ds, 58, 11, 8926944348441361945, 28, 517762772209598992838);
    ValueNext(ds, 58, 12, 517762772209598992838, 17, 30030240788156741584621);
    ValueNext(ds, 58, 13, 30030240788156741584621, 22, 1741753965713091011908040);
    ValueNext(ds, 58, 14, 1741753965713091011908040, 54, 101021730011359278690666374);
    ValueNext(ds, 58, 15, 101021730011359278690666374, 18, 5859260340658838164058649710);
  }

  lemma MainnetP2pkhDigits2(ds: seq<nat>)
    requires |ds| == 33 && ds[16] == 27 && ds[17] == 39 && ds[18] == 33 && ds[19] == 47 &&
        ds[20] == 52 && ds[21] == 4 && ds[22] == 46 && ds[23] == 52
    requires FromDigits(ds[..16], 58) == 5859260340658838164058649710
    ensures FromDigits(ds[..24], 58) == 750354935812923057928230489828214393519136
  {
    ValueNext(ds, 58, 16, 5859260340658838164058649710, 27, 339837099758212613515401683207);
    ValueNext(ds, 58, 17, 339837099758212613515401683207, 39, 19710551785976331583893297626045);
    ValueNext(ds, 58, 18, 19710551785976331583893297626045, 33, 1143212003586627231865811262310643);
    ValueNext(ds, 58, 19, 1143212003586627231865811262310643, 47, 66306296208024379448217053214017341);
    ValueNext(ds, 58, 20, 66306296208024379448217053214017341, 52, 3845765180065414007996589086413005830);
    ValueNext(ds, 58, 21, 3845765180065414007996589086413005830, 4, 223054380443794012463802167011954338144);
    ValueNext(ds, 58, 22, 223054380443794012463802167011954338144, 46, 12937154065740052722900525686693351612398);
    ValueNext(ds, 58, 23, 12937154065740052722900525686693351612398, 52, 750354935812923057928230489828214393519136);
  }

  lemma MainnetP2pkhDigits3(ds: seq<nat>)
    requires |ds| == 33 && ds[24] == 18 && ds[25] == 1 && ds[26] == 13 && ds[27] == 1 &&
        ds[28] == 13 && ds[29] == 56 && ds[30] == 3 && ds[31] == 39
    requires FromDigits(ds[..24], 58) == 750354935812923057928230489828214393519136
    ensures FromDigits(ds[..32], 58) == 96092765462527016006882435766936639347102214385382342189
  {
    ValueNext(ds, 58, 24, 750354935812923057928230489828214393519136, 18, 43520586277149537359837368410036434824109906);
    ValueNext(ds, 58, 25, 43520586277149537359837368410036434824109906, 1, 2524194004074673166870567367782113219798374549);
    ValueNext(ds, 58, 26, 2524194004074673166870567367782113219798374549, 13, 146403252236331043678492907331362566748305723855);
    ValueNext(ds, 58, 27, 146403252236331043678492907331362566748305723855, 1, 8491388629707200533352588625219028871401731983591);
    ValueNext(ds, 58, 28, 8491388629707200533352588625219028871401731983591, 13, 492500540523017630934450140262703674541300455048291);
    ValueNext(ds, 58, 29, 492500540523017630934450140262703674541300455048291, 56, 28565031350335022594198108135236813123395426392800934);
    ValueNext(ds, 58, 30, 28565031350335022594198108135236813123395426392800934, 3, 1656771818319431310463490271843735161156934730782454175);
    ValueNext(ds, 58, 31, 1656771818319431310463490271843735161156934730782454175, 39, 96092765462527016006882435766936639347102214385382342189);
  }

  lemma MainnetP2pkhDigits4(ds: seq<nat>)
    requires |ds| == 33 && ds[32] == 30
    requires FromDigits(ds[..32], 58) == 96092765462527016006882435766936639347102214385382342189
    ensures FromDigits(ds[..33], 58) == 5573380396826566928399181274482325082131928434352175846992
  {
    ValueNext(ds, 58, 32, 96092765462527016006882435766936639347102214385382342189, 30, 5573380396826566928399181274482325082131928434352175846992);
  }

  lemma MainnetP2pkhDigitsValid(t: string)
    requires t == "MirQ9bwyQcGVJPwKUgapu5ouK2E2Ey4gX"
    ensures forall i | 0 <= i < |t| :: Base58.DigitValue(t[i]).Some?
  {
    forall i | 0 <= i < |t| ensures Base58.DigitValue(t[i]).Some? {}
  }

  /** The base-58 digits of the text after its leading '1's, and their value. */
  lemma MainnetP2pkhText(t: string)
    requires t == "MirQ9bwyQcGVJPwKUgapu5ouK2E2Ey4gX"
    ensures forall i | 0 <= i < |t| :: Base58.DigitValue(t[i]).Some?
    ensures AllBelow(Base58.Values(t), 58) && Base58.Values(t)[0] != 0
    ensures Base58.Chars(Base58.Values(t)) == t
    ensures FromDigits(Base58.Values(t), 58) == 5573380396826566928399181274482325082131928434352175846992
  {
    MainnetP2pkhDigitsValid(t);
    Base58.CharsOfValues(t);
    MainnetP2pkhDigitsAt0(t);
    MainnetP2pkhDigitsAt1(t);
    MainnetP2pkhDigitsAt2(t);
    MainnetP2pkhDigitsAt3(t);
    MainnetP2pkhDigitsAt4(t);
    MainnetP2pkhDigitsAt5(t);
    MainnetP2pkhDigitsAt6(t);
    MainnetP2pkhDigitsAt7(t);
    MainnetP2pkhDigitsAt8(t);
    var ds := Base58.Values(t);
    ValueStart(ds, 58);
    MainnetP2pkhDigits0(ds);
    MainnetP2pkhDigits1(ds);
    MainnetP2pkhDigits2(ds);
    MainnetP2pkhDigits3(ds);
    MainnetP2pkhDigits4(ds);
    ValueAll(ds, 58);
  }

  lemma MainnetP2pkhJoin(t: string, e: string)
    requires t == "MirQ9bwyQcGVJPwKUgapu5ouK2E2Ey4gX" && e == Base58.Ones(1) + t
    ensures e == "1MirQ9bwyQcGVJPwKUgapu5ouK2E2Ey4gX"
  {
    assert Base58.Ones(1) == "1";
  }

  /** The Base58 text of the version byte, the hash and the check bytes. */
  lemma MainnetP2pkhEncode(p: seq<byte>, c: seq<byte>, bs: seq<byte>)
    requires MainnetP2pkhHash(p) && c == [0x7b, 0x22, 0x16, 0x50] && bs == [0x00] + p + c
    ensures Base58.Encode(bs) == "1MirQ9bwyQcGVJPwKUgapu5ouK2E2Ey4gX"
  {
    Base58.LeadingZerosExact(bs, 1);
    assert bs[1..] == p + c;
    MainnetP2pkhBytes(p, c);
    var t := "MirQ9bwyQcGVJPwKUgapu5ouK2E2Ey4gX";
    MainnetP2pkhText(t);
    ToFromDigits(Base58.Values(t), 58);
    Base58.EncodeParts(bs, 1, Base58.Values(t));
    MainnetP2pkhJoin(t, Base58.Encode(bs));
  }

  /** test/address-test.js:14-20. */
  lemma MainnetP2pkh(hash: Base58Check.Hasher, p: seq<byte>)
    requires MainnetP2pkhHash(p)
    requires Base58Check.Checksum(hash, [0x00] + p) == [0x7b, 0x22, 0x16, 0x50]
    ensures Address.FromPubkeyhash(p) == Ok(Address.Address(Address.PubkeyHash, p, Networks.Main))
    ensures Address.ToString(hash, Address.Address(Address.PubkeyHash, p, Networks.Main)) == "1MirQ9bwyQcGVJPwKUgapu5ouK2E2Ey4gX"
  {
    MainnetP2pkhEncode(p, Base58Check.Checksum(hash, [0x00] + p), [0x00] + p + Base58Check.Checksum(hash, [0x00] + p));
  }

  /** The key hash 0ef030107fd26e0b6bf40512bca2ceb1dd80adaa. */
  predicate MainnetP2pkh2Hash(p: seq<byte>) {
    |p| == 20 && p[0] == 0x0e && p[1] == 0xf0 && p[2] == 0x30 && p[3] == 0x10 && p[4] == 0x7f &&
    p[5] == 0xd2 && p[6] == 0x6e && p[7] == 0x0b && p[8] == 0x6b && p[9] == 0xf4 &&
    p[10] == 0x05 && p[11] == 0x12 && p[12] == 0xbc && p[13] == 0xa2 && p[14] == 0xce &&
    p[15] == 0xb1 && p[16] == 0xdd && p[17] == 0x80 && p[18] == 0xad && p[19] == 0xaa
  }

  lemma MainnetP2pkh2Value0(p: seq<byte>)
    requires MainnetP2pkh2Hash(p) && FromDigits(p[..0], 256) == 0
    ensures FromDigits(p[..8], 256) == 1076413158363655691
  {
    ValueNext(p, 256, 0, 0, 14, 14);
    ValueNext(p, 256, 1, 14, 240, 3824);
    ValueNext(p, 256, 2, 3824, 48, 978992);
    ValueNext(p, 256, 3, 978992, 16, 250621968);
    ValueNext(p, 256, 4, 250621968, 127, 64159223935);
    ValueNext(p, 256, 5, 64159223935, 210, 16424761327570);
    ValueNext(p, 256, 6, 16424761327570, 110, 4204738899858030);
    ValueNext(p, 256, 7, 4204738899858030, 11, 1076413158363655691);
  }

  lemma MainnetP2pkh2Value1(p: seq<byte>)
    requires MainnetP2pkh2Hash(p) && FromDigits(p[..8], 256) == 1076413158363655691
    ensures FromDigits(p[..16], 256) == 19856318049907746700346413288624672433
  {
    ValueNext(p, 256, 8, 1076413158363655691, 107, 275561768541095857003);
    ValueNext(p, 256, 9, 275561768541095857003, 244, 70543812746520539393012);
    ValueNext(p, 256, 10, 70543812746520539393012, 5, 18059216063109258084611077);
    ValueNext(p, 256, 11, 18059216063109258084611077, 18, 4623159312155970069660435730);
    ValueNext(p, 256, 12, 4623159312155970069660435730, 188, 1183528783911928337833071547068);
    ValueNext(p, 256, 13, 1183528783911928337833071547068, 162, 302983368681453654485266316049570);
    ValueNext(p, 256, 14, 302983368681453654485266316049570, 206, 77563742382452135548228176908690126);
    ValueNext(p, 256, 15, 77563742382452135548228176908690126, 177, 19856318049907746700346413288624672433);
  }

  lemma MainnetP2pkh2Value2(p: seq<byte>)
    requires MainnetP2pkh2Hash(p) && FromDigits(p[..16], 256) == 19856318049907746700346413288624672433
    ensures FromDigits(p[..20], 256) == 85282236643328267895039756945542776922163948970
  {
    ValueNext(p, 256, 16, 19856318049907746700346413288624672433, 221, 5083217420776383155288681801887916143069);
    ValueNext(p, 256, 17, 5083217420776383155288681801887916143069, 128, 1301303659718754087753902541283306532625792);
    ValueNext(p, 256, 18, 1301303659718754087753902541283306532625792, 173, 333133736888001046464999050568526472352202925);
    ValueNext(p, 256, 19, 333133736888001046464999050568526472352202925, 170, 85282236643328267895039756945542776922163948970);
  }

  /** The hash read as a big-endian number. */
  lemma MainnetP2pkh2HashValue(p: seq<byte>)
    requires MainnetP2pkh2Hash(p)
    ensures |p| == 20 && FromDigits(p, 256) == 85282236643328267895039756945542776922163948970
  {
    ValueStart(p, 256);
    MainnetP2pkh2Value0(p);
    MainnetP2pkh2Value1(p);
    MainnetP2pkh2Value2(p);
    ValueAll(p, 256);
  }

  /** The value of the bytes after the leading zero bytes. */
  lemma MainnetP2pkh2Bytes(p: seq<byte>, c: seq<byte>)
    requires MainnetP2pkh2Hash(p) && c == [0x46, 0x20, 0x29, 0x27]
    ensures FromDigits(p + c, 256) == 366284417312827727201522516700895079849717698377539397927
  {
    MainnetP2pkh2HashValue(p);
    MainnetP2pkh2BytesOf(p, c);
  }

  lemma MainnetP2pkh2BytesOf(p: seq<byte>, c: seq<byte>)
    requires |p| == 20 && FromDigits(p, 256) == 85282236643328267895039756945542776922163948970 && c == [0x46, 0x20, 0x29, 0x27]
    ensures FromDigits(p + c, 256) == 366284417312827727201522516700895079849717698377539397927
  {
    ValueStart(c, 256);
    ValueNext(c, 256, 0, 0, 70, 70);
    ValueNext(c, 256, 1, 70, 32, 17952);
    ValueNext(c, 256, 2, 17952, 41, 4595753);
    ValueNext(c, 256, 3, 4595753, 39, 1176512807);
    ValueAll(c, 256);
    FromDigitsAppend(p, c, 256);
    PlaceValues();
  }

  lemma MainnetP2pkh2DigitsAt0(t: string)
    requires t == "2MzCDwodF9G1e7jfwLXfR164RNtx4BRVG" && forall i | 0 <= i < |t| :: Base58.DigitValue(t[i]).Some?
    ensures Base58.Values(t)[0] == 1 && Base58.Values(t)[1] == 20 && Base58.Values(t)[2] == 57 &&
        Base58.Values(t)[3] == 11
  {
    assert t[0] == '2' && t[1] == 'M' && t[2] == 'z' && t[3] == 'C';
  }

  lemma MainnetP2pkh2DigitsAt1(t: string)
    requires t == "2MzCDwodF9G1e7jfwLXfR164RNtx4BRVG" && forall i | 0 <= i < |t| :: Base58.DigitValue(t[i]).Some?
    ensures Base58.Values(t)[4] == 12 && Base58.Values(t)[5] == 54 && Base58.Values(t)[6] == 46 &&
        Base58.Values(t)[7] == 36
  {
    assert t[4] == 'D' && t[5] == 'w' && t[6] == 'o' && t[7] == 'd';
  }

  lemma MainnetP2pkh2DigitsAt2(t: string)
    requires t == "2MzCDwodF9G1e7jfwLXfR164RNtx4BRVG" && forall i | 0 <= i < |t| :: Base58.DigitValue(t[i]).Some?
    ensures Base58.Values(t)[8] == 14 && Base58.Values(t)[9] == 8 && Base58.Values(t)[10] == 15 &&
        Base58.Values(t)[11] == 0
  {
    assert t[8] == 'F' && t[9] == '9' && t[10] == 'G' && t[11] == '1';
  }

  lemma MainnetP2pkh2DigitsAt3(t: string)
    requires t == "2MzCDwodF9G1e7jfwLXfR164RNtx4BRVG" && forall i | 0 <= i < |t| :: Base58.DigitValue(t[i]).Some?
    ensures Base58.Values(t)[12] == 37 && Base58.Values(t)[13] == 6 &&
        Base58.Values(t)[14] == 42 && Base58.Values(t)[15] == 38
  {
    assert t[12] == 'e' && t[13] == '7' && t[14] == 'j' && t[15] == 'f';
  }

  lemma MainnetP2pkh2DigitsAt4(t: string)
    requires t == "2MzCDwodF9G1e7jfwLXfR164RNtx4BRVG" && forall i | 0 <= i < |t| :: Base58.DigitValue(t[i]).Some?
    ensures Base58.Values(t)[16] == 54 && Base58.Values(t)[17] == 19 &&
        Base58.Values(t)[18] == 30 && Base58.Values(t)[19] == 38
  {
    assert t[16] == 'w' && t[17] == 'L' && t[18] == 'X' && t[19] == 'f';
  }

  lemma MainnetP2pkh2DigitsAt5(t: string)
    requires t == "2MzCDwodF9G1e7jfwLXfR164RNtx4BRVG" && forall i | 0 <= i < |t| :: Base58.DigitValue(t[i]).Some?
    ensures Base58.Values(t)[20] == 24 && Base58.Values(t)[21] == 0 && Base58.Values(t)[22] == 5 &&
        Base58.Values(t)[23] == 3
  {
    assert t[20] == 'R' && t[21] == '1' && t[22] == '6' && t[23] == '4';
  }

  lemma MainnetP2pkh2DigitsAt6(t: string)
    requires t == "2MzCDwodF9G1e7jfwLXfR164RNtx4BRVG" && forall i | 0 <= i < |t| :: Base58.DigitValue(t[i]).Some?
    ensures Base58.Values(t)[24] == 24 && Base58.Values(t)[25] == 21 &&
        Base58.Values(t)[26] == 51 && Base58.Values(t)[27] == 55
  {
    assert t[24] == 'R' && t[25] == 'N' && t[26] == 't' && t[27] == 'x';
  }

  lemma MainnetP2pkh2DigitsAt7(t: string)
    requires t == "2MzCDwodF9G1e7jfwLXfR164RNtx4BRVG" && forall i | 0 <= i < |t| :: Base58.DigitValue(t[i]).Some?
    ensures Base58.Values(t)[28] == 3 && Base58.Values(t)[29] == 10 &&
        Base58.Values(t)[30] == 24 && Base58.Values(t)[31] == 28
  {
    assert t[28] == '4' && t[29] == 'B' && t[30] == 'R' && t[31] == 'V';
  }

  lemma MainnetP2pkh2DigitsAt8(t: string)
    requires t == "2MzCDwodF9G1e7jfwLXfR164RNtx4BRVG" && forall i | 0 <= i < |t| :: Base58.DigitValue(t[i]).Some?
    ensures Base58.Values(t)[32] == 15
  {
    assert t[32] == 'G';
  }

  lemma MainnetP2pkh2Digits0(ds: seq<nat>)
    requires |ds| == 33 && ds[0] == 1 && ds[1] == 20 && ds[2] == 57 && ds[3] == 11 &&
        ds[4] == 12 && ds[5] == 54 && ds[6] == 46 && ds[7] == 36
    requires FromDigits(ds[..0], 58) == 0
    ensures FromDigits(ds[..8], 58) == 3006897361368
  {
    ValueNext(ds, 58, 0, 0, 1, 1);
    ValueNext(ds, 58, 1, 1, 20, 78);
    ValueNext(ds, 58, 2, 78, 57, 4581);
    ValueNext(ds, 58, 3, 4581, 11, 265709);
    ValueNext(ds, 58, 4, 265709, 12, 15411134);
    ValueNext(ds, 58, 5, 15411134, 54, 893845826);
    ValueNext(ds, 58, 6, 893845826, 46, 51843057954);
    ValueNext(ds, 58, 7, 51843057954, 36, 3006897361368);
  }

  lemma MainnetP2pkh2Digits1(ds: seq<nat>)
    requires |ds| == 33 && ds[8] == 14 && ds[9] == 8 && ds[10] == 15 && ds[11] == 0 &&
        ds[12] == 37 && ds[13] == 6 && ds[14] == 42 && ds[15] == 38
    requires FromDigits(ds[..8], 58) == 3006897361368
    ensures FromDigits(ds[..16], 58) == 385072542506588096808485290
  {
    ValueNext(ds, 58, 8, 3006897361368, 14, 174400046959358);
    ValueNext(ds, 58, 9, 174400046959358, 8, 10115202723642772);
    ValueNext(ds, 58, 10, 10115202723642772, 15, 586681757971280791);
    ValueNext(ds, 58, 11, 586681757971280791, 0, 34027541962334285878);
    ValueNext(ds, 58, 12, 34027541962334285878, 37, 1973597433815388580961);
    ValueNext(ds, 58, 13, 1973597433815388580961, 6, 114468651161292537695744);
    ValueNext(ds, 58, 14, 114468651161292537695744, 42, 6639181767354967186353194);
    ValueNext(ds, 58, 15, 6639181767354967186353194, 38, 385072542506588096808485290);
  }

  lemma MainnetP2pkh2Digits2(ds: seq<nat>)
    requires |ds| == 33 && ds[16] == 54 && ds[17] == 19 && ds[18] == 30 && ds[19] == 38 &&
        ds[20] == 24 && ds[21] == 0 && ds[22] == 5 && ds[23] == 3
    requires FromDigits(ds[..16], 58) == 385072542506588096808485290
    ensures FromDigits(ds[..24], 58) == 49313576478385381155631252218594439603653
  {
    ValueNext(ds, 58, 16, 385072542506588096808485290, 54, 22334207465382109614892146874);
    ValueNext(ds, 58, 17, 22334207465382109614892146874, 19, 1295384032992162357663744518711);
    ValueNext(ds, 58, 18, 1295384032992162357663744518711, 30, 75132273913545416744497182085268);
    ValueNext(ds, 58, 19, 75132273913545416744497182085268, 38, 4357671886985634171180836560945582);
    ValueNext(ds, 58, 20, 4357671886985634171180836560945582, 24, 252744969445166781928488520534843780);
    ValueNext(ds, 58, 21, 252744969445166781928488520534843780, 0, 14659208227819673351852334191020939240);
    ValueNext(ds, 58, 22, 14659208227819673351852334191020939240, 5, 850234077213541054407435383079214475925);
    ValueNext(ds, 58, 23, 850234077213541054407435383079214475925, 3, 49313576478385381155631252218594439603653);
  }

  lemma MainnetP2pkh2Digits3(ds: seq<nat>)
    requires |ds| == 33 && ds[24] == 24 && ds[25] == 21 && ds[26] == 51 && ds[27] == 55 &&
        ds[28] == 3 && ds[29] == 10 && ds[30] == 24 && ds[31] == 28
    requires FromDigits(ds[..24], 58) == 49313576478385381155631252218594439603653
    ensures FromDigits(ds[..32], 58) == 6315248574359098744853836494843018618098581006509299964
  {
    ValueNext(ds, 58, 24, 49313576478385381155631252218594439603653, 24, 2860187435746352107026612628678477497011898);
    ValueNext(ds, 58, 25, 2860187435746352107026612628678477497011898, 21, 165890871273288422207543532463351694826690105);
    ValueNext(ds, 58, 26, 165890871273288422207543532463351694826690105, 51, 9621670533850728488037524882874398299948026141);
    ValueNext(ds, 58, 27, 9621670533850728488037524882874398299948026141, 55, 558056890963342252306176443206715101396985516233);
    ValueNext(ds, 58, 28, 558056890963342252306176443206715101396985516233, 3, 32367299675873850633758233705989475881025159941517);
    ValueNext(ds, 58, 29, 32367299675873850633758233705989475881025159941517, 10, 1877303381200683336757977554947389601099459276607996);
    ValueNext(ds, 58, 30, 1877303381200683336757977554947389601099459276607996, 24, 108883596109639633531962698186948596863768638043263792);
    ValueNext(ds, 58, 31, 108883596109639633531962698186948596863768638043263792, 28, 6315248574359098744853836494843018618098581006509299964);
  }

  lemma MainnetP2pkh2Digits4(ds: seq<nat>)
    requires |ds| == 33 && ds[32] == 15
    requires FromDigits(ds[..32], 58) == 6315248574359098744853836494843018618098581006509299964
    ensures FromDigits(ds[..33], 58) == 366284417312827727201522516700895079849717698377539397927
  {
    ValueNext(ds, 58, 32, 6315248574359098744853836494843018618098581006509299964, 15, 366284417312827727201522516700895079849717698377539397927);
  }

  lemma MainnetP2pkh2DigitsValid(t: string)
    requires t == "2MzCDwodF9G1e7jfwLXfR164RNtx4BRVG"
    ensures forall i | 0 <= i < |t| :: Base58.DigitValue(t[i]).Some?
  {
    forall i | 0 <= i < |t| ensures Base58.DigitValue(t[i]).Some? {}
  }

  /** The base-58 digits of the text after its leading '1's, and their value. */
  lemma MainnetP2pkh2Text(t: string)
    requires t == "2MzCDwodF9G1e7jfwLXfR164RNtx4BRVG"
    ensures forall i | 0 <= i < |t| :: Base58.DigitValue(t[i]).Some?
    ensures AllBelow(Base58.Values(t), 58) && Base58.Values(t)[0] != 0
    ensures Base58.Chars(Base58.Values(t)) == t
    ensures FromDigits(Base58.Values(t), 58) == 366284417312827727201522516700895079849717698377539397927
  {
    MainnetP2pkh2DigitsValid(t);
    Base58.CharsOfValues(t);
    MainnetP2pkh2DigitsAt0(t);
    MainnetP2pkh2DigitsAt1(t);
    MainnetP2pkh2DigitsAt2(t);
    MainnetP2pkh2DigitsAt3(t);
    MainnetP2pkh2DigitsAt4(t);
    MainnetP2pkh2DigitsAt5(t);
    MainnetP2pkh2DigitsAt6(t);
    MainnetP2pkh2DigitsAt7(t);
    MainnetP2pkh2DigitsAt8(t);
    var ds := Base58.Values(t);
    ValueStart(ds, 58);
    MainnetP2pkh2Digits0(ds);
    MainnetP2pkh2Digits1(ds);
    MainnetP2pkh2Digits2(ds);
    MainnetP2pkh2Digits3(ds);
    MainnetP2pkh2Digits4(ds);
    ValueAll(ds, 58);
  }

  lemma MainnetP2pkh2Join(t: string, e: string)
    requires t == "2MzCDwodF9G1e7jfwLXfR164RNtx4BRVG" && e == Base58.Ones(1) + t
    ensures e == "12MzCDwodF9G1e7jfwLXfR164RNtx4BRVG"
  {
    assert Base58.Ones(1) == "1";
  }

  /** The Base58 text of the version byte, the hash and the check bytes. */
  lemma MainnetP2pkh2Encode(p: seq<byte>, c: seq<byte>, bs: seq<byte>)
    requires MainnetP2pkh2Hash(p) && c == [0x46, 0x20, 0x29, 0x27] && bs == [0x00] + p + c
    ensures Base58.Encode(bs) == "12MzCDwodF9G1e7jfwLXfR164RNtx4BRVG"
  {
    Base58.LeadingZerosExact(bs, 1);
    assert bs[1..] == p + c;
    MainnetP2pkh2Bytes(p, c);
    var t := "2MzCDwodF9G1e7jfwLXfR164RNtx4BRVG";
    MainnetP2pkh2Text(t);
    ToFromDigits(Base58.Values(t), 58);
    Base58.EncodeParts(bs, 1, Base58.Values(t));
    MainnetP2pkh2Join(t, Base58.Encode(bs));
  }

  /** test/address-test.js:22-28. */
  lemma MainnetP2pkh2(hash: Base58Check.Hasher, p: seq<byte>)
    requires MainnetP2pkh2Hash(p)
    requires Base58Check.Checksum(hash, [0x00] + p) == [0x46, 0x20, 0x29, 0x27]
    ensures Address.FromPubkeyhash(p) == Ok(Address.Address(Address.PubkeyHash, p, Networks.Main))
    ensures Address.ToString(hash, Address.Address(Address.PubkeyHash, p, Networks.Main)) == "12MzCDwodF9G1e7jfwLXfR164RNtx4BRVG"
  {
    MainnetP2pkh2Encode(p, Base58Check.Checksum(hash, [0x00] + p), [0x00] + p + Base58Check.Checksum(hash, [0x00] + p));
  }

  /** The key hash 78b316a08647d5b77283e512d3603f1f1c8de68f. */
  predicate TestnetP2pkhHash(p: seq<byte>) {
    |p| == 20 && p[0] == 0x78 && p[1] == 0xb3 && p[2] == 0x16 && p[3] == 0xa0 && p[4] == 0x86 &&
    p[5] == 0x47 && p[6] == 0xd5 && p[7] == 0xb7 && p[8] == 0x72 && p[9] == 0x83 &&
    p[10] == 0xe5 && p[11] == 0x12 && p[12] == 0xd3 && p[13] == 0x60 && p[14] == 0x3f &&
    p[15] == 0x1f && p[16] == 0x1c && p[17] == 0x8d && p[18] == 0xe6 && p[19] == 0x8f
  }

  lemma TestnetP2pkhValue0(p: seq<byte>)
    requires TestnetP2pkhHash(p) && FromDigits(p[..0], 256) == 0
    ensures FromDigits(p[..8], 256) == 8697320184085992887
  {
    ValueNext(p, 256, 0, 0, 120, 120);
    ValueNext(p, 256, 1, 120, 179, 30899);
    ValueNext(p, 256, 2, 30899, 22, 7910166);
    ValueNext(p, 256, 3, 7910166, 160, 2025002656);
    ValueNext(p, 256, 4, 2025002656, 134, 518400680070);
    ValueNext(p, 256, 5, 518400680070, 71, 132710574097991);
    ValueNext(p, 256, 6, 132710574097991, 213, 33973906969085909);
    ValueNext(p, 256, 7, 33973906969085909, 183, 8697320184085992887);
  }

  lemma TestnetP2pkhValue1(p: seq<byte>)
    requires TestnetP2pkhHash(p) && FromDigits(p[..8], 256) == 8697320184085992887
    ensures FromDigits(p[..16], 256) == 160437239562942755810326733298226708255
  {
    ValueNext(p, 256, 8, 8697320184085992887, 114, 2226513967126014179186);
    ValueNext(p, 256, 9, 2226513967126014179186, 131, 569987575584259629871747);
    ValueNext(p, 256, 10, 569987575584259629871747, 229, 145916819349570465247167461);
    ValueNext(p, 256, 11, 145916819349570465247167461, 18, 37354705753490039103274870034);
    ValueNext(p, 256, 12, 37354705753490039103274870034, 211, 9562804672893450010438366728915);
    ValueNext(p, 256, 13, 9562804672893450010438366728915, 96, 2448077996260723202672221882602336);
    ValueNext(p, 256, 14, 2448077996260723202672221882602336, 63, 626707967042745139884088801946198079);
    ValueNext(p, 256, 15, 626707967042745139884088801946198079, 31, 160437239562942755810326733298226708255);
  }

  lemma TestnetP2pkhValue2(p: seq<byte>)
    requires TestnetP2pkhHash(p) && FromDigits(p[..16], 256) == 160437239562942755810326733298226708255
    ensures FromDigits(p[..20], 256) == 689072696983356469725467298590397926749437290127
  {
    ValueNext(p, 256, 16, 160437239562942755810326733298226708255, 28, 41071933328113345487443643724346037313308);
    ValueNext(p, 256, 17, 41071933328113345487443643724346037313308, 141, 10514414931997016444785572793432585552206989);
    ValueNext(p, 256, 18, 10514414931997016444785572793432585552206989, 230, 2691690222591236209865106635118741901364989414);
    ValueNext(p, 256, 19, 2691690222591236209865106635118741901364989414, 143, 689072696983356469725467298590397926749437290127);
  }

  /** The hash read as a big-endian number. */
  lemma TestnetP2pkhHashValue(p: seq<byte>)
    requires TestnetP2pkhHash(p)
    ensures |p| == 20 && FromDigits(p, 256) == 689072696983356469725467298590397926749437290127
  {
    ValueStart(p, 256);
    TestnetP2pkhValue0(p);
    TestnetP2pkhValue1(p);
    TestnetP2pkhValue2(p);
    ValueAll(p, 256);
  }

  /** The value of the bytes after the leading zero bytes. */
  lemma TestnetP2pkhBytes(p: seq<byte>, c: seq<byte>)
    requires TestnetP2pkhHash(p) && c == [0xab, 0x29, 0x2f, 0xd1]
    ensures FromDigits([0x6f] + p + c, 256) == 699717837326031598679553522121814198182376491083009031221201
  {
    TestnetP2pkhHashValue(p);
    TestnetP2pkhBytesOf(p, c);
  }

  lemma TestnetP2pkhBytesOf(p: seq<byte>, c: seq<byte>)
    requires |p| == 20 && FromDigits(p, 256) == 689072696983356469725467298590397926749437290127 && c == [0xab, 0x29, 0x2f, 0xd1]
    ensures FromDigits([0x6f] + p + c, 256) == 699717837326031598679553522121814198182376491083009031221201
  {
    ValueStart(c, 256);
    ValueNext(c, 256, 0, 0, 171, 171);
    ValueNext(c, 256, 1, 171, 41, 43817);
    ValueNext(c, 256, 2, 43817, 47, 11217199);
    ValueNext(c, 256, 3, 11217199, 209, 2871603153);
    ValueAll(c, 256);
    FromDigitsAppend([0x6f] + p, c, 256);
    TestnetP2pkhBody(p);
    PlaceValues();
  }

  lemma TestnetP2pkhBody(p: seq<byte>)
    requires |p| == 20 && FromDigits(p, 256) == 689072696983356469725467298590397926749437290127
    ensures FromDigits([0x6f] + p, 256) == 162915754440713580390334483730097813108557949560463
  {
    FromDigitsCons(0x6f, p, 256);
    PlaceValues();
  }

  lemma TestnetP2pkhDigitsAt0(t: string)
    requires t == "mrX9vMRYLfVy1BnZbc5gZjuyaqH3ZW2ZHz" && forall i | 0 <= i < |t| :: Base58.DigitValue(t[i]).Some?
    ensures Base58.Values(t)[0] == 44 && Base58.Values(t)[1] == 49 && Base58.Values(t)[2] == 30 &&
        Base58.Values(t)[3] == 8
  {
    assert t[0] == 'm' && t[1] == 'r' && t[2] == 'X' && t[3] == '9';
  }

  lemma TestnetP2pkhDigitsAt1(t: string)
    requires t == "mrX9vMRYLfVy1BnZbc5gZjuyaqH3ZW2ZHz" && forall i | 0 <= i < |t| :: Base58.DigitValue(t[i]).Some?
    ensures Base58.Values(t)[4] == 53 && Base58.Values(t)[5] == 20 && Base58.Values(t)[6] == 24 &&
        Base58.Values(t)[7] == 31
  {
    assert t[4] == 'v' && t[5] == 'M' && t[6] == 'R' && t[7] == 'Y';
  }

  lemma TestnetP2pkhDigitsAt2(t: string)
    requires t == "mrX9vMRYLfVy1BnZbc5gZjuyaqH3ZW2ZHz" && forall i | 0 <= i < |t| :: Base58.DigitValue(t[i]).Some?
    ensures Base58.Values(t)[8] == 19 && Base58.Values(t)[9] == 38 && Base58.Values(t)[10] == 28 &&
        Base58.Values(t)[11] == 56
  {
    assert t[8] == 'L' && t[9] == 'f' && t[10] == 'V' && t[11] == 'y';
  }

  lemma TestnetP2pkhDigitsAt3(t: string)
    requires t == "mrX9vMRYLfVy1BnZbc5gZjuyaqH3ZW2ZHz" && forall i | 0 <= i < |t| :: Base58.DigitValue(t[i]).Some?
    ensures Base58.Values(t)[12] == 0 && Base58.Values(t)[13] == 10 &&
        Base58.Values(t)[14] == 45 && Base58.Values(t)[15] == 32
  {
    assert t[12] == '1' && t[13] == 'B' && t[14] == 'n' && t[15] == 'Z';
  }

  lemma TestnetP2pkhDigitsAt4(t: string)
    requires t == "mrX9vMRYLfVy1BnZbc5gZjuyaqH3ZW2ZHz" && forall i | 0 <= i < |t| :: Base58.DigitValue(t[i]).Some?
    ensures Base58.Values(t)[16] == 34 && Base58.Values(t)[17] == 35 &&
        Base58.Values(t)[18] == 4 && Base58.Values(t)[19] == 39
  {
    assert t[16] == 'b' && t[17] == 'c' && t[18] == '5' && t[19] == 'g';
  }

  lemma TestnetP2pkhDigitsAt5(t: string)
    requires t == "mrX9vMRYLfVy1BnZbc5gZjuyaqH3ZW2ZHz" && forall i | 0 <= i < |t| :: Base58.DigitValue(t[i]).Some?
    ensures Base58.Values(t)[20] == 32 && Base58.Values(t)[21] == 42 &&
        Base58.Values(t)[22] == 52 && Base58.Values(t)[23] == 56
  {
    assert t[20] == 'Z' && t[21] == 'j' && t[22] == 'u' && t[23] == 'y';
  }

  lemma TestnetP2pkhDigitsAt6(t: string)
    requires t == "mrX9vMRYLfVy1BnZbc5gZjuyaqH3ZW2ZHz" && forall i | 0 <= i < |t| :: Base58.DigitValue(t[i]).Some?
    ensures Base58.Values(t)[24] == 33 && Base58.Values(t)[25] == 48 &&
        Base58.Values(t)[26] == 16 && Base58.Values(t)[27] == 2
  {
    assert t[24] == 'a' && t[25] == 'q' && t[26] == 'H' && t[27] == '3';
  }

  lemma TestnetP2pkhDigitsAt7(t: string)
    requires t == "mrX9vMRYLfVy1BnZbc5gZjuyaqH3ZW2ZHz" && forall i | 0 <= i < |t| :: Base58.DigitValue(t[i]).Some?
    ensures Base58.Values(t)[28] == 32 && Base58.Values(t)[29] == 29 &&
        Base58.Values(t)[30] == 1 && Base58.Values(t)[31] == 32
  {
    assert t[28] == 'Z' && t[29] == 'W' && t[30] == '2' && t[31] == 'Z';
  }

  lemma TestnetP2pkhDigitsAt8(t: string)
    requires t == "mrX9vMRYLfVy1BnZbc5gZjuyaqH3ZW2ZHz" && forall i | 0 <= i < |t| :: Base58.DigitValue(t[i]).Some?
    ensures Base58.Values(t)[32] == 16 && Base58.Values(t)[33] == 57
  {
    assert t[32] == 'H' && t[33] == 'z';
  }

  lemma TestnetP2pkhDigits0(ds: seq<nat>)
    requires |ds| == 34 && ds[0] == 44 && ds[1] == 49 && ds[2] == 30 && ds[3] == 8 &&
        ds[4] == 53 && ds[5] == 20 && ds[6] == 24 && ds[7] == 31
    requires FromDigits(ds[..0], 58) == 0
    ensures FromDigits(ds[..8], 58) == 99036460951591
  {
    ValueNext(ds, 58, 0, 0, 44, 44);
    ValueNext(ds, 58, 1, 44, 49, 2601);
    ValueNext(ds, 58, 2, 2601, 30, 150888);
    ValueNext(ds, 58, 3, 150888, 8, 8751512);
    ValueNext(ds, 58, 4, 8751512, 53, 507587749);
    ValueNext(ds, 58, 5, 507587749, 20, 29440089462);
    ValueNext(ds, 58, 6, 29440089462, 24, 1707525188820);
    ValueNext(ds, 58, 7, 1707525188820, 31, 99036460951591);
  }

  lemma TestnetP2pkhDigits1(ds: seq<nat>)
    requires |ds| == 34 && ds[8] == 19 && ds[9] == 38 && ds[10] == 28 && ds[11] == 56 &&
        ds[12] == 0 && ds[13] == 10 && ds[14] == 45 && ds[15] == 32
    requires FromDigits(ds[..8], 58) == 99036460951591
    ensures FromDigits(ds[..16], 58) == 12682914391906742275809813178
  {
    ValueNext(ds, 58, 8, 99036460951591, 19, 5744114735192297);
    ValueNext(ds, 58, 9, 5744114735192297, 38, 333158654641153264);
    ValueNext(ds, 58, 10, 333158654641153264, 28, 19323201969186889340);
    ValueNext(ds, 58, 11, 19323201969186889340, 56, 1120745714212839581776);
    ValueNext(ds, 58, 12, 1120745714212839581776, 0, 65003251424344695743008);
    ValueNext(ds, 58, 13, 65003251424344695743008, 10, 3770188582611992353094474);
    ValueNext(ds, 58, 14, 3770188582611992353094474, 45, 218670937791495556479479537);
    ValueNext(ds, 58, 15, 218670937791495556479479537, 32, 12682914391906742275809813178);
  }

  lemma TestnetP2pkhDigits2(ds: seq<nat>)
    requires |ds| == 34 && ds[16] == 34 && ds[17] == 35 && ds[18] == 4 && ds[19] == 39 &&
        ds[20] == 32 && ds[21] == 42 && ds[22] == 52 && ds[23] == 56
    requires FromDigits(ds[..16], 58) == 12682914391906742275809813178
    ensures FromDigits(ds[..24], 58) == 1624213102193354340532467907593347175909016
  {
    ValueNext(ds, 58, 16, 12682914391906742275809813178, 34, 735609034730591051996969164358);
    ValueNext(ds, 58, 17, 735609034730591051996969164358, 35, 42665324014374281015824211532799);
    ValueNext(ds, 58, 18, 42665324014374281015824211532799, 4, 2474588792833708298917804268902346);
    ValueNext(ds, 58, 19, 2474588792833708298917804268902346, 39, 143526149984355081337232647596336107);
    ValueNext(ds, 58, 20, 143526149984355081337232647596336107, 32, 8324516699092594717559493560587494238);
    ValueNext(ds, 58, 21, 8324516699092594717559493560587494238, 42, 482821968547370493618450626514074665846);
    ValueNext(ds, 58, 22, 482821968547370493618450626514074665846, 52, 28003674175747488629870136337816330619120);
    ValueNext(ds, 58, 23, 28003674175747488629870136337816330619120, 56, 1624213102193354340532467907593347175909016);
  }

  lemma TestnetP2pkhDigits3(ds: seq<nat>)
    requires |ds| == 34 && ds[24] == 33 && ds[25] == 48 && ds[26] == 16 && ds[27] == 2 &&
        ds[28] == 32 && ds[29] == 29 && ds[30] == 1 && ds[31] == 32
    requires FromDigits(ds[..24], 58) == 1624213102193354340532467907593347175909016
    ensures FromDigits(ds[..32], 58) == 208001735233659809357774530951787811588102405197089486094
  {
    ValueNext(ds, 58, 24, 1624213102193354340532467907593347175909016, 33, 94204359927214551750883138640414136202722961);
    ValueNext(ds, 58, 25, 94204359927214551750883138640414136202722961, 48, 5463852875778444001551222041144019899757931786);
    ValueNext(ds, 58, 26, 5463852875778444001551222041144019899757931786, 16, 316903466795149752089970878386353154185960043604);
    ValueNext(ds, 58, 27, 316903466795149752089970878386353154185960043604, 2, 18380401074118685621218310946408482942785682529034);
    ValueNext(ds, 58, 28, 18380401074118685621218310946408482942785682529034, 32, 1066063262298883766030662034891692010681569586684004);
    ValueNext(ds, 58, 29, 1066063262298883766030662034891692010681569586684004, 29, 61831669213335258429778398023718136619531036027672261);
    ValueNext(ds, 58, 30, 61831669213335258429778398023718136619531036027672261, 1, 3586236814373444988927147085375651923932800089604991139);
    ValueNext(ds, 58, 31, 3586236814373444988927147085375651923932800089604991139, 32, 208001735233659809357774530951787811588102405197089486094);
  }

  lemma TestnetP2pkhDigits4(ds: seq<nat>)
    requires |ds| == 34 && ds[32] == 16 && ds[33] == 57
    requires FromDigits(ds[..32], 58) == 208001735233659809357774530951787811588102405197089486094
    ensures FromDigits(ds[..34], 58) == 699717837326031598679553522121814198182376491083009031221201
  {
    ValueNext(ds, 58, 32, 208001735233659809357774530951787811588102405197089486094, 16, 12064100643552268942750922795203693072109939501431190193468);
    ValueNext(ds, 58, 33, 12064100643552268942750922795203693072109939501431190193468, 57, 699717837326031598679553522121814198182376491083009031221201);
  }

  lemma TestnetP2pkhDigitsValid(t: string)
    requires t == "mrX9vMRYLfVy1BnZbc5gZjuyaqH3ZW2ZHz"
    ensures forall i | 0 <= i < |t| :: Base58.DigitValue(t[i]).Some?
  {
    forall i | 0 <= i < |t| ensures Base58.DigitValue(t[i]).Some? {}
  }

  /** The base-58 digits of the text after its leading '1's, and their value. */
  lemma TestnetP2pkhText(t: string)
    requires t == "mrX9vMRYLfVy1BnZbc5gZjuyaqH3ZW2ZHz"
    ensures forall i | 0 <= i < |t| :: Base58.DigitValue(t[i]).Some?
    ensures AllBelow(Base58.Values(t), 58) && Base58.Values(t)[0] != 0
    ensures Base58.Chars(Base58.Values(t)) == t
    ensures FromDigits(Base58.Values(t), 58) == 699717837326031598679553522121814198182376491083009031221201
  {
    TestnetP2pkhDigitsValid(t);
    Base58.CharsOfValues(t);
    TestnetP2pkhDigitsAt0(t);
    TestnetP2pkhDigitsAt1(t);
    TestnetP2pkhDigitsAt2(t);
    TestnetP2pkhDigitsAt3(t);
    TestnetP2pkhDigitsAt4(t);
    TestnetP2pkhDigitsAt5(t);
    TestnetP2pkhDigitsAt6(t);
    TestnetP2pkhDigitsAt7(t);
    TestnetP2pkhDigitsAt8(t);
    var ds := Base58.Values(t);
    ValueStart(ds, 58);
    TestnetP2pkhDigits0(ds);
    TestnetP2pkhDigits1(ds);
    TestnetP2pkhDigits2(ds);
    TestnetP2pkhDigits3(ds);
    TestnetP2pkhDigits4(ds);
    ValueAll(ds, 58);
  }

  /** The Base58 text of the version byte, the hash and the check bytes. */
  lemma TestnetP2pkhEncode(p: seq<byte>, c: seq<byte>, bs: seq<byte>)
    requires TestnetP2pkhHash(p) && c == [0xab, 0x29, 0x2f, 0xd1] && bs == [0x6f] + p + c
    ensures Base58.Encode(bs) == "mrX9vMRYLfVy1BnZbc5gZjuyaqH3ZW2ZHz"
  {
    Base58.LeadingZerosExact(bs, 0);
    assert bs[0..] == bs;
    TestnetP2pkhBytes(p, c);
    var t := "mrX9vMRYLfVy1BnZbc5gZjuyaqH3ZW2ZHz";
    TestnetP2pkhText(t);
    ToFromDigits(Base58.Values(t), 58);
    Base58.EncodeParts(bs, 0, Base58.Values(t));
    assert Base58.Ones(0) + t == t;
  }

  /** test/address-test.js:30-36. */
  lemma TestnetP2pkh(hash: Base58Check.Hasher, p: seq<byte>)
    requires TestnetP2pkhHash(p)
    requires Base58Check.Checksum(hash, [0x6f] + p) == [0xab, 0x29, 0x2f, 0xd1]
    ensures Address.FromPubkeyhash(p, "testnet") == Ok(Address.Address(Address.PubkeyHash, p, Networks.Testnet))
    ensures Address.ToString(hash, Address.Address(Address.PubkeyHash, p, Networks.Testnet)) == "mrX9vMRYLfVy1BnZbc5gZjuyaqH3ZW2ZHz"
  {
    TestnetP2pkhEncode(p, Base58Check.Checksum(hash, [0x6f] + p), [0x6f] + p + Base58Check.Checksum(hash, [0x6f] + p));
  }

  /** The script hash f815b036d9bbbce5e9f2a00abd1bf3dc91e95510. */
  predicate MainnetP2shHash(p: seq<byte>) {
    |p| == 20 && p[0] == 0xf8 && p[1] == 0x15 && p[2] == 0xb0 && p[3] == 0x36 && p[4] == 0xd9 &&
    p[5] == 0xbb && p[6] == 0xbc && p[7] == 0xe5 && p[8] == 0xe9 && p[9] == 0xf2 &&
    p[10] == 0xa0 && p[11] == 0x0a && p[12] == 0xbd && p[13] == 0x1b && p[14] == 0xf3 &&
    p[15] == 0xdc && p[16] == 0x91 && p[17] == 0xe9 && p[18] == 0x55 && p[19] == 0x10
  }

  lemma MainnetP2shValue0(p: seq<byte>)
    requires MainnetP2shHash(p) && FromDigits(p[..0], 256) == 0
    ensures FromDigits(p[..8], 256) == 17876388045544733925
  {
    ValueNext(p, 256, 0, 0, 248, 248);
    ValueNext(p, 256, 1, 248, 21, 63509);
    ValueNext(p, 256, 2, 63509, 176, 16258480);
    ValueNext(p, 256, 3, 16258480, 54, 4162170934);
    ValueNext(p, 256, 4, 4162170934, 217, 1065515759321);
    ValueNext(p, 256, 5, 1065515759321, 187, 272772034386363);
    ValueNext(p, 256, 6, 272772034386363, 188, 69829640802909116);
    ValueNext(p, 256, 7, 69829640802909116, 229, 17876388045544733925);
  }

  lemma MainnetP2shValue1(p: seq<byte>)
    requires MainnetP2shHash(p) && FromDigits(p[..8], 256) == 17876388045544733925
    ensures FromDigits(p[..16], 256) == 329761155238484594630172836404957803484
  {
    ValueNext(p, 256, 8, 17876388045544733925, 233, 4576355339659451885033);
    ValueNext(p, 256, 9, 4576355339659451885033, 242, 1171546966952819682568690);
    ValueNext(p, 256, 10, 1171546966952819682568690, 160, 299916023539921838737584800);
    ValueNext(p, 256, 11, 299916023539921838737584800, 10, 76778502026219990716821708810);
    ValueNext(p, 256, 12, 76778502026219990716821708810, 189, 19655296518712317623506357455549);
    ValueNext(p, 256, 13, 19655296518712317623506357455549, 27, 5031755908790353311617627508620571);
    ValueNext(p, 256, 14, 5031755908790353311617627508620571, 243, 1288129512650330447774112642206866419);
    ValueNext(p, 256, 15, 1288129512650330447774112642206866419, 220, 329761155238484594630172836404957803484);
  }

  lemma MainnetP2shValue2(p: seq<byte>)
    requires MainnetP2shHash(p) && FromDigits(p[..16], 256) == 329761155238484594630172836404957803484
    ensures FromDigits(p[..20], 256) == 1416313377240470414536409547186851978226222847248
  {
    ValueNext(p, 256, 16, 329761155238484594630172836404957803484, 145, 84418855741052056225324246119669197692049);
    ValueNext(p, 256, 17, 84418855741052056225324246119669197692049, 233, 21611227069709326393683007006635314609164777);
    ValueNext(p, 256, 18, 21611227069709326393683007006635314609164777, 85, 5532474129845587556782849793698640539946182997);
    ValueNext(p, 256, 19, 5532474129845587556782849793698640539946182997, 16, 1416313377240470414536409547186851978226222847248);
  }

  /** The hash read as a big-endian number. */
  lemma MainnetP2shHashValue(p: seq<byte>)
    requires MainnetP2shHash(p)
    ensures |p| == 20 && FromDigits(p, 256) == 1416313377240470414536409547186851978226222847248
  {
    ValueStart(p, 256);
    MainnetP2shValue0(p);
    MainnetP2shValue1(p);
    MainnetP2shValue2(p);
    ValueAll(p, 256);
  }

  /** The value of the bytes after the leading zero bytes. */
  lemma MainnetP2shBytes(p: seq<byte>, c: seq<byte>)
    requires MainnetP2shHash(p) && c == [0xcd, 0x00, 0x31, 0x07]
    ensures FromDigits([0x05] + p + c, 256) == 37468528313068534977268389122468030128186308440861775507719
  {
    MainnetP2shHashValue(p);
    MainnetP2shBytesOf(p, c);
  }

  lemma MainnetP2shBytesOf(p: seq<byte>, c: seq<byte>)
    requires |p| == 20 && FromDigits(p, 256) == 1416313377240470414536409547186851978226222847248 && c == [0xcd, 0x00, 0x31, 0x07]
    ensures FromDigits([0x05] + p + c, 256) == 37468528313068534977268389122468030128186308440861775507719
  {
    ValueStart(c, 256);
    ValueNext(c, 256, 0, 0, 205, 205);
    ValueNext(c, 256, 1, 205, 0, 52480);
    ValueNext(c, 256, 2, 52480, 49, 13434929);
    ValueNext(c, 256, 3, 13434929, 7, 3439341831);
    ValueAll(c, 256);
    FromDigitsAppend([0x05] + p, c, 256);
    MainnetP2shBody(p);
    PlaceValues();
  }

  lemma MainnetP2shBody(p: seq<byte>)
    requires |p| == 20 && FromDigits(p, 256) == 1416313377240470414536409547186851978226222847248
    ensures FromDigits([0x05] + p, 256) == 8723821563894985005554833710768267076505885562128
  {
    FromDigitsCons(0x05, p, 256);
    PlaceValues();
  }

  lemma MainnetP2shDigitsAt0(t: string)
    requires t == "3QJmV3qfvL9SuYo34YihAf3sRCW3qSinyC" && forall i | 0 <= i < |t| :: Base58.DigitValue(t[i]).Some?
    ensures Base58.Values(t)[0] == 2 && Base58.Values(t)[1] == 23 && Base58.Values(t)[2] == 17 &&
        Base58.Values(t)[3] == 44
  {
    assert t[0] == '3' && t[1] == 'Q' && t[2] == 'J' && t[3] == 'm';
  }

  lemma MainnetP2shDigitsAt1(t: string)
    requires t == "3QJmV3qfvL9SuYo34YihAf3sRCW3qSinyC" && forall i | 0 <= i < |t| :: Base58.DigitValue(t[i]).Some?
    ensures Base58.Values(t)[4] == 28 && Base58.Values(t)[5] == 2 && Base58.Values(t)[6] == 48 &&
        Base58.Values(t)[7] == 38
  {
    assert t[4] == 'V' && t[5] == '3' && t[6] == 'q' && t[7] == 'f';
  }

  lemma MainnetP2shDigitsAt2(t: string)
    requires t == "3QJmV3qfvL9SuYo34YihAf3sRCW3qSinyC" && forall i | 0 <= i < |t| :: Base58.DigitValue(t[i]).Some?
    ensures Base58.Values(t)[8] == 53 && Base58.Values(t)[9] == 19 && Base58.Values(t)[10] == 8 &&
        Base58.Values(t)[11] == 25
  {
    assert t[8] == 'v' && t[9] == 'L' && t[10] == '9' && t[11] == 'S';
  }

  lemma MainnetP2shDigitsAt3(t: string)
    requires t == "3QJmV3qfvL9SuYo34YihAf3sRCW3qSinyC" && forall i | 0 <= i < |t| :: Base58.DigitValue(t[i]).Some?
    ensures Base58.Values(t)[12] == 52 && Base58.Values(t)[13] == 31 &&
        Base58.Values(t)[14] == 46 && Base58.Values(t)[15] == 2
  {
    assert t[12] == 'u' && t[13] == 'Y' && t[14] == 'o' && t[15] == '3';
  }

  lemma MainnetP2shDigitsAt4(t: string)
    requires t == "3QJmV3qfvL9SuYo34YihAf3sRCW3qSinyC" && forall i | 0 <= i < |t| :: Base58.DigitValue(t[i]).Some?
    ensures Base58.Values(t)[16] == 3 && Base58.Values(t)[17] == 31 &&
        Base58.Values(t)[18] == 41 && Base58.Values(t)[19] == 40
  {
    assert t[16] == '4' && t[17] == 'Y' && t[18] == 'i' && t[19] == 'h';
  }

  lemma MainnetP2shDigitsAt5(t: string)
    requires t == "3QJmV3qfvL9SuYo34YihAf3sRCW3qSinyC" && forall i | 0 <= i < |t| :: Base58.DigitValue(t[i]).Some?
    ensures Base58.Values(t)[20] == 9 && Base58.Values(t)[21] == 38 && Base58.Values(t)[22] == 2 &&
        Base58.Values(t)[23] == 50
  {
    assert t[20] == 'A' && t[21] == 'f' && t[22] == '3' && t[23] == 's';
  }

  lemma MainnetP2shDigitsAt6(t: string)
    requires t == "3QJmV3qfvL9SuYo34YihAf3sRCW3qSinyC" && forall i | 0 <= i < |t| :: Base58.DigitValue(t[i]).Some?
    ensures Base58.Values(t)[24] == 24 && Base58.Values(t)[25] == 11 &&
        Base58.Values(t)[26] == 29 && Base58.Values(t)[27] == 2
  {
    assert t[24] == 'R' && t[25] == 'C' && t[26] == 'W' && t[27] == '3';
  }

  lemma MainnetP2shDigitsAt7(t: string)
    requires t == "3QJmV3qfvL9SuYo34YihAf3sRCW3qSinyC" && forall i | 0 <= i < |t| :: Base58.DigitValue(t[i]).Some?
    ensures Base58.Values(t)[28] == 48 && Base58.Values(t)[29] == 25 &&
        Base58.Values(t)[30] == 41 && Base58.Values(t)[31] == 45
  {
    assert t[28] == 'q' && t[29] == 'S' && t[30] == 'i' && t[31] == 'n';
  }

  lemma MainnetP2shDigitsAt8(t: string)
    requires t == "3QJmV3qfvL9SuYo34YihAf3sRCW3qSinyC" && forall i | 0 <= i < |t| :: Base58.DigitValue(t[i]).Some?
    ensures Base58.Values(t)[32] == 56 && Base58.Values(t)[33] == 11
  {
    assert t[32] == 'y' && t[33] == 'C';
  }

  lemma MainnetP2shDigits0(ds: seq<nat>)
    requires |ds| == 34 && ds[0] == 2 && ds[1] == 23 && ds[2] == 17 && ds[3] == 44 &&
        ds[4] == 28 && ds[5] == 2 && ds[6] == 48 && ds[7] == 38
    requires FromDigits(ds[..0], 58) == 0
    ensures FromDigits(ds[..8], 58) == 5303209727182
  {
    ValueNext(ds, 58, 0, 0, 2, 2);
    ValueNext(ds, 58, 1, 2, 23, 139);
    ValueNext(ds, 58, 2, 139, 17, 8079);
    ValueNext(ds, 58, 3, 8079, 44, 468626);
    ValueNext(ds, 58, 4, 468626, 28, 27180336);
    ValueNext(ds, 58, 5, 27180336, 2, 1576459490);
    ValueNext(ds, 58, 6, 1576459490, 48, 91434650468);
    ValueNext(ds, 58, 7, 91434650468, 38, 5303209727182);
  }

  lemma MainnetP2shDigits1(ds: seq<nat>)
    requires |ds| == 34 && ds[8] == 53 && ds[9] == 19 && ds[10] == 8 && ds[11] == 25 &&
        ds[12] == 52 && ds[13] == 31 && ds[14] == 46 && ds[15] == 2
    requires FromDigits(ds[..8], 58) == 5303209727182
    ensures FromDigits(ds[..16], 58) == 679145380660003555224368826
  {
    ValueNext(ds, 58, 8, 5303209727182, 53, 307586164176609);
    ValueNext(ds, 58, 9, 307586164176609, 19, 17839997522243341);
    ValueNext(ds, 58, 10, 17839997522243341, 8, 1034719856290113786);
    ValueNext(ds, 58, 11, 1034719856290113786, 25, 60013751664826599613);
    ValueNext(ds, 58, 12, 60013751664826599613, 52, 3480797596559942777606);
    ValueNext(ds, 58, 13, 3480797596559942777606, 31, 201886260600476681101179);
    ValueNext(ds, 58, 14, 201886260600476681101179, 46, 11709403114827647503868428);
    ValueNext(ds, 58, 15, 11709403114827647503868428, 2, 679145380660003555224368826);
  }

  lemma MainnetP2shDigits2(ds: seq<nat>)
    requires |ds| == 34 && ds[16] == 3 && ds[17] == 31 && ds[18] == 41 && ds[19] == 40 &&
        ds[20] == 9 && ds[21] == 38 && ds[22] == 2 && ds[23] == 50
    requires FromDigits(ds[..16], 58) == 679145380660003555224368826
    ensures FromDigits(ds[..24], 58) == 86973450381875118392959430853724760112070
  {
    ValueNext(ds, 58, 16, 679145380660003555224368826, 3, 39390432078280206203013391911);
    ValueNext(ds, 58, 17, 39390432078280206203013391911, 31, 2284645060540251959774776730869);
    ValueNext(ds, 58, 18, 2284645060540251959774776730869, 41, 132509413511334613666937050390443);
    ValueNext(ds, 58, 19, 132509413511334613666937050390443, 40, 7685545983657407592682348922645734);
    ValueNext(ds, 58, 20, 7685545983657407592682348922645734, 9, 445761667052129640375576237513452581);
    ValueNext(ds, 58, 21, 445761667052129640375576237513452581, 38, 25854176689023519141783421775780249736);
    ValueNext(ds, 58, 22, 25854176689023519141783421775780249736, 2, 1499542247963364110223438462995254484690);
    ValueNext(ds, 58, 23, 1499542247963364110223438462995254484690, 50, 86973450381875118392959430853724760112070);
  }

  lemma MainnetP2shDigits3(ds: seq<nat>)
    requires |ds| == 34 && ds[24] == 24 && ds[25] == 11 && ds[26] == 29 && ds[27] == 2 &&
        ds[28] == 48 && ds[29] == 25 && ds[30] == 41 && ds[31] == 45
    requires FromDigits(ds[..24], 58) == 86973450381875118392959430853724760112070
    ensures FromDigits(ds[..32], 58) == 11138088083551883168034598431173611809805680273740123515
  {
    ValueNext(ds, 58, 24, 86973450381875118392959430853724760112070, 24, 5044460122148756866791646989516036086500084);
    ValueNext(ds, 58, 25, 5044460122148756866791646989516036086500084, 11, 292578687084627898273915525391930093017004883);
    ValueNext(ds, 58, 26, 292578687084627898273915525391930093017004883, 29, 16969563850908418099887100472731945394986283243);
    ValueNext(ds, 58, 27, 16969563850908418099887100472731945394986283243, 2, 984234703352688249793451827418452832909204428096);
    ValueNext(ds, 58, 28, 984234703352688249793451827418452832909204428096, 48, 57085612794455918488020205990270264308733856829616);
    ValueNext(ds, 58, 29, 57085612794455918488020205990270264308733856829616, 25, 3310965542078443272305171947435675329906563696117753);
    ValueNext(ds, 58, 30, 3310965542078443272305171947435675329906563696117753, 41, 192036001440549709793699972951269169134580694374829715);
    ValueNext(ds, 58, 31, 192036001440549709793699972951269169134580694374829715, 45, 11138088083551883168034598431173611809805680273740123515);
  }

  lemma MainnetP2shDigits4(ds: seq<nat>)
    requires |ds| == 34 && ds[32] == 56 && ds[33] == 11
    requires FromDigits(ds[..32], 58) == 11138088083551883168034598431173611809805680273740123515
    ensures FromDigits(ds[..34], 58) == 37468528313068534977268389122468030128186308440861775507719
  {
    ValueNext(ds, 58, 32, 11138088083551883168034598431173611809805680273740123515, 56, 646009108846009223746006709008069484968729455876927163926);
    ValueNext(ds, 58, 33, 646009108846009223746006709008069484968729455876927163926, 11, 37468528313068534977268389122468030128186308440861775507719);
  }

  lemma MainnetP2shDigitsValid(t: string)
    requires t == "3QJmV3qfvL9SuYo34YihAf3sRCW3qSinyC"
    ensures forall i | 0 <= i < |t| :: Base58.DigitValue(t[i]).Some?
  {
    forall i | 0 <= i < |t| ensures Base58.DigitValue(t[i]).Some? {}
  }

  /** The base-58 digits of the text after its leading '1's, and their value. */
  lemma MainnetP2shText(t: string)
    requires t == "3QJmV3qfvL9SuYo34YihAf3sRCW3qSinyC"
    ensures forall i | 0 <= i < |t| :: Base58.DigitValue(t[i]).Some?
    ensures AllBelow(Base58.Values(t), 58) && Base58.Values(t)[0] != 0
    ensures Base58.Chars(Base58.Values(t)) == t
    ensures FromDigits(Base58.Values(t), 58) == 37468528313068534977268389122468030128186308440861775507719
  {
    MainnetP2shDigitsValid(t);
    Base58.CharsOfValues(t);
    MainnetP2shDigitsAt0(t);
    MainnetP2shDigitsAt1(t);
    MainnetP2shDigitsAt2(t);
    MainnetP2shDigitsAt3(t);
    MainnetP2shDigitsAt4(t);
    MainnetP2shDigitsAt5(t);
    MainnetP2shDigitsAt6(t);
    MainnetP2shDigitsAt7(t);
    MainnetP2shDigitsAt8(t);
    var ds := Base58.Values(t);
    ValueStart(ds, 58);
    MainnetP2shDigits0(ds);
    MainnetP2shDigits1(ds);
    MainnetP2shDigits2(ds);
    MainnetP2shDigits3(ds);
    MainnetP2shDigits4(ds);
    ValueAll(ds, 58);
  }

  /** The Base58 text of the version byte, the hash and the check bytes. */
  lemma MainnetP2shEncode(p: seq<byte>, c: seq<byte>, bs: seq<byte>)
    requires MainnetP2shHash(p) && c == [0xcd, 0x00, 0x31, 0x07] && bs == [0x05] + p + c
    ensures Base58.Encode(bs) == "3QJmV3qfvL9SuYo34YihAf3sRCW3qSinyC"
  {
    Base58.LeadingZerosExact(bs, 0);
    assert bs[0..] == bs;
    MainnetP2shBytes(p, c);
    var t := "3QJmV3qfvL9SuYo34YihAf3sRCW3qSinyC";
    MainnetP2shText(t);
    ToFromDigits(Base58.Values(t), 58);
    Base58.EncodeParts(bs, 0, Base58.Values(t));
    assert Base58.Ones(0) + t == t;
  }

  /** test/address-test.js:59-65. */
  lemma MainnetP2sh(hash: Base58Check.Hasher, p: seq<byte>)
    requires MainnetP2shHash(p)
    requires Base58Check.Checksum(hash, [0x05] + p) == [0xcd, 0x00, 0x31, 0x07]
    ensures Address.FromScripthash(p) == Ok(Address.Address(Address.ScriptHash, p, Networks.Main))
    ensures Address.ToString(hash, Address.Address(Address.ScriptHash, p, Networks.Main)) == "3QJmV3qfvL9SuYo34YihAf3sRCW3qSinyC"
  {
    MainnetP2shEncode(p, Base58Check.Checksum(hash, [0x05] + p), [0x05] + p + Base58Check.Checksum(hash, [0x05] + p));
  }

  /** The script hash e8c300c87986efa84c37c0519929019ef86eb5b4. */
  predicate MainnetP2sh2Hash(p: seq<byte>) {
    |p| == 20 && p[0] == 0xe8 && p[1] == 0xc3 && p[2] == 0x00 && p[3] == 0xc8 && p[4] == 0x79 &&
    p[5] == 0x86 && p[6] == 0xef && p[7] == 0xa8 && p[8] == 0x4c && p[9] == 0x37 &&
    p[10] == 0xc0 && p[11] == 0x51 && p[12] == 0x99 && p[13] == 0x29 && p[14] == 0x01 &&
    p[15] == 0x9e && p[16] == 0xf8 && p[17] == 0x6e && p[18] == 0xb5 && p[19] == 0xb4
  }

  lemma MainnetP2sh2Value0(p: seq<byte>)
    requires MainnetP2sh2Hash(p) && FromDigits(p[..0], 256) == 0
    ensures FromDigits(p[..8], 256) == 16772250298290204584
  {
    ValueNext(p, 256, 0, 0, 232, 232);
    ValueNext(p, 256, 1, 232, 195, 59587);
    ValueNext(p, 256, 2, 59587, 0, 15254272);
    ValueNext(p, 256, 3, 15254272, 200, 3905093832);
    ValueNext(p, 256, 4, 3905093832, 121, 999704021113);
    ValueNext(p, 256, 5, 999704021113, 134, 255924229405062);
    ValueNext(p, 256, 6, 255924229405062, 239, 65516602727696111);
    ValueNext(p, 256, 7, 65516602727696111, 168, 16772250298290204584);
  }

  lemma MainnetP2sh2Value1(p: seq<byte>)
    requires MainnetP2sh2Hash(p) && FromDigits(p[..8], 256) == 16772250298290204584
    ensures FromDigits(p[..16], 256) == 309393408792758090752459797058843902366
  {
    ValueNext(p, 256, 8, 16772250298290204584, 76, 4293696076362292373580);
    ValueNext(p, 256, 9, 4293696076362292373580, 55, 1099186195548746847636535);
    ValueNext(p, 256, 10, 1099186195548746847636535, 192, 281391666060479192994953152);
    ValueNext(p, 256, 11, 281391666060479192994953152, 81, 72036266511482673406708006993);
    ValueNext(p, 256, 12, 72036266511482673406708006993, 153, 18441284226939564392117249790361);
    ValueNext(p, 256, 13, 18441284226939564392117249790361, 41, 4720968762096528484382015946332457);
    ValueNext(p, 256, 14, 4720968762096528484382015946332457, 1, 1208568003096711292001796082261108993);
    ValueNext(p, 256, 15, 1208568003096711292001796082261108993, 158, 309393408792758090752459797058843902366);
  }

  lemma MainnetP2sh2Value2(p: seq<byte>)
    requires MainnetP2sh2Hash(p) && FromDigits(p[..16], 256) == 309393408792758090752459797058843902366
    ensures FromDigits(p[..20], 256) == 1328834572362854841421214859922531548235155027380
  {
    ValueNext(p, 256, 16, 309393408792758090752459797058843902366, 248, 79204712650946071232629708047064039005944);
    ValueNext(p, 256, 17, 79204712650946071232629708047064039005944, 110, 20276406438642194235553205260048393985521774);
    ValueNext(p, 256, 18, 20276406438642194235553205260048393985521774, 181, 5190760048292401724301620546572388860293574325);
    ValueNext(p, 256, 19, 5190760048292401724301620546572388860293574325, 180, 1328834572362854841421214859922531548235155027380);
  }

  /** The hash read as a big-endian number. */
  lemma MainnetP2sh2HashValue(p: seq<byte>)
    requires MainnetP2sh2Hash(p)
    ensures |p| == 20 && FromDigits(p, 256) == 1328834572362854841421214859922531548235155027380
  {
    ValueStart(p, 256);
    MainnetP2sh2Value0(p);
    MainnetP2sh2Value1(p);
    MainnetP2sh2Value2(p);
    ValueAll(p, 256);
  }

  /** The value of the bytes after the leading zero bytes. */
  lemma MainnetP2sh2Bytes(p: seq<byte>, c: seq<byte>)
    requires MainnetP2sh2Hash(p) && c == [0x6d, 0xe6, 0x85, 0xe1]
    ensures FromDigits([0x05] + p + c, 256) == 37092809707026010808278331099994826173710014582409100953057
  {
    MainnetP2sh2HashValue(p);
    MainnetP2sh2BytesOf(p, c);
  }

  lemma MainnetP2sh2BytesOf(p: seq<byte>, c: seq<byte>)
    requires |p| == 20 && FromDigits(p, 256) == 1328834572362854841421214859922531548235155027380 && c == [0x6d, 0xe6, 0x85, 0xe1]
    ensures FromDigits([0x05] + p + c, 256) == 37092809707026010808278331099994826173710014582409100953057
  {
    ValueStart(c, 256);
    ValueNext(c, 256, 0, 0, 109, 109);
    ValueNext(c, 256, 1, 109, 230, 28134);
    ValueNext(c, 256, 2, 28134, 133, 7202437);
    ValueNext(c, 256, 3, 7202437, 225, 1843824097);
    ValueAll(c, 256);
    FromDigitsAppend([0x05] + p, c, 256);
    MainnetP2sh2Body(p);
    PlaceValues();
  }

  lemma MainnetP2sh2Body(p: seq<byte>)
    requires |p| == 20 && FromDigits(p, 256) == 1328834572362854841421214859922531548235155027380
    ensures FromDigits([0x05] + p, 256) == 8636342759017369432439639023503946646514817742260
  {
    FromDigitsCons(0x05, p, 256);
    PlaceValues();
  }

  lemma MainnetP2sh2DigitsAt0(t: string)
    requires t == "3NukJ6fYZJ5Kk8bPjycAnruZkE5Q7UW7i8" && forall i | 0 <= i < |t| :: Base58.DigitValue(t[i]).Some?
    ensures Base58.Values(t)[0] == 2 && Base58.Values(t)[1] == 21 && Base58.Values(t)[2] == 52 &&
        Base58.Values(t)[3] == 43
  {
    assert t[0] == '3' && t[1] == 'N' && t[2] == 'u' && t[3] == 'k';
  }

  lemma MainnetP2sh2DigitsAt1(t: string)
    requires t == "3NukJ6fYZJ5Kk8bPjycAnruZkE5Q7UW7i8" && forall i | 0 <= i < |t| :: Base58.DigitValue(t[i]).Some?
    ensures Base58.Values(t)[4] == 17 && Base58.Values(t)[5] == 5 && Base58.Values(t)[6] == 38 &&
        Base58.Values(t)[7] == 31
  {
    assert t[4] == 'J' && t[5] == '6' && t[6] == 'f' && t[7] == 'Y';
  }

  lemma MainnetP2sh2DigitsAt2(t: string)
    requires t == "3NukJ6fYZJ5Kk8bPjycAnruZkE5Q7UW7i8" && forall i | 0 <= i < |t| :: Base58.DigitValue(t[i]).Some?
    ensures Base58.Values(t)[8] == 32 && Base58.Values(t)[9] == 17 && Base58.Values(t)[10] == 4 &&
        Base58.Values(t)[11] == 18
  {
    assert t[8] == 'Z' && t[9] == 'J' && t[10] == '5' && t[11] == 'K';
  }

  lemma MainnetP2sh2DigitsAt3(t: string)
    requires t == "3NukJ6fYZJ5Kk8bPjycAnruZkE5Q7UW7i8" && forall i | 0 <= i < |t| :: Base58.DigitValue(t[i]).Some?
    ensures Base58.Values(t)[12] == 43 && Base58.Values(t)[13] == 7 &&
        Base58.Values(t)[14] == 34 && Base58.Values(t)[15] == 22
  {
    assert t[12] == 'k' && t[13] == '8' && t[14] == 'b' && t[15] == 'P';
  }

  lemma MainnetP2sh2DigitsAt4(t: string)
    requires t == "3NukJ6fYZJ5Kk8bPjycAnruZkE5Q7UW7i8" && forall i | 0 <= i < |t| :: Base58.DigitValue(t[i]).Some?
    ensures Base58.Values(t)[16] == 42 && Base58.Values(t)[17] == 56 &&
        Base58.Values(t)[18] == 35 && Base58.Values(t)[19] == 9
  {
    assert t[16] == 'j' && t[17] == 'y' && t[18] == 'c' && t[19] == 'A';
  }

  lemma MainnetP2sh2DigitsAt5(t: string)
    requires t == "3NukJ6fYZJ5Kk8bPjycAnruZkE5Q7UW7i8" && forall i | 0 <= i < |t| :: Base58.DigitValue(t[i]).Some?
    ensures Base58.Values(t)[20] == 45 && Base58.Values(t)[21] == 49 &&
        Base58.Values(t)[22] == 52 && Base58.Values(t)[23] == 32
  {
    assert t[20] == 'n' && t[21] == 'r' && t[22] == 'u' && t[23] == 'Z';
  }

  lemma MainnetP2sh2DigitsAt6(t: string)
    requires t == "3NukJ6fYZJ5Kk8bPjycAnruZkE5Q7UW7i8" && forall i | 0 <= i < |t| :: Base58.DigitValue(t[i]).Some?
    ensures Base58.Values(t)[24] == 43 && Base58.Values(t)[25] == 13 &&
        Base58.Values(t)[26] == 4 && Base58.Values(t)[27] == 23
  {
    assert t[24] == 'k' && t[25] == 'E' && t[26] == '5' && t[27] == 'Q';
  }

  lemma MainnetP2sh2DigitsAt7(t: string)
    requires t == "3NukJ6fYZJ5Kk8bPjycAnruZkE5Q7UW7i8" && forall i | 0 <= i < |t| :: Base58.DigitValue(t[i]).Some?
    ensures Base58.Values(t)[28] == 6 && Base58.Values(t)[29] == 27 &&
        Base58.Values(t)[30] == 29 && Base58.Values(t)[31] == 6
  {
    assert t[28] == '7' && t[29] == 'U' && t[30] == 'W' && t[31] == '7';
  }

  lemma MainnetP2sh2DigitsAt8(t: string)
    requires t == "3NukJ6fYZJ5Kk8bPjycAnruZkE5Q7UW7i8" && forall i | 0 <= i < |t| :: Base58.DigitValue(t[i]).Some?
    ensures Base58.Values(t)[32] == 41 && Base58.Values(t)[33] == 7
  {
    assert t[32] == 'i' && t[33] == '8';
  }

  lemma MainnetP2sh2Digits0(ds: seq<nat>)
    requires |ds| == 34 && ds[0] == 2 && ds[1] == 21 && ds[2] == 52 && ds[3] == 43 &&
        ds[4] == 17 && ds[5] == 5 && ds[6] == 38 && ds[7] == 31
    requires FromDigits(ds[..0], 58) == 0
    ensures FromDigits(ds[..8], 58) == 5250031375751
  {
    ValueNext(ds, 58, 0, 0, 2, 2);
    ValueNext(ds, 58, 1, 2, 21, 137);
    ValueNext(ds, 58, 2, 137, 52, 7998);
    ValueNext(ds, 58, 3, 7998, 43, 463927);
    ValueNext(ds, 58, 4, 463927, 17, 26907783);
    ValueNext(ds, 58, 5, 26907783, 5, 1560651419);
    ValueNext(ds, 58, 6, 1560651419, 38, 90517782340);
    ValueNext(ds, 58, 7, 90517782340, 31, 5250031375751);
  }

  lemma MainnetP2sh2Digits1(ds: seq<nat>)
    requires |ds| == 34 && ds[8] == 32 && ds[9] == 17 && ds[10] == 4 && ds[11] == 18 &&
        ds[12] == 43 && ds[13] == 7 && ds[14] == 34 && ds[15] == 22
    requires FromDigits(ds[..8], 58) == 5250031375751
    ensures FromDigits(ds[..16], 58) == 672335197095019582620904286
  {
    ValueNext(ds, 58, 8, 5250031375751, 32, 304501819793590);
    ValueNext(ds, 58, 9, 304501819793590, 17, 17661105548028237);
    ValueNext(ds, 58, 10, 17661105548028237, 4, 1024344121785637750);
    ValueNext(ds, 58, 11, 1024344121785637750, 18, 59411959063566989518);
    ValueNext(ds, 58, 12, 59411959063566989518, 43, 3445893625686885392087);
    ValueNext(ds, 58, 13, 3445893625686885392087, 7, 199861830289839352741053);
    ValueNext(ds, 58, 14, 199861830289839352741053, 34, 11591986156810682458981108);
    ValueNext(ds, 58, 15, 11591986156810682458981108, 22, 672335197095019582620904286);
  }

  lemma MainnetP2sh2Digits2(ds: seq<nat>)
    requires |ds| == 34 && ds[16] == 42 && ds[17] == 56 && ds[18] == 35 && ds[19] == 9 &&
        ds[20] == 45 && ds[21] == 49 && ds[22] == 52 && ds[23] == 32
    requires FromDigits(ds[..16], 58) == 672335197095019582620904286
    ensures FromDigits(ds[..24], 58) == 86101317287477886383144638601286642919492
  {
    ValueNext(ds, 58, 16, 672335197095019582620904286, 42, 38995441431511135792012448630);
    ValueNext(ds, 58, 17, 38995441431511135792012448630, 56, 2261735603027645875936722020596);
    ValueNext(ds, 58, 18, 2261735603027645875936722020596, 35, 131180664975603460804329877194603);
    ValueNext(ds, 58, 19, 131180664975603460804329877194603, 9, 7608478568585000726651132877286983);
    ValueNext(ds, 58, 20, 7608478568585000726651132877286983, 45, 441291756977930042145765706882645059);
    ValueNext(ds, 58, 21, 441291756977930042145765706882645059, 49, 25594921904719942444454410999193413471);
    ValueNext(ds, 58, 22, 25594921904719942444454410999193413471, 52, 1484505470473756661778355837953217981370);
    ValueNext(ds, 58, 23, 1484505470473756661778355837953217981370, 32, 86101317287477886383144638601286642919492);
  }

  lemma MainnetP2sh2Digits3(ds: seq<nat>)
    requires |ds| == 34 && ds[24] == 43 && ds[25] == 13 && ds[26] == 4 && ds[27] == 23 &&
        ds[28] == 6 && ds[29] == 27 && ds[30] == 29 && ds[31] == 6
    requires FromDigits(ds[..24], 58) == 86101317287477886383144638601286642919492
    ensures FromDigits(ds[..32], 58) == 11026400031815104283079170957192278886358506118433145348
  {
    ValueNext(ds, 58, 24, 86101317287477886383144638601286642919492, 43, 4993876402673717410222389038874625289330579);
    ValueNext(ds, 58, 25, 4993876402673717410222389038874625289330579, 13, 289644831355075609792898564254728266781173595);
    ValueNext(ds, 58, 26, 289644831355075609792898564254728266781173595, 4, 16799400218594385367988116726774239473308068514);
    ValueNext(ds, 58, 27, 16799400218594385367988116726774239473308068514, 23, 974365212678474351343310770152905889451867973835);
    ValueNext(ds, 58, 28, 974365212678474351343310770152905889451867973835, 6, 56513182335351512377912024668868541588208342482436);
    ValueNext(ds, 58, 29, 56513182335351512377912024668868541588208342482436, 27, 3277764575450387717918897430794375412116083863981315);
    ValueNext(ds, 58, 30, 3277764575450387717918897430794375412116083863981315, 29, 190110345376122487639296050986073773902732864110916299);
    ValueNext(ds, 58, 31, 190110345376122487639296050986073773902732864110916299, 6, 11026400031815104283079170957192278886358506118433145348);
  }

  lemma MainnetP2sh2Digits4(ds: seq<nat>)
    requires |ds| == 34 && ds[32] == 41 && ds[33] == 7
    requires FromDigits(ds[..32], 58) == 11026400031815104283079170957192278886358506118433145348
    ensures FromDigits(ds[..34], 58) == 37092809707026010808278331099994826173710014582409100953057
  {
    ValueNext(ds, 58, 32, 11026400031815104283079170957192278886358506118433145348, 41, 639531201845276048418591915517152175408793354869122430225);
    ValueNext(ds, 58, 33, 639531201845276048418591915517152175408793354869122430225, 7, 37092809707026010808278331099994826173710014582409100953057);
  }

  lemma MainnetP2sh2DigitsValid(t: string)
    requires t == "3NukJ6fYZJ5Kk8bPjycAnruZkE5Q7UW7i8"
    ensures forall i | 0 <= i < |t| :: Base58.DigitValue(t[i]).Some?
  {
    forall i | 0 <= i < |t| ensures Base58.DigitValue(t[i]).Some? {}
  }

  /** The base-58 digits of the text after its leading '1's, and their value. */
  lemma MainnetP2sh2Text(t: string)
    requires t == "3NukJ6fYZJ5Kk8bPjycAnruZkE5Q7UW7i8"
    ensures forall i | 0 <= i < |t| :: Base58.DigitValue(t[i]).Some?
    ensures AllBelow(Base58.Values(t), 58) && Base58.Values(t)[0] != 0
    ensures Base58.Chars(Base58.Values(t)) == t
    ensures FromDigits(Base58.Values(t), 58) == 37092809707026010808278331099994826173710014582409100953057
  {
    MainnetP2sh2DigitsValid(t);
    Base58.CharsOfValues(t);
    MainnetP2sh2DigitsAt0(t);
    MainnetP2sh2DigitsAt1(t);
    MainnetP2sh2DigitsAt2(t);
    MainnetP2sh2DigitsAt3(t);
    MainnetP2sh2DigitsAt4(t);
    MainnetP2sh2DigitsAt5(t);
    MainnetP2sh2DigitsAt6(t);
    MainnetP2sh2DigitsAt7(t);
    MainnetP2sh2DigitsAt8(t);
    var ds := Base58.Values(t);
    ValueStart(ds, 58);
    MainnetP2sh2Digits0(ds);
    MainnetP2sh2Digits1(ds);
    MainnetP2sh2Digits2(ds);
    MainnetP2sh2Digits3(ds);
    MainnetP2sh2Digits4(ds);
    ValueAll(ds, 58);
  }

  /** The Base58 text of the version byte, the hash and the check bytes. */
  lemma MainnetP2sh2Encode(p: seq<byte>, c: seq<byte>, bs: seq<byte>)
    requires MainnetP2sh2Hash(p) && c == [0x6d, 0xe6, 0x85, 0xe1] && bs == [0x05] + p + c
    ensures Base58.Encode(bs) == "3NukJ6fYZJ5Kk8bPjycAnruZkE5Q7UW7i8"
  {
    Base58.LeadingZerosExact(bs, 0);
    assert bs[0..] == bs;
    MainnetP2sh2Bytes(p, c);
    var t := "3NukJ6fYZJ5Kk8bPjycAnruZkE5Q7UW7i8";
    MainnetP2sh2Text(t);
    ToFromDigits(Base58.Values(t), 58);
    Base58.EncodeParts(bs, 0, Base58.Values(t));
    assert Base58.Ones(0) + t == t;
  }

  /** test/address-test.js:67-73. */
  lemma MainnetP2sh2(hash: Base58Check.Hasher, p: seq<byte>)
    requires MainnetP2sh2Hash(p)
    requires Base58Check.Checksum(hash, [0x05] + p) == [0x6d, 0xe6, 0x85, 0xe1]
    ensures Address.FromScripthash(p) == Ok(Address.Address(Address.ScriptHash, p, Networks.Main))
    ensures Address.ToString(hash, Address.Address(Address.ScriptHash, p, Networks.Main)) == "3NukJ6fYZJ5Kk8bPjycAnruZkE5Q7UW7i8"
  {
    MainnetP2sh2Encode(p, Base58Check.Checksum(hash, [0x05] + p), [0x05] + p + Base58Check.Checksum(hash, [0x05] + p));
  }

  /** The script hash c579342c2c4c9220205e2cdc285617040c924a0a. */
  predicate TestnetP2shHash(p: seq<byte>) {
    |p| == 20 && p[0] == 0xc5 && p[1] == 0x79 && p[2] == 0x34 && p[3] == 0x2c && p[4] == 0x2c &&
    p[5] == 0x4c && p[6] == 0x92 && p[7] == 0x20 && p[8] == 0x20 && p[9] == 0x5e &&
    p[10] == 0x2c && p[11] == 0xdc && p[12] == 0x28 && p[13] == 0x56 && p[14] == 0x17 &&
    p[15] == 0x04 && p[16] == 0x0c && p[17] == 0x92 && p[18] == 0x4a && p[19] == 0x0a
  }

  lemma TestnetP2shValue0(p: seq<byte>)
    requires TestnetP2shHash(p) && FromDigits(p[..0], 256) == 0
    ensures FromDigits(p[..8], 256) == 14229461861980213792
  {
    ValueNext(p, 256, 0, 0, 197, 197);
    ValueNext(p, 256, 1, 197, 121, 50553);
    ValueNext(p, 256, 2, 50553, 52, 12941620);
    ValueNext(p, 256, 3, 12941620, 44, 3313054764);
    ValueNext(p, 256, 4, 3313054764, 44, 848142019628);
    ValueNext(p, 256, 5, 848142019628, 76, 217124357024844);
    ValueNext(p, 256, 6, 217124357024844, 146, 55583835398360210);
    ValueNext(p, 256, 7, 55583835398360210, 32, 14229461861980213792);
  }

  lemma TestnetP2shValue1(p: seq<byte>)
    requires TestnetP2shHash(p) && FromDigits(p[..8], 256) == 14229461861980213792
    ensures FromDigits(p[..16], 256) == 262487241274559590472159635453244741380
  {
    ValueNext(p, 256, 8, 14229461861980213792, 32, 3642742236666934730784);
    ValueNext(p, 256, 9, 3642742236666934730784, 94, 932542012586735291080798);
    ValueNext(p, 256, 10, 932542012586735291080798, 44, 238730755222204234516684332);
    ValueNext(p, 256, 11, 238730755222204234516684332, 220, 61115073336884284036271189212);
    ValueNext(p, 256, 12, 61115073336884284036271189212, 40, 15645458774242376713285424438312);
    ValueNext(p, 256, 13, 15645458774242376713285424438312, 86, 4005237446206048438601068656207958);
    ValueNext(p, 256, 14, 4005237446206048438601068656207958, 23, 1025340786228748400281873575989237271);
    ValueNext(p, 256, 15, 1025340786228748400281873575989237271, 4, 262487241274559590472159635453244741380);
  }

  lemma TestnetP2shValue2(p: seq<byte>)
    requires TestnetP2shHash(p) && FromDigits(p[..16], 256) == 262487241274559590472159635453244741380
    ensures FromDigits(p[..20], 256) == 1127374116891494797881078832762968301311288822282
  {
    ValueNext(p, 256, 16, 262487241274559590472159635453244741380, 12, 67196733766287255160872866676030653793292);
    ValueNext(p, 256, 17, 67196733766287255160872866676030653793292, 146, 17202363844169537321183453869063847371082898);
    ValueNext(p, 256, 18, 17202363844169537321183453869063847371082898, 74, 4403805144107401554222964190480344926997221962);
    ValueNext(p, 256, 19, 4403805144107401554222964190480344926997221962, 10, 1127374116891494797881078832762968301311288822282);
  }

  /** The hash read as a big-endian number. */
  lemma TestnetP2shHashValue(p: seq<byte>)
    requires TestnetP2shHash(p)
    ensures |p| == 20 && FromDigits(p, 256) == 1127374116891494797881078832762968301311288822282
  {
    ValueStart(p, 256);
    TestnetP2shValue0(p);
    TestnetP2shValue1(p);
    TestnetP2shValue2(p);
    ValueAll(p, 256);
  }

  /** The value of the bytes after the leading zero bytes. */
  lemma TestnetP2shBytes(p: seq<byte>, c: seq<byte>)
    requires TestnetP2shHash(p) && c == [0xba, 0x7d, 0x11, 0xad]
    ensures FromDigits([0xc4] + p + c, 256) == 1235153975098195281049268090632617419730078326522265439375789
  {
    TestnetP2shHashValue(p);
    TestnetP2shBytesOf(p, c);
  }

  lemma TestnetP2shBytesOf(p: seq<byte>, c: seq<byte>)
    requires |p| == 20 && FromDigits(p, 256) == 1127374116891494797881078832762968301311288822282 && c == [0xba, 0x7d, 0x11, 0xad]
    ensures FromDigits([0xc4] + p + c, 256) == 1235153975098195281049268090632617419730078326522265439375789
  {
    ValueStart(c, 256);
    ValueNext(c, 256, 0, 0, 186, 186);
    ValueNext(c, 256, 1, 186, 125, 47741);
    ValueNext(c, 256, 2, 47741, 17, 12221713);
    ValueNext(c, 256, 3, 12221713, 173, 3128758701);
    ValueAll(c, 256);
    FromDigitsAppend([0xc4] + p, c, 256);
    TestnetP2shBody(p);
    PlaceValues();
  }

  lemma TestnetP2shBody(p: seq<byte>)
    requires |p| == 20 && FromDigits(p, 256) == 1127374116891494797881078832762968301311288822282
    ensures FromDigits([0xc4] + p, 256) == 287581695033748466765803306045154440153874067245578
  {
    FromDigitsCons(0xc4, p, 256);
    PlaceValues();
  }

  lemma TestnetP2shDigitsAt0(t: string)
    requires t == "2NBFNJTktNa7GZusGbDbGKRZTxdK9VVez3n" && forall i | 0 <= i < |t| :: Base58.DigitValue(t[i]).Some?
    ensures Base58.Values(t)[0] == 1 && Base58.Values(t)[1] == 21 && Base58.Values(t)[2] == 10 &&
        Base58.Values(t)[3] == 14
  {
    assert t[0] == '2' && t[1] == 'N' && t[2] == 'B' && t[3] == 'F';
  }

  lemma TestnetP2shDigitsAt1(t: string)
    requires t == "2NBFNJTktNa7GZusGbDbGKRZTxdK9VVez3n" && forall i | 0 <= i < |t| :: Base58.DigitValue(t[i]).Some?
    ensures Base58.Values(t)[4] == 21 && Base58.Values(t)[5] == 17 && Base58.Values(t)[6] == 26 &&
        Base58.Values(t)[7] == 43
  {
    assert t[4] == 'N' && t[5] == 'J' && t[6] == 'T' && t[7] == 'k';
  }

  lemma TestnetP2shDigitsAt2(t: string)
    requires t == "2NBFNJTktNa7GZusGbDbGKRZTxdK9VVez3n" && forall i | 0 <= i < |t| :: Base58.DigitValue(t[i]).Some?
    ensures Base58.Values(t)[8] == 51 && Base58.Values(t)[9] == 21 && Base58.Values(t)[10] == 33 &&
        Base58.Values(t)[11] == 6
  {
    assert t[8] == 't' && t[9] == 'N' && t[10] == 'a' && t[11] == '7';
  }

  lemma TestnetP2shDigitsAt3(t: string)
    requires t == "2NBFNJTktNa7GZusGbDbGKRZTxdK9VVez3n" && forall i | 0 <= i < |t| :: Base58.DigitValue(t[i]).Some?
    ensures Base58.Values(t)[12] == 15 && Base58.Values(t)[13] == 32 &&
        Base58.Values(t)[14] == 52 && Base58.Values(t)[15] == 50
  {
    assert t[12] == 'G' && t[13] == 'Z' && t[14] == 'u' && t[15] == 's';
  }

  lemma TestnetP2shDigitsAt4(t: string)
    requires t == "2NBFNJTktNa7GZusGbDbGKRZTxdK9VVez3n" && forall i | 0 <= i < |t| :: Base58.DigitValue(t[i]).Some?
    ensures Base58.Values(t)[16] == 15 && Base58.Values(t)[17] == 34 &&
        Base58.Values(t)[18] == 12 && Base58.Values(t)[19] == 34
  {
    assert t[16] == 'G' && t[17] == 'b' && t[18] == 'D' && t[19] == 'b';
  }

  lemma TestnetP2shDigitsAt5(t: string)
    requires t == "2NBFNJTktNa7GZusGbDbGKRZTxdK9VVez3n" && forall i | 0 <= i < |t| :: Base58.DigitValue(t[i]).Some?
    ensures Base58.Values(t)[20] == 15 && Base58.Values(t)[21] == 18 &&
        Base58.Values(t)[22] == 24 && Base58.Values(t)[23] == 32
  {
    assert t[20] == 'G' && t[21] == 'K' && t[22] == 'R' && t[23] == 'Z';
  }

  lemma TestnetP2shDigitsAt6(t: string)
    requires t == "2NBFNJTktNa7GZusGbDbGKRZTxdK9VVez3n" && forall i | 0 <= i < |t| :: Base58.DigitValue(t[i]).Some?
    ensures Base58.Values(t)[24] == 26 && Base58.Values(t)[25] == 55 &&
        Base58.Values(t)[26] == 36 && Base58.Values(t)[27] == 18
  {
    assert t[24] == 'T' && t[25] == 'x' && t[26] == 'd' && t[27] == 'K';
  }

  lemma TestnetP2shDigitsAt7(t: string)
    requires t == "2NBFNJTktNa7GZusGbDbGKRZTxdK9VVez3n" && forall i | 0 <= i < |t| :: Base58.DigitValue(t[i]).Some?
    ensures Base58.Values(t)[28] == 8 && Base58.Values(t)[29] == 28 &&
        Base58.Values(t)[30] == 28 && Base58.Values(t)[31] == 37
  {
    assert t[28] == '9' && t[29] == 'V' && t[30] == 'V' && t[31] == 'e';
  }

  lemma TestnetP2shDigitsAt8(t: string)
    requires t == "2NBFNJTktNa7GZusGbDbGKRZTxdK9VVez3n" && forall i | 0 <= i < |t| :: Base58.DigitValue(t[i]).Some?
    ensures Base58.Values(t)[32] == 57 && Base58.Values(t)[33] == 2 && Base58.Values(t)[34] == 45
  {
    assert t[32] == 'z' && t[33] == '3' && t[34] == 'n';
  }

  lemma TestnetP2shDigits0(ds: seq<nat>)
    requires |ds| == 35 && ds[0] == 1 && ds[1] == 21 && ds[2] == 10 && ds[3] == 14 &&
        ds[4] == 21 && ds[5] == 17 && ds[6] == 26 && ds[7] == 43
    requires FromDigits(ds[..0], 58) == 0
    ensures FromDigits(ds[..8], 58) == 3014152865691
  {
    ValueNext(ds, 58, 0, 0, 1, 1);
    ValueNext(ds, 58, 1, 1, 21, 79);
    ValueNext(ds, 58, 2, 79, 10, 4592);
    ValueNext(ds, 58, 3, 4592, 14, 266350);
    ValueNext(ds, 58, 4, 266350, 21, 15448321);
    ValueNext(ds, 58, 5, 15448321, 17, 896002635);
    ValueNext(ds, 58, 6, 896002635, 26, 51968152856);
    ValueNext(ds, 58, 7, 51968152856, 43, 3014152865691);
  }

  lemma TestnetP2shDigits1(ds: seq<nat>)
    requires |ds| == 35 && ds[8] == 51 && ds[9] == 21 && ds[10] == 33 && ds[11] == 6 &&
        ds[12] == 15 && ds[13] == 32 && ds[14] == 52 && ds[15] == 50
    requires FromDigits(ds[..8], 58) == 3014152865691
    ensures FromDigits(ds[..16], 58) == 386001704749692066348787346
  {
    ValueNext(ds, 58, 8, 3014152865691, 51, 174820866210129);
    ValueNext(ds, 58, 9, 174820866210129, 21, 10139610240187503);
    ValueNext(ds, 58, 10, 10139610240187503, 33, 588097393930875207);
    ValueNext(ds, 58, 11, 588097393930875207, 6, 34109648847990762012);
    ValueNext(ds, 58, 12, 34109648847990762012, 15, 1978359633183464196711);
    ValueNext(ds, 58, 13, 1978359633183464196711, 32, 114744858724640923409270);
    ValueNext(ds, 58, 14, 114744858724640923409270, 52, 6655201806029173557737712);
    ValueNext(ds, 58, 15, 6655201806029173557737712, 50, 386001704749692066348787346);
  }

  lemma TestnetP2shDigits2(ds: seq<nat>)
    requires |ds| == 35 && ds[16] == 15 && ds[17] == 34 && ds[18] == 12 && ds[19] == 34 &&
        ds[20] == 15 && ds[21] == 18 && ds[22] == 24 && ds[23] == 32
    requires FromDigits(ds[..16], 58) == 386001704749692066348787346
    ensures FromDigits(ds[..24], 58) == 49432567858653299855437026888486283116048
  {
    ValueNext(ds, 58, 16, 386001704749692066348787346, 15, 22388098875482139848229666083);
    ValueNext(ds, 58, 17, 22388098875482139848229666083, 34, 1298509734777964111197320632848);
    ValueNext(ds, 58, 18, 1298509734777964111197320632848, 12, 75313564617121918449444596705196);
    ValueNext(ds, 58, 19, 75313564617121918449444596705196, 34, 4368186747793071270067786608901402);
    ValueNext(ds, 58, 20, 4368186747793071270067786608901402, 15, 253354831371998133663931623316281331);
    ValueNext(ds, 58, 21, 253354831371998133663931623316281331, 18, 14694580219575891752508034152344317216);
    ValueNext(ds, 58, 22, 14694580219575891752508034152344317216, 24, 852285652735401721645465980835970398552);
    ValueNext(ds, 58, 23, 852285652735401721645465980835970398552, 32, 49432567858653299855437026888486283116048);
  }

  lemma TestnetP2shDigits3(ds: seq<nat>)
    requires |ds| == 35 && ds[24] == 26 && ds[25] == 55 && ds[26] == 36 && ds[27] == 18 &&
        ds[28] == 8 && ds[29] == 28 && ds[30] == 28 && ds[31] == 37
    requires FromDigits(ds[..24], 58) == 49432567858653299855437026888486283116048
    ensures FromDigits(ds[..32], 58) == 6330486977214088733902928013820869140442814006940964365
  {
    ValueNext(ds, 58, 24, 49432567858653299855437026888486283116048, 26, 2867088935801891391615347559532204420730810);
    ValueNext(ds, 58, 25, 2867088935801891391615347559532204420730810, 55, 166291158276509700713690158452867856402387035);
    ValueNext(ds, 58, 26, 166291158276509700713690158452867856402387035, 36, 9644887180037562641394029190266335671338448066);
    ValueNext(ds, 58, 27, 9644887180037562641394029190266335671338448066, 18, 559403456442178633200853693035447468937629987846);
    ValueNext(ds, 58, 28, 559403456442178633200853693035447468937629987846, 8, 32445400473646360725649514196055953198382539295076);
    ValueNext(ds, 58, 29, 32445400473646360725649514196055953198382539295076, 28, 1881833227471488922087671823371245285506187279114436);
    ValueNext(ds, 58, 30, 1881833227471488922087671823371245285506187279114436, 28, 109146327193346357481084965755532226559358862188637316);
    ValueNext(ds, 58, 31, 109146327193346357481084965755532226559358862188637316, 37, 6330486977214088733902928013820869140442814006940964365);
  }

  lemma TestnetP2shDigits4(ds: seq<nat>)
    requires |ds| == 35 && ds[32] == 57 && ds[33] == 2 && ds[34] == 45
    requires FromDigits(ds[..32], 58) == 6330486977214088733902928013820869140442814006940964365
    ensures FromDigits(ds[..35], 58) == 1235153975098195281049268090632617419730078326522265439375789
  {
    ValueNext(ds, 58, 32, 6330486977214088733902928013820869140442814006940964365, 57, 367168244678417146566369824801610410145683212402575933227);
    ValueNext(ds, 58, 33, 367168244678417146566369824801610410145683212402575933227, 2, 21295758191348194500849449838493403788449626319349404127168);
    ValueNext(ds, 58, 34, 21295758191348194500849449838493403788449626319349404127168, 45, 1235153975098195281049268090632617419730078326522265439375789);
  }

  lemma TestnetP2shDigitsValid(t: string)
    requires t == "2NBFNJTktNa7GZusGbDbGKRZTxdK9VVez3n"
    ensures forall i | 0 <= i < |t| :: Base58.DigitValue(t[i]).Some?
  {
    forall i | 0 <= i < |t| ensures Base58.DigitValue(t[i]).Some? {}
  }

  /** The base-58 digits of the text after its leading '1's, and their value. */
  lemma TestnetP2shText(t: string)
    requires t == "2NBFNJTktNa7GZusGbDbGKRZTxdK9VVez3n"
    ensures forall i | 0 <= i < |t| :: Base58.DigitValue(t[i]).Some?
    ensures AllBelow(Base58.Values(t), 58) && Base58.Values(t)[0] != 0
    ensures Base58.Chars(Base58.Values(t)) == t
    ensures FromDigits(Base58.Values(t), 58) == 1235153975098195281049268090632617419730078326522265439375789
  {
    TestnetP2shDigitsValid(t);
    Base58.CharsOfValues(t);
    TestnetP2shDigitsAt0(t);
    TestnetP2shDigitsAt1(t);
    TestnetP2shDigitsAt2(t);
    TestnetP2shDigitsAt3(t);
    TestnetP2shDigitsAt4(t);
    TestnetP2shDigitsAt5(t);
    TestnetP2shDigitsAt6(t);
    TestnetP2shDigitsAt7(t);
    TestnetP2shDigitsAt8(t);
    var ds := Base58.Values(t);
    ValueStart(ds, 58);
    TestnetP2shDigits0(ds);
    TestnetP2shDigits1(ds);
    TestnetP2shDigits2(ds);
    TestnetP2shDigits3(ds);
    TestnetP2shDigits4(ds);
    ValueAll(ds, 58);
  }

  /** The Base58 text of the version byte, the hash and the check bytes. */
  lemma TestnetP2shEncode(p: seq<byte>, c: seq<byte>, bs: seq<byte>)
    requires TestnetP2shHash(p) && c == [0xba, 0x7d, 0x11, 0xad] && bs == [0xc4] + p + c
    ensures Base58.Encode(bs) == "2NBFNJTktNa7GZusGbDbGKRZTxdK9VVez3n"
  {
    Base58.LeadingZerosExact(bs, 0);
    assert bs[0..] == bs;
    TestnetP2shBytes(p, c);
    var t := "2NBFNJTktNa7GZusGbDbGKRZTxdK9VVez3n";
    TestnetP2shText(t);
    ToFromDigits(Base58.Values(t), 58);
    Base58.EncodeParts(bs, 0, Base58.Values(t));
    assert Base58.Ones(0) + t == t;
  }

  /** test/address-test.js:75-81. */
  lemma TestnetP2sh(hash: Base58Check.Hasher, p: seq<byte>)
    requires TestnetP2shHash(p)
    requires Base58Check.Checksum(hash, [0xc4] + p) == [0xba, 0x7d, 0x11, 0xad]
    ensures Address.FromScripthash(p, "testnet") == Ok(Address.Address(Address.ScriptHash, p, Networks.Testnet))
    ensures Address.ToString(hash, Address.Address(Address.ScriptHash, p, Networks.Testnet)) == "2NBFNJTktNa7GZusGbDbGKRZTxdK9VVez3n"
  {
    TestnetP2shEncode(p, Base58Check.Checksum(hash, [0xc4] + p), [0xc4] + p + Base58Check.Checksum(hash, [0xc4] + p));
  }

}
