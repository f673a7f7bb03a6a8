/**
 * The strings the address reader must turn down. None of them reads as a witness address, each
 * breaking one rule of the witness format, and none reads as a legacy address: each holds a
 * character outside the base-58 alphabet or is too short for Base58Check.
 */
module Rejections {
  import opened Wrappers
  import opened Networks
  import Radix
  import BitGroups
  import Bech32
  import Segwit
  import Base58Check
  import Address
  import WitnessVectors

  /** test/address-test.js:132-135: "tc" is the human-readable part of neither network. */
  lemma UnknownHrp(hash: Base58Check.Hasher, s: string)
    requires s == "tc1qw508d6qejxtdg4y5r3zarvary0c5xw7kg3g4ty"
    ensures Address.FromString(hash, s).Err?
  {
    UnknownHrpWitness(s);
    UnknownHrpLegacy(hash, s);
  }

  lemma UnknownHrpWitness(s: string)
    requires s == "tc1qw508d6qejxtdg4y5r3zarvary0c5xw7kg3g4ty"
    ensures Address.FromWitnessString(s).Err?
  {
    assert s[0] == 't' && s[1] == 'c';
    if Address.FromWitnessString(s).Ok? {
      Address.WitnessHrp(s);
      assert false;
    }
  }

  /** The '0' at position 6 is no base-58 digit. */
  lemma UnknownHrpLegacy(hash: Base58Check.Hasher, s: string)
    requires s == "tc1qw508d6qejxtdg4y5r3zarvary0c5xw7kg3g4ty"
    ensures Address.FromLegacyString(hash, s).Err?
  {
    assert s[6] == '0';
    Address.LegacyBadCharacter(hash, s, 6);
  }

  /** test/address-test.js:137-140: the last character of a valid address is changed, and the checksum no longer matches. */
  lemma BadChecksum(hash: Base58Check.Hasher, s: string)
    requires s == "bc1qw508d6qejxtdg4y5r3zarvary0c5xw7kv8f3t5"
    ensures Address.FromString(hash, s).Err?
  {
    BadChecksumWitness(s);
    BadChecksumLegacy(hash, s);
  }

  lemma BadChecksumWitness(s: string)
    requires s == "bc1qw508d6qejxtdg4y5r3zarvary0c5xw7kv8f3t5"
    ensures Address.FromWitnessString(s).Err?
  {
    BadText(s);
    BadTextCase(s);
    ChangedChecksum(s);
  }

  /** The '0' at position 6 is no base-58 digit. */
  lemma BadChecksumLegacy(hash: Base58Check.Hasher, s: string)
    requires s == "bc1qw508d6qejxtdg4y5r3zarvary0c5xw7kv8f3t5"
    ensures Address.FromLegacyString(hash, s).Err?
  {
    assert s[6] == '0';
    Address.LegacyBadCharacter(hash, s, 6);
  }

  /** test/address-test.js:142-145: the version character '3' stands for 17, above 16. */
  lemma BadVersion(hash: Base58Check.Hasher, s: string)
    requires s == "BC13W508D6QEJXTDG4Y5R3ZARVARY0C5XW7KN40WF2"
    ensures Address.FromString(hash, s).Err?
  {
    BadVersionWitness(s);
    BadVersionLegacy(hash, s);
  }

  lemma BadVersionWitness(s: string)
    requires s == "BC13W508D6QEJXTDG4Y5R3ZARVARY0C5XW7KN40WF2"
    ensures Address.FromWitnessString(s).Err?
  {
    assert s[3] == '3';
    VersionCharacters();
    if Address.FromWitnessString(s).Ok? {
      Address.WitnessVersion(s);
      assert false;
    }
  }

  /** '3' is the character of 17, beyond the last witness version. */
  lemma VersionCharacters()
    ensures forall v: nat | v <= Segwit.MaxVersion :: Bech32.Charset[v] != '3'
  {}

  /** The '0' at position 6 is no base-58 digit. */
  lemma BadVersionLegacy(hash: Base58Check.Hasher, s: string)
    requires s == "BC13W508D6QEJXTDG4Y5R3ZARVARY0C5XW7KN40WF2"
    ensures Address.FromLegacyString(hash, s).Err?
  {
    assert s[6] == '0';
    Address.LegacyBadCharacter(hash, s, 6);
  }

  /** test/address-test.js:147-150: two data characters hold a one-byte program, and a program has at least two. */
  lemma ProgramTooShort(hash: Base58Check.Hasher, s: string)
    requires s == "bc1rw5uspcuh"
    ensures Address.FromString(hash, s).Err?
  {
    ProgramTooShortWitness(s);
    ProgramTooShortLegacy(hash, s);
  }

  lemma ProgramTooShortWitness(s: string)
    requires s == "bc1rw5uspcuh"
    ensures Address.FromWitnessString(s).Err?
  {
    if Address.FromWitnessString(s).Ok? {
      Address.WitnessLength(s, Address.FromWitnessString(s).value);
      assert false;
    }
  }

  /** Twelve characters are too few for Base58Check's 25 bytes. */
  lemma ProgramTooShortLegacy(hash: Base58Check.Hasher, s: string)
    requires s == "bc1rw5uspcuh"
    ensures Address.FromLegacyString(hash, s).Err?
  {
    Address.LegacyTooShort(hash, s);
  }

  /** test/address-test.js:152-156: the data characters hold a 41-byte program, and a program has at most 40. */
  lemma ProgramTooLong(hash: Base58Check.Hasher, s: string)
    requires s == "bc10w508d6qejxtdg4y5r3zarvary0c5xw7kw5" + "08d6qejxtdg4y5r3zarvary0c5xw7kw5rljs90"
    ensures Address.FromString(hash, s).Err?
  {
    ProgramTooLongWitness(s);
    ProgramTooLongLegacy(hash, s);
  }

  lemma ProgramTooLongWitness(s: string)
    requires s == "bc10w508d6qejxtdg4y5r3zarvary0c5xw7kw5" + "08d6qejxtdg4y5r3zarvary0c5xw7kw5rljs90"
    ensures Address.FromWitnessString(s).Err?
  {
    assert |s| == 76;
    if Address.FromWitnessString(s).Ok? {
      Address.WitnessLength(s, Address.FromWitnessString(s).value);
      assert false;
    }
  }

  /** The '0' at position 3 is no base-58 digit. */
  lemma ProgramTooLongLegacy(hash: Base58Check.Hasher, s: string)
    requires s == "bc10w508d6qejxtdg4y5r3zarvary0c5xw7kw5" + "08d6qejxtdg4y5r3zarvary0c5xw7kw5rljs90"
    ensures Address.FromLegacyString(hash, s).Err?
  {
    assert s[3] == '0';
    Address.LegacyBadCharacter(hash, s, 3);
  }

  /** test/address-test.js:158-161 and 169-172: 22 data characters are 110 bits, more than four bits beyond a whole number of bytes, so they are no program's words. */
  lemma ExcessPadding(hash: Base58Check.Hasher, s: string)
    requires s == "tb1pw508d6qejxtdg4y5r3zarqfsj6c3"
    ensures Address.FromString(hash, s).Err?
  {
    ExcessPaddingWitness(s);
    ExcessPaddingLegacy(hash, s);
  }

  lemma ExcessPaddingWitness(s: string)
    requires s == "tb1pw508d6qejxtdg4y5r3zarqfsj6c3"
    ensures Address.FromWitnessString(s).Err?
  {
    assert |s| == 32;
    NoProgramOf22Words();
    if Address.FromWitnessString(s).Ok? {
      Address.WitnessLength(s, Address.FromWitnessString(s).value);
      assert false;
    }
  }

  /** The '0' at position 6 is no base-58 digit. */
  lemma ExcessPaddingLegacy(hash: Base58Check.Hasher, s: string)
    requires s == "tb1pw508d6qejxtdg4y5r3zarqfsj6c3"
    ensures Address.FromLegacyString(hash, s).Err?
  {
    assert s[6] == '0';
    Address.LegacyBadCharacter(hash, s, 6);
  }

  /** test/address-test.js:163-167: one upper-case letter among lower-case ones. */
  lemma MixedCase(hash: Base58Check.Hasher, s: string)
    requires s == "tb1qrp33g0q5c5txsp9arysrx4k6z" + "dkfs4nce4xj0gdcccefvpysxf3q0sL5k7"
    ensures Address.FromString(hash, s).Err?
  {
    MixedCaseWitness(s);
    MixedCaseLegacy(hash, s);
  }

  lemma MixedCaseWitness(s: string)
    requires s == "tb1qrp33g0q5c5txsp9arysrx4k6z" + "dkfs4nce4xj0gdcccefvpysxf3q0sL5k7"
    ensures Address.FromWitnessString(s).Err?
  {
    assert Bech32.IsLower(s[0]) && Bech32.IsUpper(s[58]);
    if Address.FromWitnessString(s).Ok? {
      Address.WitnessCase(s);
      assert false;
    }
  }

  /** The '0' at position 9 is no base-58 digit. */
  lemma MixedCaseLegacy(hash: Base58Check.Hasher, s: string)
    requires s == "tb1qrp33g0q5c5txsp9arysrx4k6z" + "dkfs4nce4xj0gdcccefvpysxf3q0sL5k7"
    ensures Address.FromLegacyString(hash, s).Err?
  {
    assert s[9] == '0';
    Address.LegacyBadCharacter(hash, s, 9);
  }

  /** test/address-test.js:174-178: the last of the 52 words of a 32-byte program carries four padding bits, and its character 'p' stands for 1, whose lowest bit is set. */
  lemma NonZeroPadding(hash: Base58Check.Hasher, s: string)
    requires s == "tb1qrp33g0q5c5txsp9arysrx4k6" + "zdkfs4nce4xj0gdcccefvpysxf3pjxtptv"
    ensures Address.FromString(hash, s).Err?
  {
    NonZeroPaddingWitness(s);
    NonZeroPaddingLegacy(hash, s);
  }

  lemma NonZeroPaddingWitness(s: string)
    requires s == "tb1qrp33g0q5c5txsp9arysrx4k6" + "zdkfs4nce4xj0gdcccefvpysxf3pjxtptv"
    ensures Address.FromWitnessString(s).Err?
  {
    assert |s| == 62 && s[55] == 'p';
    PadOf32();
    ProgramOf52Words();
    Segwit.WordOf(1);
    assert Bech32.CharValue(Bech32.LowerChar(s[|s| - 7])).value as nat == 1;
    if Address.FromWitnessString(s).Ok? {
      Address.WitnessLength(s, Address.FromWitnessString(s).value);
      Address.WitnessPadding(s);
      assert false;
    }
  }

  /** The '0' at position 9 is no base-58 digit. */
  lemma NonZeroPaddingLegacy(hash: Base58Check.Hasher, s: string)
    requires s == "tb1qrp33g0q5c5txsp9arysrx4k6" + "zdkfs4nce4xj0gdcccefvpysxf3pjxtptv"
    ensures Address.FromLegacyString(hash, s).Err?
  {
    assert s[9] == '0';
    Address.LegacyBadCharacter(hash, s, 9);
  }

  lemma BadText(s: string)
    requires s == "bc1qw508d6qejxtdg4y5r3zarvary0c5xw7kv8f3t5"
    ensures |s| == 42 && s[..36] == "bc1qw508d6qejxtdg4y5r3zarvary0c5xw7k" && s[41] == '5'
  {}

  lemma BadTextCase(s: string)
    requires s == "bc1qw508d6qejxtdg4y5r3zarvary0c5xw7kv8f3t5"
    ensures !Bech32.HasUpper(s)
  {
    forall i | 0 <= i < |s| ensures !Bech32.IsUpper(s[i]) {}
  }

  /**
   * Text in lower case that agrees with the mainnet pay-to-witness-pubkey-hash vector in all but
   * its last character is not read.
   */
  lemma ChangedChecksum(s: string)
    requires |s| == 42 && !Bech32.HasUpper(s)
    requires s[..36] == "bc1qw508d6qejxtdg4y5r3zarvary0c5xw7k" && s[41] != '4'
    ensures Address.FromWitnessString(s).Err?
  {
    SomeWpkhProgram();
    var p :| WitnessVectors.WpkhProgram(p);
    GoodPrefix(p);
    Segwit.ChecksumDetects("bc", 0, p, s);
  }

  lemma SomeWpkhProgram()
    ensures exists p :: WitnessVectors.WpkhProgram(p)
  {
    assert WitnessVectors.WpkhProgram([0x75, 0x1e, 0x76, 0xe8, 0x19, 0x91, 0x96, 0xd4, 0x54, 0x94,
                                       0x1c, 0x45, 0xd1, 0xb3, 0xa3, 0x23, 0xf1, 0x43, 0x3b, 0xd6]);
  }

  /** The valid address the changed one comes from. */
  lemma GoodPrefix(p: seq<byte>)
    requires WitnessVectors.WpkhProgram(p)
    ensures Segwit.ProgramWords(|p|) == 32
    ensures Segwit.Encode("bc", 0, p)[..36] == "bc1qw508d6qejxtdg4y5r3zarvary0c5xw7k"
    ensures Segwit.Encode("bc", 0, p)[41] == '4'
  {
    WitnessVectors.MainnetP2wpkhText(p);
    GoodText(Segwit.Encode("bc", 0, p));
  }

  lemma GoodText(e: string)
    requires e == "bc1qw508d6qejxtdg4y5r3zarvary0c5xw7kv8f3t4"
    ensures e[..36] == "bc1qw508d6qejxtdg4y5r3zarvary0c5xw7k" && e[41] == '4'
  {}

  lemma NoProgramOf22Words()
    ensures forall n: nat :: Segwit.ProgramWords(n) != 22
  {}

  lemma ProgramOf52Words()
    ensures forall n: nat :: Segwit.ProgramWords(n) == 52 ==> n == 32
  {}

  lemma PadOf32()
    ensures BitGroups.PadBits(32, 8, 5) == 4 && Radix.Pow(2, 4) == 16
  {}
}
