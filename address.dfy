/**
 * Bitcoin addresses: a hash with its kind and network, written either as a legacy Base58Check
 * string (pay-to-pubkey-hash, pay-to-script-hash) or as a bech32 witness address.
 */
module Address {
  import opened Wrappers
  import opened Networks
  import Radix
  import BitGroups
  import Bech32
  import Base58
  import Base58Check
  import Segwit

  datatype Kind = PubkeyHash | ScriptHash | Witness(version: nat)

  datatype Address = Address(kind: Kind, hash: seq<byte>, network: Network)

  /** Legacy hashes are 20 bytes; a witness address carries a valid witness program. */
  predicate Valid(a: Address) {
    match a.kind
    case PubkeyHash => |a.hash| == 20
    case ScriptHash => |a.hash| == 20
    case Witness(v) => Segwit.ValidProgram(v, a.hash)
  }

  datatype Error =
    | InvalidHashLength
    | UnknownNetwork
    | UnknownHrp
    | UnknownPrefix
    | WitnessFailure(witnessError: Segwit.Error)
    | LegacyFailure(legacyError: Base58Check.Error)
    | Unrecognized(asWitness: Error, asLegacy: Error)

  /** Builds an address of the given kind from a hash that must have `size` bytes. */
  function FromHash(hash: seq<byte>, size: nat, kind: Kind, network: string): (r: Result<Address, Error>)
    ensures |hash| != size ==> r == Err(InvalidHashLength)
    ensures |hash| == size ==> (r.Ok? <==> Lookup(network).Some?)
    ensures r.Ok? ==> r.value == Address(kind, hash, Lookup(network).value)
  {
    if |hash| != size then Err(InvalidHashLength)
    else match Lookup(network)
      case None => Err(UnknownNetwork)
      case Some(n) => Ok(Address(kind, hash, n))
  }

  function FromPubkeyhash(hash: seq<byte>, network: string := "main"): (r: Result<Address, Error>)
    ensures r.Ok? <==> |hash| == 20 && Lookup(network).Some?
    ensures |hash| != 20 ==> r == Err(InvalidHashLength)
    ensures r.Ok? ==> r.value == Address(PubkeyHash, hash, Lookup(network).value) && Valid(r.value)
  {
    FromHash(hash, 20, PubkeyHash, network)
  }

  function FromScripthash(hash: seq<byte>, network: string := "main"): (r: Result<Address, Error>)
    ensures r.Ok? <==> |hash| == 20 && Lookup(network).Some?
    ensures |hash| != 20 ==> r == Err(InvalidHashLength)
    ensures r.Ok? ==> r.value == Address(ScriptHash, hash, Lookup(network).value) && Valid(r.value)
  {
    FromHash(hash, 20, ScriptHash, network)
  }

  function FromWitnessPubkeyhash(hash: seq<byte>, network: string := "main"): (r: Result<Address, Error>)
    ensures r.Ok? <==> |hash| == 20 && Lookup(network).Some?
    ensures |hash| != 20 ==> r == Err(InvalidHashLength)
    ensures r.Ok? ==> r.value == Address(Witness(0), hash, Lookup(network).value) && Valid(r.value)
  {
    FromHash(hash, 20, Witness(0), network)
  }

  function FromWitnessScripthash(hash: seq<byte>, network: string := "main"): (r: Result<Address, Error>)
    ensures r.Ok? <==> |hash| == 32 && Lookup(network).Some?
    ensures |hash| != 32 ==> r == Err(InvalidHashLength)
    ensures r.Ok? ==> r.value == Address(Witness(0), hash, Lookup(network).value) && Valid(r.value)
  {
    FromHash(hash, 32, Witness(0), network)
  }

  /** A witness program of at most 40 bytes fits a two-character human-readable part. */
  lemma Fits(n: nat)
    requires n <= 40
    ensures 2 + 8 + Segwit.ProgramWords(n) <= Bech32.MaxLength
  {
    Radix.DivBound(8 * n + 4, 5, 65);
  }

  /** The address as text: Base58Check for legacy kinds, bech32 for witness programs. */
  function ToString(hash: Base58Check.Hasher, a: Address): string
    requires Valid(a)
  {
    match a.kind
    case PubkeyHash => Base58Check.Encode(hash, Prefix(a.network, PayToPubkeyHash), a.hash)
    case ScriptHash => Base58Check.Encode(hash, Prefix(a.network, PayToScriptHash), a.hash)
    case Witness(v) =>
      FromHrpHrp(a.network);
      Fits(|a.hash|);
      Segwit.Encode(Hrp(a.network), v, a.hash)
  }

  /** Reads a bech32 witness address of a known network. */
  function FromWitnessString(s: string): (r: Result<Address, Error>)
    ensures r.Ok? ==> Valid(r.value) && r.value.kind.Witness?
  {
    match Segwit.Decode(s)
    case Err(e) => Err(WitnessFailure(e))
    case Ok(p) =>
      match FromHrp(p.hrp)
      case None => Err(UnknownHrp)
      case Some(n) => Ok(Address(Witness(p.version), p.program, n))
  }

  /** Reads a Base58Check address whose version byte is a known prefix and whose payload is 20 bytes. */
  function FromLegacyString(hash: Base58Check.Hasher, s: string): (r: Result<Address, Error>)
    ensures r.Ok? ==> Valid(r.value) && !r.value.kind.Witness?
  {
    match Base58Check.Decode(hash, s)
    case Err(e) => Err(LegacyFailure(e))
    case Ok(d) =>
      match FromPrefix(d.version)
      case None => Err(UnknownPrefix)
      case Some(nk) =>
        if |d.payload| != 20 then Err(InvalidHashLength)
        else Ok(Address(if nk.1 == PayToPubkeyHash then PubkeyHash else ScriptHash, d.payload, nk.0))
  }

  /** Reads an address as a witness address, and failing that as a legacy one. */
  function FromString(hash: Base58Check.Hasher, s: string): (r: Result<Address, Error>)
    ensures r.Ok? ==> Valid(r.value)
    ensures r.Err? <==> FromWitnessString(s).Err? && FromLegacyString(hash, s).Err?
  {
    match FromWitnessString(s)
    case Ok(a) => Ok(a)
    case Err(we) =>
      match FromLegacyString(hash, s)
      case Ok(a) => Ok(a)
      case Err(le) => Err(Unrecognized(we, le))
  }

  // ---- round trips ----

  /** The human-readable part of a witness address starts with its first character, lower-cased. */
  lemma HrpFirst(s: string)
    requires Segwit.Decode(s).Ok?
    ensures |s| > 0 && |Segwit.Decode(s).value.hrp| > 0
    ensures Segwit.Decode(s).value.hrp[0] == Bech32.LowerChar(s[0])
  {
    var p := Segwit.Decode(s).value;
    Segwit.EncodeDecode(s);
    Segwit.EncodeShape(p.hrp, p.version, p.program);
    assert p.hrp[0] == Bech32.Lower(s)[..|p.hrp|][0];
  }

  /** A legacy address never reads as a witness address: its first character is no hrp's. */
  lemma LegacyNotWitness(hash: Base58Check.Hasher, a: Address)
    requires Valid(a) && !a.kind.Witness?
    ensures FromWitnessString(ToString(hash, a)).Err?
  {
    var s := ToString(hash, a);
    var kind := if a.kind.PubkeyHash? then PayToPubkeyHash else PayToScriptHash;
    Base58Check.FirstCharacter(hash, Prefix(a.network, kind), a.hash);
    if Segwit.Decode(s).Ok? {
      HrpFirst(s);
      assert FromHrp(Segwit.Decode(s).value.hrp).None?;
    }
  }

  lemma WitnessRoundTrip(hash: Base58Check.Hasher, a: Address)
    requires Valid(a) && a.kind.Witness?
    ensures FromWitnessString(ToString(hash, a)) == Ok(a)
  {
    FromHrpHrp(a.network);
    Fits(|a.hash|);
    Segwit.DecodeEncode(Hrp(a.network), a.kind.version, a.hash);
  }

  lemma LegacyRoundTrip(hash: Base58Check.Hasher, a: Address, kind: LegacyKind)
    requires Valid(a) && a.kind == (if kind == PayToPubkeyHash then PubkeyHash else ScriptHash)
    ensures FromLegacyString(hash, ToString(hash, a)) == Ok(a)
  {
    assert ToString(hash, a) == Base58Check.Encode(hash, Prefix(a.network, kind), a.hash);
    Base58Check.DecodeEncode(hash, Prefix(a.network, kind), a.hash);
    FromPrefixPrefix(a.network, kind);
  }

  /** Every valid address reads back from its text. */
  lemma FromStringToString(hash: Base58Check.Hasher, a: Address)
    requires Valid(a)
    ensures FromString(hash, ToString(hash, a)) == Ok(a)
  {
    if a.kind.Witness? {
      WitnessRoundTrip(hash, a);
    } else {
      LegacyNotWitness(hash, a);
      LegacyRoundTrip(hash, a, if a.kind.PubkeyHash? then PayToPubkeyHash else PayToScriptHash);
    }
  }

  /** Text that reads as a witness address is the lower-case form of that address's text. */
  lemma WitnessCanonical(hash: Base58Check.Hasher, s: string)
    requires FromWitnessString(s).Ok?
    ensures ToString(hash, FromWitnessString(s).value) == Bech32.Lower(s)
  {
    Segwit.EncodeDecode(s);
  }

  /** Text that reads as a legacy address is exactly that address's text. */
  lemma LegacyCanonical(hash: Base58Check.Hasher, s: string)
    requires FromLegacyString(hash, s).Ok?
    ensures ToString(hash, FromLegacyString(hash, s).value) == s
  {
    Base58Check.EncodeDecode(hash, s);
  }

  /**
   * Text that reads as an address is that address's text: the same string for a legacy address,
   * its lower-case form for a witness address.
   */
  lemma ToStringFromString(hash: Base58Check.Hasher, s: string)
    requires FromString(hash, s).Ok?
    ensures ToString(hash, FromString(hash, s).value)
         == if FromString(hash, s).value.kind.Witness? then Bech32.Lower(s) else s
  {
    if FromWitnessString(s).Ok? {
      WitnessCanonical(hash, s);
    } else {
      LegacyCanonical(hash, s);
    }
  }

  // ---- what a string must look like to be read ----

  /** Text that reads as a witness address has ten characters more than its program has words. */
  lemma WitnessLength(s: string, a: Address)
    requires FromWitnessString(s) == Ok(a)
    ensures |s| == 10 + |Segwit.ToWords(a.hash)|
  {
    FromHrpHrp(a.network);
    Segwit.EncodeDecode(s);
  }

  /** A witness program has at least one word. */
  lemma WitnessHasWords(s: string, a: Address)
    requires FromWitnessString(s) == Ok(a)
    ensures |Segwit.ToWords(a.hash)| > 0
  {
    assert |a.hash| >= 2;
    Radix.DivLower(8 * |a.hash| + 4, 5, 1);
  }

  /** Text that reads as a witness address starts with its network's hrp, in either case. */
  lemma WitnessHrp(s: string)
    requires FromWitnessString(s).Ok?
    ensures |s| > 2
    ensures Bech32.LowerChar(s[0]) == Hrp(FromWitnessString(s).value.network)[0]
    ensures Bech32.LowerChar(s[1]) == Hrp(FromWitnessString(s).value.network)[1]
  {
    var p := Segwit.Decode(s).value;
    FromHrpHrp(FromWitnessString(s).value.network);
    Segwit.EncodeDecode(s);
    Segwit.EncodeShape(p.hrp, p.version, p.program);
    var t := Bech32.Lower(s);
    assert t[..2] == p.hrp;
    assert t[0] == t[..2][0] && t[1] == t[..2][1];
  }

  /** The character after the separator stands for the witness version. */
  lemma WitnessVersion(s: string)
    requires FromWitnessString(s).Ok?
    ensures |s| > 3
    ensures Bech32.LowerChar(s[3]) == Bech32.Charset[FromWitnessString(s).value.kind.version]
  {
    var p := Segwit.Decode(s).value;
    FromHrpHrp(FromWitnessString(s).value.network);
    Segwit.EncodeDecode(s);
    Segwit.EncodeShape(p.hrp, p.version, p.program);
  }

  /** The characters after the version stand for the program's words, one each. */
  lemma WitnessWord(s: string, a: Address, k: nat)
    requires FromWitnessString(s) == Ok(a) && k < |Segwit.ToWords(a.hash)|
    ensures 4 + k < |s|
    ensures Bech32.LowerChar(s[4 + k]) == Bech32.Charset[Segwit.ToWords(a.hash)[k] as int]
  {
    var p := Segwit.Decode(s).value;
    FromHrpHrp(a.network);
    Segwit.EncodeDecode(s);
    Segwit.EncodeShape(p.hrp, p.version, p.program);
  }

  /** The last data character, the one before the six of the checksum, stands for the last word. */
  lemma WitnessLastWord(s: string, a: Address)
    requires FromWitnessString(s) == Ok(a)
    ensures |Segwit.ToWords(a.hash)| > 0 && |s| == 10 + |Segwit.ToWords(a.hash)|
    ensures Bech32.LowerChar(s[|s| - 7]) == Bech32.Charset[Segwit.ToWords(a.hash)[|Segwit.ToWords(a.hash)| - 1] as int]
  {
    var ws := Segwit.ToWords(a.hash);
    WitnessHasWords(s, a);
    WitnessLength(s, a);
    WitnessWord(s, a, |ws| - 1);
    LastWordAt(s, ws, |ws| - 1);
  }

  lemma LastWordAt(s: string, ws: seq<Bech32.u5>, k: nat)
    requires |ws| == k + 1 && |s| == 10 + |ws|
    requires Bech32.LowerChar(s[4 + k]) == Bech32.Charset[ws[k] as int]
    ensures Bech32.LowerChar(s[|s| - 7]) == Bech32.Charset[ws[|ws| - 1] as int]
  {}

  /**
   * The last data character of text that reads as a witness address stands for a word whose
   * padding bits are zero.
   */
  lemma WitnessPadding(s: string)
    requires FromWitnessString(s).Ok?
    ensures |s| > 7 && Bech32.CharValue(Bech32.LowerChar(s[|s| - 7])).Some?
    ensures Bech32.CharValue(Bech32.LowerChar(s[|s| - 7])).value as nat
            % Radix.Pow(2, BitGroups.PadBits(|FromWitnessString(s).value.hash|, 8, 5)) == 0
  {
    var program := FromWitnessString(s).value.hash;
    var ws := Segwit.ToWords(program);
    WitnessLastWord(s, FromWitnessString(s).value);
    Segwit.LastWordPadding(program);
    Bech32.CharsetTable(ws[|ws| - 1]);
  }

  /** Text that reads as a witness address is not in mixed case. */
  lemma WitnessCase(s: string)
    requires FromWitnessString(s).Ok?
    ensures !(Bech32.HasUpper(s) && Bech32.HasLower(s))
  {
    Segwit.DecodeOk(s);
  }

  /** A character outside the base-58 alphabet rules out a legacy address. */
  lemma LegacyBadCharacter(hash: Base58Check.Hasher, s: string, i: nat)
    requires i < |s| && Base58.DigitValue(s[i]).None?
    ensures FromLegacyString(hash, s).Err?
  {}

  /** A legacy address is at least 25 characters long: a version byte, 20 bytes and a checksum. */
  lemma LegacyTooShort(hash: Base58Check.Hasher, s: string)
    requires |s| < 25
    ensures FromLegacyString(hash, s).Err?
  {
    if Base58.Decode(s).Ok? {
      Base58.DecodeLength(s);
    }
  }
}
