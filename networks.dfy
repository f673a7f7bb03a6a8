/**
 * The networks an address can belong to, with the constants each one writes into its addresses:
 * the bech32 human-readable part and the two Base58Check version bytes.
 */
module Networks {
  import opened Wrappers
  import Bech32

  datatype Network = Main | Testnet

  /** The two kinds of legacy (Base58Check) address. */
  datatype LegacyKind = PayToPubkeyHash | PayToScriptHash

  /** The name a caller passes to pick a network. */
  function Name(n: Network): string {
    match n
    case Main => "main"
    case Testnet => "testnet"
  }

  /** The network a name picks, if it is a known one. */
  function Lookup(name: string): (r: Option<Network>)
    ensures r.Some? <==> name == "main" || name == "testnet"
    ensures r.Some? ==> Name(r.value) == name
  {
    if name == "main" then Some(Main)
    else if name == "testnet" then Some(Testnet)
    else None
  }

  /** The human-readable part of the network's witness addresses. */
  function Hrp(n: Network): string {
    match n
    case Main => "bc"
    case Testnet => "tb"
  }

  /** The network whose witness addresses carry `hrp`, if any. */
  function FromHrp(hrp: string): (r: Option<Network>)
    ensures r.Some? <==> hrp == "bc" || hrp == "tb"
    ensures r.Some? ==> Hrp(r.value) == hrp
  {
    if hrp == "bc" then Some(Main)
    else if hrp == "tb" then Some(Testnet)
    else None
  }

  /** The version byte of a legacy address of the given network and kind. */
  function Prefix(n: Network, kind: LegacyKind): byte {
    match (n, kind)
    case (Main, PayToPubkeyHash) => 0x00
    case (Main, PayToScriptHash) => 0x05
    case (Testnet, PayToPubkeyHash) => 0x6f
    case (Testnet, PayToScriptHash) => 0xc4
  }

  /** The network and kind a legacy version byte stands for, if any. */
  function FromPrefix(b: byte): (r: Option<(Network, LegacyKind)>)
    ensures r.Some? <==> b in {0x00, 0x05, 0x6f, 0xc4}
    ensures r.Some? ==> Prefix(r.value.0, r.value.1) == b
  {
    if b == 0x00 then Some((Main, PayToPubkeyHash))
    else if b == 0x05 then Some((Main, PayToScriptHash))
    else if b == 0x6f then Some((Testnet, PayToPubkeyHash))
    else if b == 0xc4 then Some((Testnet, PayToScriptHash))
    else None
  }

  lemma LookupName(n: Network)
    ensures Lookup(Name(n)) == Some(n)
  {}

  /** A known network's human-readable part leads back to it, and the codec accepts it. */
  lemma FromHrpHrp(n: Network)
    ensures FromHrp(Hrp(n)) == Some(n)
    ensures Bech32.ValidHrp(Hrp(n)) && |Hrp(n)| == 2
  {}

  /** Each version byte stands for exactly one network and kind. */
  lemma FromPrefixPrefix(n: Network, kind: LegacyKind)
    ensures FromPrefix(Prefix(n, kind)) == Some((n, kind))
  {}

  /** No two networks share a human-readable part or a version byte. */
  lemma Distinct(n: Network, m: Network, k: LegacyKind, l: LegacyKind)
    ensures Hrp(n) == Hrp(m) ==> n == m
    ensures Prefix(n, k) == Prefix(m, l) ==> n == m && k == l
  {
    FromPrefixPrefix(n, k);
    FromPrefixPrefix(m, l);
    FromHrpHrp(n);
    FromHrpHrp(m);
  }
}
