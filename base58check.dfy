/**
 * Base58Check: a version byte and a payload, followed by the first four bytes of the double SHA-256
 * digest of those bytes, all written as base-58 text.
 */
module Base58Check {
  import opened Wrappers
  import opened Radix
  import Base58

  /** A 32-byte digest. */
  type Digest = d: seq<byte> | |d| == 32 witness Zeros(32)

  /** Double SHA-256. The hash is a parameter of the model: it is not computed here. */
  type Hasher = seq<byte> -> Digest

  /** The four check bytes for `body`. */
  function Checksum(hash: Hasher, body: seq<byte>): (c: seq<byte>)
    ensures |c| == 4
  {
    hash(body)[..4]
  }

  function Encode(hash: Hasher, version: byte, payload: seq<byte>): string {
    var body := [version] + payload;
    Base58.Encode(body + Checksum(hash, body))
  }

  datatype Error =
    | InvalidCharacter(position: nat)
    | Truncated          // too few bytes for a version byte and the four check bytes
    | ChecksumMismatch

  datatype Decoded = Decoded(version: byte, payload: seq<byte>)

  function Decode(hash: Hasher, s: string): (r: Result<Decoded, Error>)
    ensures r.Err? && r.error.InvalidCharacter? <==> Base58.Decode(s).Err?
    ensures r.Ok? ==> Base58.Decode(s).Ok? && |Base58.Decode(s).value| == |r.value.payload| + 5
  {
    match Base58.Decode(s)
    case Err(e) => Err(InvalidCharacter(e.position))
    case Ok(bs) =>
      if |bs| < 5 then Err(Truncated)
      else
        var body := bs[..|bs| - 4];
        if Checksum(hash, body) != bs[|bs| - 4..] then Err(ChecksumMismatch)
        else Ok(Decoded(body[0], body[1..]))
  }

  /** Decoding what `Encode` writes gives back the version byte and the payload. */
  lemma DecodeEncode(hash: Hasher, version: byte, payload: seq<byte>)
    ensures Decode(hash, Encode(hash, version, payload)) == Ok(Decoded(version, payload))
  {
    var body := [version] + payload;
    var bs := body + Checksum(hash, body);
    Base58.DecodeEncode(bs);
    assert bs[..|bs| - 4] == body;
    assert bs[|bs| - 4..] == Checksum(hash, body);
  }

  /** A string that decodes is the text `Encode` writes for what it decodes to. */
  lemma EncodeDecode(hash: Hasher, s: string)
    requires Decode(hash, s).Ok?
    ensures Encode(hash, Decode(hash, s).value.version, Decode(hash, s).value.payload) == s
  {
    var bs := Base58.Decode(s).value;
    var body := bs[..|bs| - 4];
    assert [body[0]] + body[1..] == body;
    assert body + bs[|bs| - 4..] == bs;
    Base58.EncodeDecode(s);
  }

  /** A decoded string carries the check bytes of what it decodes to. */
  lemma DecodeChecked(hash: Hasher, s: string)
    requires Decode(hash, s).Ok?
    ensures var d := Decode(hash, s).value;
      Base58.Decode(s).value == [d.version] + d.payload + Checksum(hash, [d.version] + d.payload)
  {
    var bs := Base58.Decode(s).value;
    var body := bs[..|bs| - 4];
    assert [body[0]] + body[1..] == body;
    assert body + bs[|bs| - 4..] == bs;
  }

  // ---- the first character of a 25-byte encoding ----

  const Pow2To192: nat := 6277101735386680763835789423207666416102355444464034512896
  const Pow58To33: nat := 15599970876632771988160814054146447252125923204784443097088
  const Pow58To34: nat := 904798310844700775313327215140493940623303545877497699631104

  lemma Powers()
    ensures Pow(256, 24) == Pow2To192
    ensures Pow(58, 33) == Pow58To33
    ensures Pow(58, 34) == Pow58To34
  {
    var a := PowDouble(256, 3, 16777216);
    var b := PowDouble(256, 6, a);
    var c := PowDouble(256, 12, b);
    var d := PowDouble(58, 2, 3364);
    var e := PowDouble(58, 4, d);
    var f := PowDouble(58, 8, e);
    var g := PowDouble(58, 16, f);
    PowSucc(58, 32);
    PowSucc(58, 33);
  }

  lemma PowDouble(b: nat, k: nat, v: nat) returns (w: nat)
    requires Pow(b, k) == v
    ensures w == v * v && Pow(b, 2 * k) == w
  {
    PowAdd(b, k, k);
    w := v * v;
  }

  /** A non-zero first byte followed by 24 more: the number the bytes spell lies in the version's band. */
  lemma BodyValue(version: byte, rest: seq<byte>)
    requires version != 0 && |rest| == 24
    ensures Base58.LeadingZeros([version] + rest) == 0
    ensures version * Pow2To192 <= FromDigits(([version] + rest)[0..], 256) < (version + 1) * Pow2To192
  {
    var bs := [version] + rest;
    assert bs[0..] == bs;
    FromDigitsCons(version, rest, 256);
    FromDigitsBound(rest, 256);
    Powers();
  }

  /** The first base-58 digit of a number in a given band. */
  lemma FirstDigit(n: nat, k: nat, p: nat, lo: nat, hi: nat)
    requires 1 <= lo <= hi < 58 && Pow(58, k) == p
    requires lo * p <= n < (hi + 1) * p
    ensures |ToDigits(n, 58)| == k + 1 && lo <= ToDigits(n, 58)[0] <= hi
  {
    MulLe(1, lo, p);
    MulLe(hi + 1, 58, p);
    PowSucc(58, k);
    LeadingDigit(n, 58, k);
    DivLower(n, p, lo);
    DivBound(n, p, hi + 1);
  }

  /**
   * The first character of a legacy address for a 20-byte payload: '1' for version 0x00, '3' for
   * 0x05, 'm' or 'n' for 0x6f and '2' for 0xc4.
   */
  lemma FirstCharacter(hash: Hasher, version: byte, payload: seq<byte>)
    requires |payload| == 20
    ensures |Encode(hash, version, payload)| > 0
    ensures version == 0x00 ==> Encode(hash, version, payload)[0] == '1'
    ensures version == 0x05 ==> Encode(hash, version, payload)[0] == '3'
    ensures version == 0x6f ==> Encode(hash, version, payload)[0] in {'m', 'n'}
    ensures version == 0xc4 ==> Encode(hash, version, payload)[0] == '2'
  {
    var rest := payload + Checksum(hash, [version] + payload);
    var bs := [version] + rest;
    assert bs == [version] + payload + Checksum(hash, [version] + payload);
    Base58.EncodeFirst(bs);
    if version != 0 {
      BodyValue(version, rest);
      assert bs[0..] == bs;
      var n := FromDigits(bs, 256);
      Powers();
      if version == 0x05 {
        FirstDigit(n, 33, Pow58To33, 2, 2);
      } else if version == 0x6f {
        FirstDigit(n, 33, Pow58To33, 44, 45);
      } else if version == 0xc4 {
        FirstDigit(n, 34, Pow58To34, 1, 1);
      }
    }
  }
}
