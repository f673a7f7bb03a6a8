/**
 * Segwit addresses (BIP 173, "Segwit address format"; BIP 141, "Witness program"): the first
 * Bech32 data word is the witness version, the rest is the witness program regrouped into 5-bit
 * words.
 */
module Segwit {
  import opened Wrappers
  import opened Radix
  import Bech32
  import BitGroups

  /** The highest witness version. */
  const MaxVersion := 16

  datatype Error =
    | Bech32Failure(bech32Error: Bech32.Error)
    | MissingVersion                         // no data words at all
    | InvalidWitnessVersion                  // version word above 16
    | Regrouping(regroupError: BitGroups.Error)     // excess or non-zero padding
    | InvalidProgramLength

  datatype Program = Program(hrp: string, version: nat, program: seq<byte>)

  /** BIP 141: a program of 2 to 40 bytes, and for version 0 one of exactly 20 or 32 bytes. */
  predicate ValidProgram(version: nat, program: seq<byte>) {
    version <= MaxVersion && 2 <= |program| <= 40 && (version == 0 ==> |program| == 20 || |program| == 32)
  }

  function Nats(ws: seq<Bech32.u5>): (ns: seq<nat>)
    ensures |ns| == |ws| && AllBelow(ns, 32)
  {
    seq(|ws|, i requires 0 <= i < |ws| => ws[i] as nat)
  }

  function Words(ns: seq<nat>): (ws: seq<Bech32.u5>)
    requires AllBelow(ns, 32)
    ensures |ws| == |ns|
  {
    seq(|ns|, i requires 0 <= i < |ns| => ns[i] as Bech32.u5)
  }

  function Bytes(ns: seq<nat>): (bs: seq<byte>)
    requires AllBelow(ns, 256)
    ensures bs == ns
  {
    seq(|ns|, i requires 0 <= i < |ns| => ns[i] as byte)
  }

  /** The number of 5-bit words a program of `n` bytes takes. */
  function ProgramWords(n: nat): nat {
    (8 * n + 4) / 5
  }

  /** The program's bytes spread over 5-bit words, the last one padded with zero bits. */
  function ToWords(program: seq<byte>): (ws: seq<Bech32.u5>)
    ensures |ws| == ProgramWords(|program|)
  {
    BitGroups.Widths();
    BitGroups.ConvertPadded(program, 8, 5);
    WordCount(program);
    Words(BitGroups.ConvertBits(program, 8, 5, true).value)
  }

  lemma WordCount(program: seq<byte>)
    requires BitGroups.ConvertBits(program, 8, 5, true).Ok?
    requires |BitGroups.ConvertBits(program, 8, 5, true).value| * 5 == |program| * 8 + BitGroups.PadBits(|program|, 8, 5)
    ensures |BitGroups.ConvertBits(program, 8, 5, true).value| == ProgramWords(|program|)
  {
    var m := |BitGroups.ConvertBits(program, 8, 5, true).value|;
    var q := BitGroups.PadBits(|program|, 8, 5);
    assert q < 5;
    DivModUnique(8 * |program| + 4, 5, m, 4 - q);
  }

  /** Encodes a witness program; the string must fit the 90 characters Bech32 allows. */
  function Encode(hrp: string, version: nat, program: seq<byte>): (s: string)
    requires Bech32.ValidHrp(hrp) && version < 32
    requires |hrp| + 8 + ProgramWords(|program|) <= Bech32.MaxLength
  {
    Bech32.Encode(hrp, [version as Bech32.u5] + ToWords(program))
  }

  function Decode(s: string): (r: Result<Program, Error>)
    ensures r.Ok? ==> ValidProgram(r.value.version, r.value.program)
  {
    match Bech32.Decode(s)
    case Err(e) => Err(Bech32Failure(e))
    case Ok(d) =>
      if |d.data| == 0 then Err(MissingVersion)
      else if d.data[0] as nat > MaxVersion then Err(InvalidWitnessVersion)
      else
        BitGroups.Widths();
        BitGroups.ConvertUnpadded(Nats(d.data[1..]), 5, 8);
        match BitGroups.ConvertBits(Nats(d.data[1..]), 5, 8, false)
        case Err(e) => Err(Regrouping(e))
        case Ok(bs) =>
          if |bs| < 2 || |bs| > 40 then Err(InvalidProgramLength)
          else if d.data[0] == 0 && |bs| != 20 && |bs| != 32 then Err(InvalidProgramLength)
          else Ok(Program(d.hrp, d.data[0] as nat, Bytes(bs)))
  }

  // ---- round trips ----

  lemma NatsWords(ns: seq<nat>)
    requires AllBelow(ns, 32)
    ensures Nats(Words(ns)) == ns
  {
    forall i | 0 <= i < |ns|
      ensures (ns[i] as Bech32.u5) as nat == ns[i]
    {
      WordOf(ns[i]);
    }
  }

  lemma WordsNats(ws: seq<Bech32.u5>)
    ensures Words(Nats(ws)) == ws
  {
    forall i | 0 <= i < |ws|
      ensures (ws[i] as nat) as Bech32.u5 == ws[i]
    {
      NatOf(ws[i]);
    }
  }

  lemma WordOf(n: nat)
    requires n < 32
    ensures (n as Bech32.u5) as nat == n
  {}

  lemma NatOf(w: Bech32.u5)
    ensures (w as nat) as Bech32.u5 == w
  {}

  /** The regrouped words of a program read back as the program. */
  lemma ProgramOfWords(program: seq<byte>)
    ensures BitGroups.ConvertBits(Nats(ToWords(program)), 5, 8, false) == Ok(program)
  {
    BitGroups.Widths();
    BitGroups.ConvertPadded(program, 8, 5);
    NatsWords(BitGroups.ConvertBits(program, 8, 5, true).value);
    BitGroups.BytesWordsBytes(program);
  }

  /** Words that regroup into a program are the program's regrouped words. */
  lemma WordsOfProgram(ws: seq<Bech32.u5>)
    requires BitGroups.ConvertBits(Nats(ws), 5, 8, false).Ok?
    ensures AllBelow(BitGroups.ConvertBits(Nats(ws), 5, 8, false).value, 256)
    ensures ToWords(Bytes(BitGroups.ConvertBits(Nats(ws), 5, 8, false).value)) == ws
  {
    BitGroups.Widths();
    BitGroups.ConvertUnpadded(Nats(ws), 5, 8);
    BitGroups.WordsBytesWords(Nats(ws));
    WordsNats(ws);
  }

  lemma DecodeAt(s: string, d: Bech32.Decoded, bs: seq<byte>)
    requires Bech32.Decode(s) == Ok(d) && |d.data| > 0
    requires BitGroups.ConvertBits(Nats(d.data[1..]), 5, 8, false) == Ok(bs)
    requires ValidProgram(d.data[0] as nat, bs)
    ensures Decode(s) == Ok(Program(d.hrp, d.data[0] as nat, bs))
  {}

  /** Every encoded witness program decodes to its human-readable part, version and program. */
  lemma DecodeEncode(hrp: string, version: nat, program: seq<byte>)
    requires Bech32.ValidHrp(hrp) && ValidProgram(version, program)
    requires |hrp| + 8 + ProgramWords(|program|) <= Bech32.MaxLength
    ensures Decode(Encode(hrp, version, program)) == Ok(Program(hrp, version, program))
  {
    var ws := ToWords(program);
    var data := [version as Bech32.u5] + ws;
    Bech32.DecodeEncode(hrp, data);
    assert data[1..] == ws;
    WordOf(version);
    ProgramOfWords(program);
    DecodeAt(Encode(hrp, version, program), Bech32.Decoded(hrp, data), program);
  }

  /** What a successful `Decode` read: the Bech32 layer's result and the regrouped program. */
  lemma DecodeOk(s: string)
    requires Decode(s).Ok?
    ensures Bech32.Decode(s).Ok? && |Bech32.Decode(s).value.data| > 0
    ensures BitGroups.ConvertBits(Nats(Bech32.Decode(s).value.data[1..]), 5, 8, false).Ok?
    ensures Decode(s).value.hrp == Bech32.Decode(s).value.hrp
    ensures Decode(s).value.version == Bech32.Decode(s).value.data[0] as nat
    ensures Decode(s).value.program
         == BitGroups.ConvertBits(Nats(Bech32.Decode(s).value.data[1..]), 5, 8, false).value
  {}

  lemma Rebuild(data: seq<Bech32.u5>, version: nat, program: seq<byte>)
    requires |data| > 0 && version == data[0] as nat && ToWords(program) == data[1..]
    ensures data == [version as Bech32.u5] + ToWords(program)
  {
    NatOf(data[0]);
  }

  /** A decoded witness address is the lower-case form of what `Encode` writes for its result. */
  lemma EncodeDecode(s: string)
    requires Decode(s).Ok?
    ensures Bech32.ValidHrp(Decode(s).value.hrp) && Decode(s).value.version < 32
    ensures |Decode(s).value.hrp| + 8 + ProgramWords(|Decode(s).value.program|) == |s| <= Bech32.MaxLength
    ensures Encode(Decode(s).value.hrp, Decode(s).value.version, Decode(s).value.program) == Bech32.Lower(s)
  {
    DecodeOk(s);
    var d := Bech32.Decode(s).value;
    var p := Decode(s).value;
    Bech32.EncodeDecode(s);
    WordsOfProgram(d.data[1..]);
    assert Bytes(BitGroups.ConvertBits(Nats(d.data[1..]), 5, 8, false).value) == p.program;
    Rebuild(d.data, p.version, p.program);
  }

  /** Where the parts of an encoded witness address sit in the string. */
  lemma EncodeShape(hrp: string, version: nat, program: seq<byte>)
    requires Bech32.ValidHrp(hrp) && version < 32
    requires |hrp| + 8 + ProgramWords(|program|) <= Bech32.MaxLength
    ensures |Encode(hrp, version, program)| == |hrp| + 8 + ProgramWords(|program|)
    ensures Encode(hrp, version, program)[..|hrp|] == hrp
    ensures Encode(hrp, version, program)[|hrp| + 1] == Bech32.Charset[version]
    ensures forall k | 0 <= k < ProgramWords(|program|) ::
              Encode(hrp, version, program)[|hrp| + 2 + k] == Bech32.Charset[ToWords(program)[k] as int]
  {
    var ws := ToWords(program);
    var data := [version as Bech32.u5] + ws;
    var all := data + Bech32.CreateChecksum(hrp, data);
    var s := Encode(hrp, version, program);
    assert s == hrp + "1" + Bech32.ToChars(all);
    WordOf(version);
    assert all[0] == version as Bech32.u5;
    forall k | 0 <= k < |ws|
      ensures s[|hrp| + 2 + k] == Bech32.Charset[ws[k] as int]
    {
      assert all[k + 1] == ws[k];
    }
  }

  /** The value of a regrouped program's words ends in as many zero bits as were padded in. */
  lemma WordsPadding(program: seq<byte>)
    ensures FromDigits(Nats(ToWords(program)), 32) % Pow(2, BitGroups.PadBits(|program|, 8, 5)) == 0
  {
    BitGroups.Widths();
    BitGroups.ConvertPadded(program, 8, 5);
    var ns := BitGroups.ConvertBits(program, 8, 5, true).value;
    NatsWords(ns);
    var q := Pow(2, BitGroups.PadBits(|program|, 8, 5));
    DivModUnique(FromDigits(program, 256) * q, q, FromDigits(program, 256), 0);
  }

  /** The padding bits, the low bits of the last word of a regrouped program, are zero. */
  lemma LastWordPadding(program: seq<byte>)
    requires |program| > 0
    ensures |ToWords(program)| > 0
    ensures ToWords(program)[|ToWords(program)| - 1] as nat % Pow(2, BitGroups.PadBits(|program|, 8, 5)) == 0
  {
    var ns := Nats(ToWords(program));
    var pad := BitGroups.PadBits(|program|, 8, 5);
    WordsPadding(program);
    assert |ns| > 0 by {
      assert ProgramWords(|program|) >= 1;
    }
    var x, d := FromDigits(ns[..|ns| - 1], 32), ns[|ns| - 1];
    assert FromDigits(ns, 32) == x * 32 + d;
    var q, c: nat;
    if pad == 0 { q, c := 1, 32; }
    else if pad == 1 { q, c := 2, 16; }
    else if pad == 2 { q, c := 4, 8; }
    else if pad == 3 { q, c := 8, 4; }
    else { q, c := 16, 2; }
    assert q == Pow(2, pad);
    LowDigitMultiple(x, d, q, c);
  }

  lemma LowDigitMultiple(x: nat, d: nat, q: nat, c: nat)
    requires q > 0 && q * c == 32 && (x * 32 + d) % q == 0
    ensures d % q == 0
  {
    var k := (x * 32 + d) / q;
    DivMod(x * 32 + d, q);
    MulAssoc(x, c, q);
    assert d == (k - x * c) * q;
    DivModUnique(d, q, k - x * c, 0);
  }

  /**
   * Text that agrees with a witness address except in its checksum is rejected: the checksum
   * catches a change confined to its last six characters.
   */
  lemma ChecksumDetects(hrp: string, version: nat, program: seq<byte>, s: string)
    requires Bech32.ValidHrp(hrp) && version < 32
    requires |hrp| + 8 + ProgramWords(|program|) <= Bech32.MaxLength
    requires !Bech32.HasUpper(s) && |s| == |hrp| + 8 + ProgramWords(|program|)
    requires s[..|s| - 6] == Encode(hrp, version, program)[..|s| - 6]
    requires s != Encode(hrp, version, program)
    ensures Decode(s).Err?
  {
    Bech32.ChecksumDetects(hrp, [version as Bech32.u5] + ToWords(program), s);
  }

  /**
   * A witness address with one character after its separator replaced by another that is not a
   * separator does not decode.
   */
  lemma SubstitutionDetected(hrp: string, version: nat, program: seq<byte>, s: string, j: nat)
    requires Bech32.ValidHrp(hrp) && version < 32
    requires |hrp| + 8 + ProgramWords(|program|) <= Bech32.MaxLength
    requires !Bech32.HasUpper(s) && |s| == |hrp| + 8 + ProgramWords(|program|)
    requires |hrp| < j < |s| && s[j] != '1' && s[j] != Encode(hrp, version, program)[j]
    requires forall i | 0 <= i < |s| && i != j :: s[i] == Encode(hrp, version, program)[i]
    ensures Decode(s).Err?
  {
    Bech32.SubstitutionDetected(hrp, [version as Bech32.u5] + ToWords(program), s, j);
  }
}
