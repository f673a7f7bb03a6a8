/**
 * Base-58 text for byte strings, with Bitcoin's alphabet (digits and letters without '0', 'O', 'I'
 * and 'l'): the bytes after the leading zero bytes are read as one big-endian number and written in
 * base 58, and each leading zero byte becomes one leading '1', the digit for zero.
 */
module Base58 {
  import opened Wrappers
  import opened Radix

  /** The character for each digit value, by ranges of the alphabet. */
  function DigitChar(d: nat): char
    requires d < 58
  {
    if d < 9 then ('1' as int + d) as char
    else if d < 17 then ('A' as int + (d - 9)) as char
    else if d < 22 then ('J' as int + (d - 17)) as char
    else if d < 33 then ('P' as int + (d - 22)) as char
    else if d < 44 then ('a' as int + (d - 33)) as char
    else ('m' as int + (d - 44)) as char
  }

  const Alphabet: string := seq(58, i requires 0 <= i < 58 => DigitChar(i))

  /** The digit value of an alphabet character, or `None` for any other character. */
  function DigitValue(c: char): Option<nat> {
    if '1' <= c <= '9' then Some(c as int - '1' as int)
    else if 'A' <= c <= 'H' then Some(c as int - 'A' as int + 9)
    else if 'J' <= c <= 'N' then Some(c as int - 'J' as int + 17)
    else if 'P' <= c <= 'Z' then Some(c as int - 'P' as int + 22)
    else if 'a' <= c <= 'k' then Some(c as int - 'a' as int + 33)
    else if 'm' <= c <= 'z' then Some(c as int - 'm' as int + 44)
    else None
  }

  /** The alphabet written out: the digits 1-9, then the letters that are kept. */
  lemma AlphabetLiteral()
    ensures Alphabet == "123456789" + "ABCDEFGH" + "JKLMN" + "PQRSTUVWXYZ" + "abcdefghijk" + "mnopqrstuvwxyz"
  {
    assert Alphabet[..9] == "123456789";
    assert Alphabet[9..17] == "ABCDEFGH";
    assert Alphabet[17..22] == "JKLMN";
    assert Alphabet[22..33] == "PQRSTUVWXYZ";
    assert Alphabet[33..44] == "abcdefghijk";
    assert Alphabet[44..] == "mnopqrstuvwxyz";
    assert Alphabet == Alphabet[..9] + Alphabet[9..17] + Alphabet[17..22] + Alphabet[22..33] + Alphabet[33..44] + Alphabet[44..];
  }

  lemma DigitTable(d: nat)
    requires d < 58
    ensures DigitValue(DigitChar(d)) == Some(d)
    ensures Alphabet[d] == DigitChar(d)
  {}

  lemma CharTable(c: char)
    requires DigitValue(c).Some?
    ensures DigitValue(c).value < 58 && DigitChar(DigitValue(c).value) == c
  {}

  /** The number of leading zero bytes. */
  function LeadingZeros(bs: seq<byte>): (k: nat)
    ensures k <= |bs|
    ensures forall i | 0 <= i < k :: bs[i] == 0
    ensures k < |bs| ==> bs[k] != 0
  {
    if bs == [] || bs[0] != 0 then 0 else 1 + LeadingZeros(bs[1..])
  }

  /** The number of leading '1' characters. */
  function LeadingOnes(s: string): (k: nat)
    ensures k <= |s|
    ensures forall i | 0 <= i < k :: s[i] == '1'
    ensures k < |s| ==> s[k] != '1'
  {
    if s == [] || s[0] != '1' then 0 else 1 + LeadingOnes(s[1..])
  }

  /** The position of the first character outside the alphabet, if any. */
  function FirstInvalid(s: string): (r: Option<nat>)
    ensures r.None? <==> forall i | 0 <= i < |s| :: DigitValue(s[i]).Some?
    ensures r.Some? ==>
              r.value < |s| && DigitValue(s[r.value]).None? && forall i | 0 <= i < r.value :: DigitValue(s[i]).Some?
  {
    if s == [] then None
    else if DigitValue(s[0]).None? then Some(0)
    else match FirstInvalid(s[1..]) {
      case None => None
      case Some(k) => Some(k + 1)
    }
  }

  function Chars(ds: seq<nat>): (s: string)
    requires AllBelow(ds, 58)
    ensures |s| == |ds|
  {
    seq(|ds|, i requires 0 <= i < |ds| => DigitChar(ds[i]))
  }

  function Values(s: string): (ds: seq<nat>)
    requires forall i | 0 <= i < |s| :: DigitValue(s[i]).Some?
    ensures |ds| == |s|
  {
    seq(|s|, i requires 0 <= i < |s| => DigitValue(s[i]).value)
  }

  function Ones(n: nat): (s: string)
    ensures |s| == n
  {
    seq(n, _ => '1')
  }

  function Encode(bs: seq<byte>): string {
    var z := LeadingZeros(bs);
    Ones(z) + Chars(ToDigits(FromDigits(bs[z..], 256), 58))
  }

  datatype Error = InvalidCharacter(position: nat)

  function Decode(s: string): (r: Result<seq<byte>, Error>)
    ensures r.Ok? <==> forall i | 0 <= i < |s| :: DigitValue(s[i]).Some?
    ensures r.Err? ==> r.error.position < |s| && DigitValue(s[r.error.position]).None?
  {
    match FirstInvalid(s)
    case Some(i) => Err(InvalidCharacter(i))
    case None =>
      var z := LeadingOnes(s);
      var n := FromDigits(Values(s[z..]), 58);
      Ok(Zeros(z) + Bytes(ToDigits(n, 256)))
  }

  /** Digits below 256 as bytes. */
  function Bytes(ds: seq<nat>): (bs: seq<byte>)
    requires AllBelow(ds, 256)
    ensures bs == ds
  {
    seq(|ds|, i requires 0 <= i < |ds| => ds[i] as byte)
  }

  // ---- round trips ----

  lemma DigitOne(d: nat)
    requires d < 58
    ensures DigitChar(d) == '1' <==> d == 0
  {}

  lemma LeadingOnesExact(s: string, z: nat)
    requires z <= |s| && forall i | 0 <= i < z :: s[i] == '1'
    requires z < |s| ==> s[z] != '1'
    ensures LeadingOnes(s) == z
  {
  }

  lemma LeadingZerosExact(bs: seq<byte>, z: nat)
    requires z <= |bs| && forall i | 0 <= i < z :: bs[i] == 0
    requires z < |bs| ==> bs[z] != 0
    ensures LeadingZeros(bs) == z
  {
  }

  lemma ValuesOfChars(ds: seq<nat>)
    requires AllBelow(ds, 58)
    ensures forall i | 0 <= i < |ds| :: DigitValue(Chars(ds)[i]).Some?
    ensures Values(Chars(ds)) == ds
  {
    forall i | 0 <= i < |ds|
      ensures DigitValue(Chars(ds)[i]) == Some(ds[i])
    {
      DigitTable(ds[i]);
    }
  }

  lemma CharsOfValues(s: string)
    requires forall i | 0 <= i < |s| :: DigitValue(s[i]).Some?
    ensures AllBelow(Values(s), 58)
    ensures Chars(Values(s)) == s
  {
    forall i | 0 <= i < |s|
      ensures Values(s)[i] < 58 && DigitChar(Values(s)[i]) == s[i]
    {
      CharTable(s[i]);
    }
  }

  /** Every leading zero byte, and nothing else, comes out as a leading '1'. */
  lemma EncodeLeadingOnes(bs: seq<byte>)
    ensures LeadingOnes(Encode(bs)) == LeadingZeros(bs)
    ensures forall i | 0 <= i < |Encode(bs)| :: DigitValue(Encode(bs)[i]).Some?
  {
    var z := LeadingZeros(bs);
    var ds := ToDigits(FromDigits(bs[z..], 256), 58);
    var s := Encode(bs);
    assert s == Ones(z) + Chars(ds);
    ValuesOfChars(ds);
    if z < |s| {
      assert s[z] == DigitChar(ds[0]);
      DigitOne(ds[0]);
    }
    LeadingOnesExact(s, z);
    forall i | 0 <= i < |s|
      ensures DigitValue(s[i]).Some?
    {
      if i >= z {
        assert s[i] == Chars(ds)[i - z];
      }
    }
  }

  /** Decoding what `Encode` writes gives back the bytes. */
  lemma DecodeEncode(bs: seq<byte>)
    ensures Decode(Encode(bs)) == Ok(bs)
  {
    var z := LeadingZeros(bs);
    var rest := bs[z..];
    var n := FromDigits(rest, 256);
    var ds := ToDigits(n, 58);
    var s := Encode(bs);
    EncodeLeadingOnes(bs);
    EncodeParts(bs, z, ds);
    assert s[z..] == Chars(ds);
    ValuesOfChars(ds);
    FromToDigits(n, 58);
    ToFromDigits(rest, 256);
    DecodeParts(s, z, ds);
    ZerosPrefix(bs, z);
  }

  lemma DecodeParts(s: string, z: nat, ds: seq<nat>)
    requires forall i | 0 <= i < |s| :: DigitValue(s[i]).Some?
    requires LeadingOnes(s) == z && Values(s[z..]) == ds
    ensures Decode(s) == Ok(Zeros(z) + Bytes(ToDigits(FromDigits(ds, 58), 256)))
  {}

  lemma ZerosPrefix(bs: seq<byte>, z: nat)
    requires z <= |bs| && forall i | 0 <= i < z :: bs[i] == 0
    ensures bs == Zeros(z) + bs[z..]
  {
    assert bs[..z] == Zeros(z);
    assert bs == bs[..z] + bs[z..];
  }

  /** Every string that decodes is the one `Encode` writes for its bytes: base-58 text is canonical. */
  lemma EncodeDecode(s: string)
    requires Decode(s).Ok?
    ensures Encode(Decode(s).value) == s
  {
    var z := LeadingOnes(s);
    var tail := s[z..];
    var ds := Values(tail);
    CharsOfValues(tail);
    if ds != [] {
      CharTable(tail[0]);
      DigitOne(ds[0]);
    }
    var n := FromDigits(ds, 58);
    var bd := ToDigits(n, 256);
    var bs := Decode(s).value;
    assert bs == Zeros(z) + bd;
    if z < |bs| {
      assert bs[z] == bd[0];
    }
    LeadingZerosExact(bs, z);
    assert bs[z..] == bd;
    FromToDigits(n, 256);
    ToFromDigits(ds, 58);
    EncodeParts(bs, z, ds);
    OnesPrefix(s, z);
  }

  lemma EncodeParts(bs: seq<byte>, z: nat, ds: seq<nat>)
    requires LeadingZeros(bs) == z && ToDigits(FromDigits(bs[z..], 256), 58) == ds
    ensures Encode(bs) == Ones(z) + Chars(ds)
  {}

  lemma OnesPrefix(s: string, z: nat)
    requires z <= |s| && forall i | 0 <= i < z :: s[i] == '1'
    ensures s == Ones(z) + s[z..]
  {
    assert s[..z] == Ones(z);
    assert s == s[..z] + s[z..];
  }

  /** Decoding never yields more bytes than there are characters. */
  lemma DecodeLength(s: string)
    requires Decode(s).Ok?
    ensures |Decode(s).value| <= |s|
  {
    var z := LeadingOnes(s);
    var ds := Values(s[z..]);
    CharsOfValues(s[z..]);
    var n := FromDigits(ds, 58);
    FromDigitsBound(ds, 58);
    PowMono(58, 256, |ds|);
    ToDigitsLength(n, 256, |ds|);
  }

  /** The first character: '1' for a leading zero byte, otherwise the first digit of the number. */
  lemma EncodeFirst(bs: seq<byte>)
    requires |bs| > 0
    ensures bs[0] == 0 ==> |Encode(bs)| > 0 && Encode(bs)[0] == '1'
    ensures bs[0] != 0 && FromDigits(bs, 256) > 0 ==>
              |Encode(bs)| > 0 && Encode(bs)[0] == DigitChar(ToDigits(FromDigits(bs, 256), 58)[0])
  {
    var z := LeadingZeros(bs);
    if bs[0] != 0 {
      assert z == 0;
      assert bs[z..] == bs;
    }
  }
}
