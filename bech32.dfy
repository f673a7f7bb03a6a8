/**
 * Bech32 as defined by BIP 173 ("Specification", "Bech32"): a human-readable part, the separator '1',
 * and data symbols from a 32-character set, the last six of which are a BCH checksum over the
 * expanded human-readable part and the data.
 */
module Bech32 {
  import opened Wrappers

  /** A 5-bit data word. */
  type u5 = bv5

  /** The data character for each word value, in order of value. */
  const Charset: string := "qpzry9x8gf2tvdw0s3jn54khce6mua7l"

  // The checksum arithmetic runs on 32-bit words.  Exclusive-or, the five-bit shift and the widening
  // of a word are kept behind named functions so that the lemmas below can combine their results as
  // terms; each property that needs the bit-level meaning is proved in a lemma of its own.

  function Xor(a: bv32, b: bv32): bv32 { a ^ b }

  function Shl5(a: bv32): bv32 { a << 5 }

  function Ext(v: u5): bv32 { v as bv32 }

  /**
   * One round of the BCH code's generator: shift the 30-bit residue left by one symbol and fold the
   * five bits that leave it back in through the generator constants.
   */
  function Gen(chk: bv32): bv32 {
    Xor(Shl5(Low25(chk)), Fold(Top(chk)))
  }

  /** The residue below the symbol that is about to leave it. */
  function Low25(chk: bv32): bv32 { chk & 0x1ff_ffff }

  /** The symbol that leaves the residue. */
  function Top(chk: bv32): bv32 { chk >> 25 }

  /** The generator constants selected by the bits of the symbol that leaves. */
  function Fold(top: bv32): bv32 {
    (if top & 1 != 0 then 0x3b6a57b2 else 0)
      ^ (if top & 2 != 0 then 0x26508e6d else 0)
      ^ (if top & 4 != 0 then 0x1ea119fa else 0)
      ^ (if top & 8 != 0 then 0x3d4233dd else 0)
      ^ (if top & 16 != 0 then 0x2a1462b3 else 0)
  }

  /** Feed one word into the residue. */
  function Step(chk: bv32, v: u5): bv32 {
    Xor(Gen(chk), Ext(v))
  }

  /** The residue after feeding `vs`, one word at a time, starting from `chk`. */
  function PolymodFrom(chk: bv32, vs: seq<u5>): bv32
    decreases vs
  {
    if vs == [] then chk else PolymodFrom(Step(chk, vs[0]), vs[1..])
  }

  /** BIP 173's `bech32_polymod`. */
  function Polymod(vs: seq<u5>): bv32 {
    PolymodFrom(1, vs)
  }

  function ZeroWords(n: nat): (z: seq<u5>)
    ensures |z| == n
  {
    seq(n, _ => 0)
  }

  /** The six words of a 30-bit residue, most significant first. */
  function Symbols(p: bv32): (cs: seq<u5>)
    ensures |cs| == 6
  {
    [((p >> 25) & 31) as u5, ((p >> 20) & 31) as u5, ((p >> 15) & 31) as u5,
     ((p >> 10) & 31) as u5, ((p >> 5) & 31) as u5, (p & 31) as u5]
  }

  /** Six words read back as one 30-bit number, in Horner form. */
  function Pack(cs: seq<u5>): bv32
    requires |cs| == 6
  {
    Xor(Shl5(Xor(Shl5(Xor(Shl5(Xor(Shl5(Xor(Shl5(Ext(cs[0])), Ext(cs[1]))), Ext(cs[2]))), Ext(cs[3]))), Ext(cs[4]))), Ext(cs[5]))
  }

  // ---- bit-level facts, each with nothing else in scope ----

  lemma TopXor(c: bv32, y: bv32)
    requires y < 0x200_0000
    ensures Top(Xor(c, y)) == Top(c)
  {}

  lemma LowXor(c: bv32, y: bv32)
    requires y < 0x200_0000
    ensures Low25(Xor(c, y)) == Xor(Low25(c), y)
  {}

  lemma ShlXor(a: bv32, b: bv32)
    ensures Shl5(Xor(a, b)) == Xor(Shl5(a), Shl5(b))
  {}

  lemma XorAssoc(a: bv32, b: bv32, c: bv32)
    ensures Xor(Xor(a, b), c) == Xor(a, Xor(b, c))
  {}

  lemma XorComm(a: bv32, b: bv32)
    ensures Xor(a, b) == Xor(b, a)
  {}

  lemma XorSwap(a: bv32, b: bv32, t: bv32)
    ensures Xor(Xor(a, b), t) == Xor(Xor(a, t), b)
  {
    XorAssoc(a, b, t);
    XorComm(b, t);
    XorAssoc(a, t, b);
  }

  /** Away from the leaving symbol, a round of the generator is a plain shift. */
  lemma GenLinear(c: bv32, y: bv32)
    requires y < 0x200_0000
    ensures Gen(Xor(c, y)) == Xor(Gen(c), Shl5(y))
  {
    TopXor(c, y);
    LowXor(c, y);
    ShlXor(Low25(c), y);
    XorSwap(Shl5(Low25(c)), Shl5(y), Fold(Top(c)));
  }

  lemma FoldBound(t: bv32)
    ensures Fold(t) < 0x4000_0000
  {}

  lemma ShiftedBound(c: bv32)
    ensures Shl5(Low25(c)) < 0x4000_0000
  {}

  lemma XorBelow(a: bv32, b: bv32, e: bv32)
    requires a < 0x4000_0000 && b < 0x4000_0000 && e < 0x20
    ensures Xor(Xor(a, b), e) < 0x4000_0000
  {}

  lemma StepBound(c: bv32, v: u5)
    ensures Step(c, v) < 0x4000_0000
  {
    FoldBound(Top(c));
    ShiftedBound(c);
    XorBelow(Shl5(Low25(c)), Fold(Top(c)), Ext(v));
  }

  lemma XorZeroRight(a: bv32)
    ensures Xor(a, Ext(0)) == a
  {}

  lemma XorZero(a: bv32, e: bv32)
    ensures Xor(a, e) == Xor(Xor(a, Ext(0)), e)
  {
    XorZeroRight(a);
  }

  lemma XorRegroup(a: bv32, s: bv32, e: bv32)
    ensures Xor(Xor(a, s), e) == Xor(Xor(a, Ext(0)), Xor(s, e))
  {
    XorAssoc(a, s, e);
    XorZeroRight(a);
  }

  lemma StepZero(c: bv32, v: u5)
    ensures Step(c, v) == Xor(Step(c, 0), Ext(v))
  {
    XorZero(Gen(c), Ext(v));
  }

  lemma StepShift(g: bv32, y: bv32, v: u5)
    requires y < 0x200_0000
    ensures Step(Xor(g, y), v) == Xor(Step(g, 0), Xor(Shl5(y), Ext(v)))
  {
    GenLinear(g, y);
    XorRegroup(Gen(g), Shl5(y), Ext(v));
  }

  lemma HornerBound(y: bv32, v: u5)
    ensures y < 0x20 ==> Xor(Shl5(y), Ext(v)) < 0x400
    ensures y < 0x400 ==> Xor(Shl5(y), Ext(v)) < 0x8000
    ensures y < 0x8000 ==> Xor(Shl5(y), Ext(v)) < 0x10_0000
    ensures y < 0x10_0000 ==> Xor(Shl5(y), Ext(v)) < 0x200_0000
  {}

  lemma PackSymbols(p: bv32)
    requires p < 0x4000_0000
    ensures Pack(Symbols(p)) == p
  {}

  lemma SymbolsPack(cs: seq<u5>)
    requires |cs| == 6
    ensures Symbols(Pack(cs)) == cs
  {}

  lemma XorCancel(a: bv32, b: bv32)
    ensures Xor(a, Xor(a, b)) == b
  {}

  lemma XorInjective(a: bv32, b: bv32, c: bv32)
    requires Xor(a, b) == Xor(a, c)
    ensures b == c
  {
    XorCancel(a, b);
    XorCancel(a, c);
  }

  lemma XorBound(a: bv32)
    requires a < 0x4000_0000
    ensures Xor(a, 1) < 0x4000_0000
  {}

  // ---- the residue as a function of its input ----

  lemma {:induction false} PolymodAppend(c: bv32, a: seq<u5>, b: seq<u5>)
    ensures PolymodFrom(c, a + b) == PolymodFrom(PolymodFrom(c, a), b)
    decreases a
  {
    if a == [] {
      assert a + b == b;
    } else {
      assert (a + b)[0] == a[0];
      assert (a + b)[1..] == a[1..] + b;
      PolymodAppend(Step(c, a[0]), a[1..], b);
      Unfold1(c, a + b);
      Unfold1(c, a);
    }
  }

  lemma {:induction false} PolymodBound(c: bv32, vs: seq<u5>)
    requires vs != []
    ensures PolymodFrom(c, vs) < 0x4000_0000
    decreases vs
  {
    if vs[1..] == [] {
      StepBound(c, vs[0]);
    } else {
      PolymodBound(Step(c, vs[0]), vs[1..]);
    }
  }

  lemma Unfold1(c: bv32, vs: seq<u5>)
    requires vs != []
    ensures PolymodFrom(c, vs) == PolymodFrom(Step(c, vs[0]), vs[1..])
  {}

  lemma Unfold6(c: bv32, cs: seq<u5>)
    requires |cs| == 6
    ensures PolymodFrom(c, cs) == Step(Step(Step(Step(Step(Step(c, cs[0]), cs[1]), cs[2]), cs[3]), cs[4]), cs[5])
  {
    var c1 := Step(c, cs[0]);
    var c2 := Step(c1, cs[1]);
    var c3 := Step(c2, cs[2]);
    var c4 := Step(c3, cs[3]);
    var c5 := Step(c4, cs[4]);
    Unfold1(c, cs);
    assert cs[1..][0] == cs[1] && cs[1..][1..] == cs[2..];
    Unfold1(c1, cs[1..]);
    assert cs[2..][0] == cs[2] && cs[2..][1..] == cs[3..];
    Unfold1(c2, cs[2..]);
    assert cs[3..][0] == cs[3] && cs[3..][1..] == cs[4..];
    Unfold1(c3, cs[3..]);
    assert cs[4..][0] == cs[4] && cs[4..][1..] == cs[5..];
    Unfold1(c4, cs[4..]);
    assert cs[5..][0] == cs[5] && cs[5..][1..] == [];
    Unfold1(c5, cs[5..]);
  }

  /** Over six words the residue is the residue of six zero words with the words' bits laid on top. */
  lemma {:induction false} Linear6(c: bv32, cs: seq<u5>)
    requires |cs| == 6
    ensures PolymodFrom(c, cs) == Xor(PolymodFrom(c, ZeroWords(6)), Pack(cs))
  {
    var z := ZeroWords(6);
    Unfold6(c, cs);
    Unfold6(c, z);
    var g1 := Step(c, 0);
    var g2 := Step(g1, 0);
    var g3 := Step(g2, 0);
    var g4 := Step(g3, 0);
    var g5 := Step(g4, 0);
    var y1 := Ext(cs[0]);
    var y2 := Xor(Shl5(y1), Ext(cs[1]));
    var y3 := Xor(Shl5(y2), Ext(cs[2]));
    var y4 := Xor(Shl5(y3), Ext(cs[3]));
    var y5 := Xor(Shl5(y4), Ext(cs[4]));
    HornerBound(y1, cs[1]);
    HornerBound(y2, cs[2]);
    HornerBound(y3, cs[3]);
    HornerBound(y4, cs[4]);
    StepZero(c, cs[0]);
    StepShift(g1, y1, cs[1]);
    StepShift(g2, y2, cs[2]);
    StepShift(g3, y3, cs[3]);
    StepShift(g4, y4, cs[4]);
    StepShift(g5, y5, cs[5]);
  }

  // ---- checksum ----

  /** Characters a human-readable part may hold: US-ASCII 33 to 126. */
  predicate InRange(c: char) {
    33 <= c as int <= 126
  }

  function High(c: char): u5
    requires InRange(c)
  {
    var h := c as int / 32;
    assert h < 4;
    h as u5
  }

  function Low(c: char): u5 {
    (c as int % 32) as u5
  }

  /** BIP 173's `bech32_hrp_expand`: the high bits of each character, a zero, then the low five bits. */
  function HrpExpand(hrp: string): (r: seq<u5>)
    requires forall i | 0 <= i < |hrp| :: InRange(hrp[i])
    ensures |r| == 2 * |hrp| + 1
  {
    seq(|hrp|, i requires 0 <= i < |hrp| => High(hrp[i])) + [0] + seq(|hrp|, i requires 0 <= i < |hrp| => Low(hrp[i]))
  }

  predicate VerifyChecksum(hrp: string, words: seq<u5>)
    requires forall i | 0 <= i < |hrp| :: InRange(hrp[i])
  {
    Polymod(HrpExpand(hrp) + words) == 1
  }

  /** The six checksum words that make `data` verify under `hrp`. */
  function CreateChecksum(hrp: string, data: seq<u5>): (cs: seq<u5>)
    requires forall i | 0 <= i < |hrp| :: InRange(hrp[i])
    ensures |cs| == 6
  {
    Symbols(Xor(Polymod(HrpExpand(hrp) + data + ZeroWords(6)), 1))
  }

  /** Appending the created checksum gives a string of words that verifies. */
  lemma {:induction false} ChecksumValid(hrp: string, data: seq<u5>)
    requires forall i | 0 <= i < |hrp| :: InRange(hrp[i])
    ensures VerifyChecksum(hrp, data + CreateChecksum(hrp, data))
  {
    var pre := HrpExpand(hrp) + data;
    var cs := CreateChecksum(hrp, data);
    var s := Polymod(pre);
    var p0 := PolymodFrom(s, ZeroWords(6));
    PolymodAppend(1, pre, ZeroWords(6));
    assert cs == Symbols(Xor(p0, 1));
    PolymodAppend(1, pre, cs);
    ConcatAssoc(HrpExpand(hrp), data, cs);
    PolymodBound(s, ZeroWords(6));
    Linear6(s, cs);
    CompleteToOne(p0);
  }

  lemma ConcatAssoc(a: seq<u5>, b: seq<u5>, c: seq<u5>)
    ensures a + (b + c) == (a + b) + c
  {}

  lemma CompleteToOne(p: bv32)
    requires p < 0x4000_0000
    ensures Xor(p, Pack(Symbols(Xor(p, 1)))) == 1
  {
    XorBound(p);
    PackSymbols(Xor(p, 1));
    XorCancel(p, 1);
  }

  /** Only one six-word suffix verifies: the checksum is determined by the rest. */
  lemma {:induction false} ChecksumUnique(hrp: string, data: seq<u5>, c1: seq<u5>, c2: seq<u5>)
    requires forall i | 0 <= i < |hrp| :: InRange(hrp[i])
    requires |c1| == 6 && |c2| == 6
    requires VerifyChecksum(hrp, data + c1) && VerifyChecksum(hrp, data + c2)
    ensures c1 == c2
  {
    var pre := HrpExpand(hrp) + data;
    var s := Polymod(pre);
    ConcatAssoc(HrpExpand(hrp), data, c1);
    ConcatAssoc(HrpExpand(hrp), data, c2);
    PolymodAppend(1, pre, c1);
    PolymodAppend(1, pre, c2);
    Linear6(s, c1);
    Linear6(s, c2);
    XorInjective(PolymodFrom(s, ZeroWords(6)), Pack(c1), Pack(c2));
    SymbolsPack(c1);
    SymbolsPack(c2);
  }

  /** The checksum a string of words carries is the one created for the words before it. */
  lemma ChecksumIsCreated(hrp: string, words: seq<u5>)
    requires forall i | 0 <= i < |hrp| :: InRange(hrp[i])
    requires |words| >= 6 && VerifyChecksum(hrp, words)
    ensures words[|words| - 6..] == CreateChecksum(hrp, words[..|words| - 6])
  {
    var data := words[..|words| - 6];
    assert data + words[|words| - 6..] == words;
    ChecksumValid(hrp, data);
    ChecksumUnique(hrp, data, words[|words| - 6..], CreateChecksum(hrp, data));
  }

  // ---- characters ----

  /** The word a (lower-case) data character stands for. */
  function CharValue(c: char): Option<u5> {
    match c
      case 'q' => Some(0)
      case 'p' => Some(1)
      case 'z' => Some(2)
      case 'r' => Some(3)
      case 'y' => Some(4)
      case '9' => Some(5)
      case 'x' => Some(6)
      case '8' => Some(7)
      case 'g' => Some(8)
      case 'f' => Some(9)
      case '2' => Some(10)
      case 't' => Some(11)
      case 'v' => Some(12)
      case 'd' => Some(13)
      case 'w' => Some(14)
      case '0' => Some(15)
      case 's' => Some(16)
      case '3' => Some(17)
      case 'j' => Some(18)
      case 'n' => Some(19)
      case '5' => Some(20)
      case '4' => Some(21)
      case 'k' => Some(22)
      case 'h' => Some(23)
      case 'c' => Some(24)
      case 'e' => Some(25)
      case '6' => Some(26)
      case 'm' => Some(27)
      case 'u' => Some(28)
      case 'a' => Some(29)
      case '7' => Some(30)
      case 'l' => Some(31)
      case _ => None
  }

  lemma CharsetTable(v: u5)
    ensures |Charset| == 32
    ensures CharValue(Charset[v as int]) == Some(v)
  {
    if v < 8 {
      CharsetLow(v);
    } else if v < 16 {
      CharsetMidLow(v);
    } else if v < 24 {
      CharsetMidHigh(v);
    } else {
      CharsetHigh(v);
    }
  }

  lemma CharsetLow(v: u5) requires v < 8 ensures CharValue(Charset[v as int]) == Some(v) {}
  lemma CharsetMidLow(v: u5) requires 8 <= v < 16 ensures CharValue(Charset[v as int]) == Some(v) {}
  lemma CharsetMidHigh(v: u5) requires 16 <= v < 24 ensures CharValue(Charset[v as int]) == Some(v) {}
  lemma CharsetHigh(v: u5) requires 24 <= v ensures CharValue(Charset[v as int]) == Some(v) {}

  lemma CharValueInverse(c: char)
    requires CharValue(c).Some?
    ensures Charset[CharValue(c).value as int] == c
  {}

  lemma CharsetShape(v: u5)
    ensures InRange(Charset[v as int]) && Charset[v as int] != '1' && !IsUpper(Charset[v as int])
  {}

  predicate IsUpper(c: char) {
    'A' <= c <= 'Z'
  }

  predicate IsLower(c: char) {
    'a' <= c <= 'z'
  }

  function LowerChar(c: char): (r: char)
    ensures !IsUpper(r)
    ensures InRange(c) ==> InRange(r)
  {
    if IsUpper(c) then (c as int + 32) as char else c
  }

  function Lower(s: string): (r: string)
    ensures |r| == |s|
    ensures forall i | 0 <= i < |s| :: r[i] == LowerChar(s[i])
  {
    seq(|s|, i requires 0 <= i < |s| => LowerChar(s[i]))
  }

  /** The data characters of a string of words. */
  function ToChars(words: seq<u5>): (s: string)
    ensures |s| == |words|
    ensures forall i | 0 <= i < |words| :: s[i] == Charset[words[i] as int]
  {
    seq(|words|, i requires 0 <= i < |words| => Charset[words[i] as int])
  }

  // ---- scanning helpers ----

  /** The first position whose character is outside US-ASCII 33..126, if any. */
  function FirstOutOfRange(s: string): (r: Option<nat>)
    ensures r.None? <==> forall i | 0 <= i < |s| :: InRange(s[i])
    ensures r.Some? ==> r.value < |s| && !InRange(s[r.value]) && forall i | 0 <= i < r.value :: InRange(s[i])
  {
    if s == [] then None
    else if !InRange(s[0]) then Some(0)
    else match FirstOutOfRange(s[1..]) {
      case None => None
      case Some(k) => Some(k + 1)
    }
  }

  /** The position of the last separator '1', if any. */
  function LastSeparator(s: string): (r: Option<nat>)
    ensures r.None? <==> forall i | 0 <= i < |s| :: s[i] != '1'
    ensures r.Some? ==> r.value < |s| && s[r.value] == '1' && forall i | r.value < i < |s| :: s[i] != '1'
  {
    if s == [] then None
    else if s[|s| - 1] == '1' then Some(|s| - 1)
    else LastSeparator(s[..|s| - 1])
  }

  /** The words the data characters stand for, or the position of the first that stands for none. */
  function Words(s: string): (r: Result<seq<u5>, nat>)
    ensures r.Ok? ==> |r.value| == |s| && forall i | 0 <= i < |s| :: CharValue(s[i]) == Some(r.value[i])
    ensures r.Err? ==> r.error < |s| && CharValue(s[r.error]).None?
  {
    if s == [] then Ok([])
    else match CharValue(s[0]) {
      case None => Err(0)
      case Some(v) =>
        match Words(s[1..]) {
          case Ok(rest) => Ok([v] + rest)
          case Err(k) => Err(k + 1)
        }
    }
  }

  predicate HasUpper(s: string) {
    exists i | 0 <= i < |s| :: IsUpper(s[i])
  }

  predicate HasLower(s: string) {
    exists i | 0 <= i < |s| :: IsLower(s[i])
  }

  // ---- the codec ----

  /** A human-readable part this codec writes: non-empty, US-ASCII 33..126, no upper case. */
  predicate ValidHrp(hrp: string) {
    |hrp| >= 1 && forall i | 0 <= i < |hrp| :: InRange(hrp[i]) && !IsUpper(hrp[i])
  }

  /** The longest string BIP 173 allows. */
  const MaxLength := 90

  datatype Error =
    | InvalidLength        // fewer than 8 or more than 90 characters, or fewer than 6 data characters
    | InvalidCharacter(position: nat)
    | MixedCase
    | InvalidHrp           // no separator, or nothing before it
    | ChecksumMismatch

  datatype Decoded = Decoded(hrp: string, data: seq<u5>)

  /** `hrp`, the separator, then the data and its checksum in data characters. */
  function Encode(hrp: string, data: seq<u5>): (s: string)
    requires ValidHrp(hrp) && |hrp| + 7 + |data| <= MaxLength
    ensures |s| == |hrp| + 7 + |data|
  {
    hrp + "1" + ToChars(data + CreateChecksum(hrp, data))
  }

  /**
   * Reads a bech32 string: length, character range and case are checked on the string as given,
   * the rest on its lower-case form.
   */
  function Decode(s: string): (r: Result<Decoded, Error>)
    ensures 8 <= |s| <= MaxLength && FirstOutOfRange(s).None? && HasUpper(s) && HasLower(s) ==> r == Err(MixedCase)
    ensures |s| < 8 || |s| > MaxLength ==> r == Err(InvalidLength)
  {
    if |s| < 8 || |s| > MaxLength then Err(InvalidLength)
    else if FirstOutOfRange(s).Some? then Err(InvalidCharacter(FirstOutOfRange(s).value))
    else if HasUpper(s) && HasLower(s) then Err(MixedCase)
    else DecodeLower(Lower(s))
  }

  /** Splits a lower-case string at its last separator; the part before it must not be empty. */
  function DecodeLower(t: string): (r: Result<Decoded, Error>)
    requires forall i | 0 <= i < |t| :: InRange(t[i]) && !IsUpper(t[i])
  {
    match LastSeparator(t)
    case None => Err(InvalidHrp)
    case Some(p) => DecodeAt(t, p)
  }

  /** Reads a lower-case string split at position `p`, which holds its last separator. */
  function DecodeAt(t: string, p: nat): (r: Result<Decoded, Error>)
    requires p < |t| && forall i | 0 <= i < |t| :: InRange(t[i])
  {
    if p < 1 then Err(InvalidHrp)
    else match DecodeData(t[..p], t[p + 1..])
      case Err(e) => Err(e)
      case Ok(data) => Ok(Decoded(t[..p], data))
  }

  /** Reads the data part after the separator and checks its six-word checksum. */
  function DecodeData(hrp: string, part: string): (r: Result<seq<u5>, Error>)
    requires forall i | 0 <= i < |hrp| :: InRange(hrp[i])
  {
    if |part| < 6 then Err(InvalidLength)
    else match Words(part)
      case Err(k) => Err(InvalidCharacter(|hrp| + 1 + k))
      case Ok(words) =>
        if !VerifyChecksum(hrp, words) then Err(ChecksumMismatch)
        else Ok(words[..|words| - 6])
  }

  // ---- round trips ----

  lemma LowerIdentity(s: string)
    requires !HasUpper(s)
    ensures Lower(s) == s
  {
    forall i | 0 <= i < |s|
      ensures Lower(s)[i] == s[i]
    {
      assert !IsUpper(s[i]);
    }
  }

  lemma ToCharsShape(ws: seq<u5>)
    ensures forall i | 0 <= i < |ws| :: InRange(ToChars(ws)[i]) && ToChars(ws)[i] != '1' && !IsUpper(ToChars(ws)[i])
  {
    forall i | 0 <= i < |ws|
      ensures InRange(ToChars(ws)[i]) && ToChars(ws)[i] != '1' && !IsUpper(ToChars(ws)[i])
    {
      CharsetShape(ws[i]);
    }
  }

  /** The data characters of some words read back as those words. */
  lemma WordsToChars(ws: seq<u5>)
    ensures Words(ToChars(ws)) == Ok(ws)
  {
    var cs := ToChars(ws);
    match Words(cs) {
      case Err(k) =>
        CharsetTable(ws[k]);
        assert false;
      case Ok(v) =>
        forall i | 0 <= i < |ws|
          ensures v[i] == ws[i]
        {
          CharsetTable(ws[i]);
        }
        assert v == ws;
    }
  }

  /** A string that reads as some words is the data characters of those words. */
  lemma CharsOfWords(t: string, ws: seq<u5>)
    requires Words(t) == Ok(ws)
    ensures ToChars(ws) == t
  {
    forall i | 0 <= i < |t|
      ensures ToChars(ws)[i] == t[i]
    {
      CharValueInverse(t[i]);
    }
  }

  lemma DecodeDataEncode(hrp: string, data: seq<u5>)
    requires forall i | 0 <= i < |hrp| :: InRange(hrp[i])
    ensures DecodeData(hrp, ToChars(data + CreateChecksum(hrp, data))) == Ok(data)
  {
    var ws := data + CreateChecksum(hrp, data);
    WordsToChars(ws);
    ChecksumValid(hrp, data);
    assert ws[..|ws| - 6] == data;
  }

  lemma EncodeShape(hrp: string, data: seq<u5>)
    requires ValidHrp(hrp) && |hrp| + 7 + |data| <= MaxLength
    ensures forall i | 0 <= i < |Encode(hrp, data)| :: InRange(Encode(hrp, data)[i]) && !IsUpper(Encode(hrp, data)[i])
    ensures forall i | |hrp| < i < |Encode(hrp, data)| :: Encode(hrp, data)[i] != '1'
    ensures Encode(hrp, data)[|hrp|] == '1'
  {
    var ws := data + CreateChecksum(hrp, data);
    var tail := ToChars(ws);
    var s := Encode(hrp, data);
    ToCharsShape(ws);
    assert s == hrp + "1" + tail;
    forall i | |hrp| < i < |s|
      ensures s[i] == tail[i - |hrp| - 1]
    {
    }
  }

  /** Every string `Encode` writes decodes to the human-readable part and data it was written from. */
  lemma DecodeEncode(hrp: string, data: seq<u5>)
    requires ValidHrp(hrp) && |hrp| + 7 + |data| <= MaxLength
    ensures Decode(Encode(hrp, data)) == Ok(Decoded(hrp, data))
  {
    var s := Encode(hrp, data);
    var tail := ToChars(data + CreateChecksum(hrp, data));
    EncodeShape(hrp, data);
    DecodeOfLower(s);
    var p := |hrp|;
    LastSeparatorAt(s, p);
    Parts(hrp, tail);
    DecodeDataEncode(hrp, data);
    DecodeLowerAt(s, p, data);
  }

  lemma DecodeDataDecoded(hrp: string, part: string)
    requires forall i | 0 <= i < |hrp| :: InRange(hrp[i])
    requires DecodeData(hrp, part).Ok?
    ensures |part| == |DecodeData(hrp, part).value| + 6
    ensures ToChars(DecodeData(hrp, part).value + CreateChecksum(hrp, DecodeData(hrp, part).value)) == part
  {
    var ws := Words(part).value;
    ChecksumIsCreated(hrp, ws);
    assert ws == ws[..|ws| - 6] + ws[|ws| - 6..];
    CharsOfWords(part, ws);
  }

  lemma DecodeLowerDecoded(t: string)
    requires forall i | 0 <= i < |t| :: InRange(t[i]) && !IsUpper(t[i])
    requires |t| <= MaxLength && DecodeLower(t).Ok?
    ensures ValidHrp(DecodeLower(t).value.hrp)
    ensures |DecodeLower(t).value.hrp| + 7 + |DecodeLower(t).value.data| == |t|
    ensures Encode(DecodeLower(t).value.hrp, DecodeLower(t).value.data) == t
  {
    var p := LastSeparator(t).value;
    var hrp, part := t[..p], t[p + 1..];
    DecodeDataDecoded(hrp, part);
    var d := DecodeLower(t).value;
    assert d.hrp == hrp;
    assert ToChars(d.data + CreateChecksum(hrp, d.data)) == part;
    SplitAt(t, p);
  }

  lemma DecodeOfLower(s: string)
    requires 8 <= |s| <= MaxLength
    requires forall i | 0 <= i < |s| :: InRange(s[i]) && !IsUpper(s[i])
    ensures Decode(s) == DecodeLower(s)
  {
    assert !HasUpper(s);
    LowerIdentity(s);
  }

  lemma DecodeLowerAt(t: string, p: nat, data: seq<u5>)
    requires forall i | 0 <= i < |t| :: InRange(t[i]) && !IsUpper(t[i])
    requires 1 <= p && LastSeparator(t) == Some(p)
    requires DecodeData(t[..p], t[p + 1..]) == Ok(data)
    ensures DecodeLower(t) == Ok(Decoded(t[..p], data))
  {
    DecodeAtData(t, p, data);
  }

  lemma DecodeAtData(t: string, p: nat, data: seq<u5>)
    requires p < |t| && forall i | 0 <= i < |t| :: InRange(t[i])
    requires 1 <= p && DecodeData(t[..p], t[p + 1..]) == Ok(data)
    ensures DecodeAt(t, p) == Ok(Decoded(t[..p], data))
  {}

  lemma LastSeparatorAt(s: string, p: nat)
    requires p < |s| && s[p] == '1'
    requires forall i | p < i < |s| :: s[i] != '1'
    ensures LastSeparator(s) == Some(p)
  {}

  lemma SplitAt(t: string, p: nat)
    requires p < |t| && t[p] == '1'
    ensures t == t[..p] + "1" + t[p + 1..]
  {}

  lemma Parts(a: string, b: string)
    ensures (a + "1" + b)[..|a|] == a
    ensures (a + "1" + b)[|a| + 1..] == b
  {}

  /** A decoded string is the lower-case form of what `Encode` writes for its result. */
  lemma EncodeDecode(s: string)
    requires Decode(s).Ok?
    ensures ValidHrp(Decode(s).value.hrp)
    ensures |Decode(s).value.hrp| + 7 + |Decode(s).value.data| == |s|
    ensures Encode(Decode(s).value.hrp, Decode(s).value.data) == Lower(s)
  {
    DecodeLowerDecoded(Lower(s));
  }

  // ---- error detection ----

  lemma EncodeHrp(hrp: string, data: seq<u5>)
    requires ValidHrp(hrp) && |hrp| + 7 + |data| <= MaxLength
    ensures Encode(hrp, data)[..|hrp|] == hrp
  {
    Parts(hrp, ToChars(data + CreateChecksum(hrp, data)));
  }

  lemma EncodeDataChar(hrp: string, data: seq<u5>, k: nat)
    requires ValidHrp(hrp) && |hrp| + 7 + |data| <= MaxLength && k < |data|
    ensures Encode(hrp, data)[|hrp| + 1 + k] == Charset[data[k] as int]
  {
    var ws := data + CreateChecksum(hrp, data);
    assert Encode(hrp, data)[|hrp| + 1 + k] == ToChars(ws)[k];
    assert ws[k] == data[k];
  }

  /** Two strings that agree on their first `n` characters, each with its last separator before `n`. */
  lemma SameSeparator(e: string, f: string, p: nat, q: nat, n: nat)
    requires |e| == |f| && p < n <= |e| && q < n && e[..n] == f[..n]
    requires e[p] == '1' && forall i | p < i < |e| :: e[i] != '1'
    requires f[q] == '1' && forall i | q < i < |f| :: f[i] != '1'
    ensures p == q
  {
    assert e[..n][p] == f[..n][p];
    assert e[..n][q] == f[..n][q];
  }

  /** Two encodings of the same length that agree before their checksums have the same parts. */
  lemma SameHrp(hrp: string, data: seq<u5>, h: string, d: seq<u5>)
    requires ValidHrp(hrp) && |hrp| + 7 + |data| <= MaxLength
    requires ValidHrp(h) && |h| + 7 + |d| == |hrp| + 7 + |data|
    requires Encode(h, d)[..|hrp| + 1 + |data|] == Encode(hrp, data)[..|hrp| + 1 + |data|]
    ensures h == hrp && d == data
  {
    var e, f, n := Encode(hrp, data), Encode(h, d), |hrp| + 1 + |data|;
    EncodeShape(hrp, data);
    EncodeShape(h, d);
    SameSeparator(e, f, |hrp|, |h|, n);
    EncodeHrp(hrp, data);
    EncodeHrp(h, d);
    assert e[..|hrp|] == e[..n][..|hrp|];
    assert f[..|hrp|] == f[..n][..|hrp|];
    SameData(hrp, data, d);
  }

  lemma SameData(hrp: string, data: seq<u5>, d: seq<u5>)
    requires ValidHrp(hrp) && |hrp| + 7 + |data| <= MaxLength && |d| == |data|
    requires Encode(hrp, d)[..|hrp| + 1 + |data|] == Encode(hrp, data)[..|hrp| + 1 + |data|]
    ensures d == data
  {
    var n := |hrp| + 1 + |data|;
    forall k | 0 <= k < |data|
      ensures d[k] == data[k]
    {
      EncodeDataChar(hrp, data, k);
      EncodeDataChar(hrp, d, k);
      assert Encode(hrp, d)[..n][|hrp| + 1 + k] == Encode(hrp, data)[..n][|hrp| + 1 + k];
      CharsetTable(data[k]);
      CharsetTable(d[k]);
    }
  }

  /** An encoding is fixed by its length and the characters before its checksum. */
  lemma PrefixDetermines(hrp: string, data: seq<u5>, h: string, d: seq<u5>, s: string)
    requires ValidHrp(hrp) && |hrp| + 7 + |data| <= MaxLength
    requires ValidHrp(h) && |h| + 7 + |d| == |s| == |hrp| + 7 + |data|
    requires Encode(h, d) == s && s[..|s| - 6] == Encode(hrp, data)[..|s| - 6]
    ensures s == Encode(hrp, data)
  {
    SameHrp(hrp, data, h, d);
  }

  /**
   * A lower-case string that agrees with an encoding everywhere but in its six checksum
   * characters, and is not that encoding, does not decode.
   */
  lemma ChecksumDetects(hrp: string, data: seq<u5>, s: string)
    requires ValidHrp(hrp) && |hrp| + 7 + |data| <= MaxLength
    requires !HasUpper(s) && |s| == |hrp| + 7 + |data|
    requires s[..|s| - 6] == Encode(hrp, data)[..|s| - 6]
    requires s != Encode(hrp, data)
    ensures Decode(s).Err?
  {
    if Decode(s).Ok? {
      EncodeDecode(s);
      LowerIdentity(s);
      PrefixDetermines(hrp, data, Decode(s).value.hrp, Decode(s).value.data, s);
    }
  }

  // ---- a single changed data character ----

  /** The low symbol of a generator round is set by the symbol that left the residue alone. */
  lemma ShlLow(a: bv32, f: bv32)
    ensures Xor(Shl5(a), f) & 31 == f & 31
  {}

  lemma GenLow(c: bv32)
    ensures Gen(c) & 31 == Fold(Top(c)) & 31
  {
    ShlLow(Low25(c), Fold(Top(c)));
  }

  /** The generator constants' low symbols are independent: the leaving symbol can be read back. */
  lemma FoldLowInjective(t1: bv32, t2: bv32)
    requires t1 < 32 && t2 < 32 && Fold(t1) & 31 == Fold(t2) & 31
    ensures t1 == t2
  {}

  lemma TopBelow(c: bv32)
    requires c < 0x4000_0000
    ensures Top(c) < 32
  {}

  lemma ShlInjective(a: bv32, b: bv32)
    requires a < 0x200_0000 && b < 0x200_0000 && Shl5(a) == Shl5(b)
    ensures a == b
  {}

  lemma Low25Bound(c: bv32)
    ensures Low25(c) < 0x200_0000
  {}

  lemma Recompose(c1: bv32, c2: bv32)
    requires Low25(c1) == Low25(c2) && Top(c1) == Top(c2)
    ensures c1 == c2
  {}

  /** A generator round loses nothing of a 30-bit residue. */
  lemma GenInjective(c1: bv32, c2: bv32)
    requires c1 < 0x4000_0000 && c2 < 0x4000_0000 && Gen(c1) == Gen(c2)
    ensures c1 == c2
  {
    GenLow(c1);
    GenLow(c2);
    TopBelow(c1);
    TopBelow(c2);
    FoldLowInjective(Top(c1), Top(c2));
    var f := Fold(Top(c1));
    XorComm(Shl5(Low25(c1)), f);
    XorComm(Shl5(Low25(c2)), f);
    XorInjective(f, Shl5(Low25(c1)), Shl5(Low25(c2)));
    Low25Bound(c1);
    Low25Bound(c2);
    ShlInjective(Low25(c1), Low25(c2));
    Recompose(c1, c2);
  }

  /** Feeding the same word into two different 30-bit residues keeps them different. */
  lemma StepInjective(c1: bv32, c2: bv32, v: u5)
    requires c1 < 0x4000_0000 && c2 < 0x4000_0000 && Step(c1, v) == Step(c2, v)
    ensures c1 == c2
  {
    XorComm(Gen(c1), Ext(v));
    XorComm(Gen(c2), Ext(v));
    XorInjective(Ext(v), Gen(c1), Gen(c2));
    GenInjective(c1, c2);
  }

  /** Feeding two different words into the same residue gives different residues. */
  lemma StepDistinct(c: bv32, x: u5, y: u5)
    requires x != y
    ensures Step(c, x) != Step(c, y)
  {
    if Step(c, x) == Step(c, y) {
      XorInjective(Gen(c), Ext(x), Ext(y));
      assert false;
    }
  }

  /** Two different 30-bit residues stay different whatever words follow. */
  lemma {:induction false} PolymodFromInjective(c1: bv32, c2: bv32, vs: seq<u5>)
    requires c1 < 0x4000_0000 && c2 < 0x4000_0000 && c1 != c2
    ensures PolymodFrom(c1, vs) != PolymodFrom(c2, vs)
    decreases vs
  {
    if vs != [] {
      if Step(c1, vs[0]) == Step(c2, vs[0]) {
        StepInjective(c1, c2, vs[0]);
      }
      StepBound(c1, vs[0]);
      StepBound(c2, vs[0]);
      PolymodFromInjective(Step(c1, vs[0]), Step(c2, vs[0]), vs[1..]);
      Unfold1(c1, vs);
      Unfold1(c2, vs);
    }
  }

  /** Changing one word changes the residue. */
  lemma SingleWordChange(c: bv32, a: seq<u5>, b: seq<u5>, x: u5, y: u5)
    requires x != y
    ensures PolymodFrom(c, a + [x] + b) != PolymodFrom(c, a + [y] + b)
  {
    var r := PolymodFrom(c, a);
    PolymodAppend(c, a + [x], b);
    PolymodAppend(c, a + [y], b);
    PolymodAppend(c, a, [x]);
    PolymodAppend(c, a, [y]);
    Unfold1(r, [x]);
    Unfold1(r, [y]);
    assert [x][1..] == [] && [y][1..] == [];
    StepDistinct(r, x, y);
    StepBound(r, x);
    StepBound(r, y);
    PolymodFromInjective(Step(r, x), Step(r, y), b);
  }

  lemma SpliceAt(pre: seq<u5>, w: seq<u5>, k: nat)
    requires k < |w|
    ensures pre + w == (pre + w[..k]) + [w[k]] + w[k + 1..]
  {
    assert w == w[..k] + [w[k]] + w[k + 1..];
  }

  /** Two strings of words that differ in exactly one word do not both verify. */
  lemma WordSubstitution(hrp: string, w1: seq<u5>, w2: seq<u5>, k: nat)
    requires forall i | 0 <= i < |hrp| :: InRange(hrp[i])
    requires |w1| == |w2| && k < |w1| && w1[k] != w2[k]
    requires forall i | 0 <= i < |w1| && i != k :: w1[i] == w2[i]
    ensures !(VerifyChecksum(hrp, w1) && VerifyChecksum(hrp, w2))
  {
    var x := HrpExpand(hrp);
    assert w1[..k] == w2[..k];
    assert w1[k + 1..] == w2[k + 1..];
    SpliceAt(x, w1, k);
    SpliceAt(x, w2, k);
    SingleWordChange(1, x + w1[..k], w1[k + 1..], w1[k], w2[k]);
  }

  /** Each character after the separator is the data character of the matching word. */
  lemma EncodeWordChar(hrp: string, data: seq<u5>, k: nat)
    requires ValidHrp(hrp) && |hrp| + 7 + |data| <= MaxLength && k < |data| + 6
    ensures Encode(hrp, data)[|hrp| + 1 + k] == Charset[(data + CreateChecksum(hrp, data))[k] as int]
  {
    var ws := data + CreateChecksum(hrp, data);
    assert Encode(hrp, data)[|hrp| + 1 + k] == ToChars(ws)[k];
  }

  /**
   * Two encodings of the same length that differ in one position after the first one's separator,
   * where the second has no separator, have the same human-readable part.
   */
  lemma SubstitutionSameHrp(hrp: string, data: seq<u5>, h: string, d: seq<u5>, j: nat)
    requires ValidHrp(hrp) && |hrp| + 7 + |data| <= MaxLength
    requires ValidHrp(h) && |h| + 7 + |d| == |hrp| + 7 + |data|
    requires |hrp| < j < |hrp| + 7 + |data| && Encode(h, d)[j] != '1'
    requires forall i | 0 <= i < |hrp| + 7 + |data| && i != j :: Encode(h, d)[i] == Encode(hrp, data)[i]
    ensures h == hrp && |d| == |data|
  {
    var e, f := Encode(hrp, data), Encode(h, d);
    EncodeShape(hrp, data);
    EncodeShape(h, d);
    assert f[|hrp|] == e[|hrp|];
    assert |h| == |hrp|;
    EncodeHrp(hrp, data);
    EncodeHrp(h, d);
    assert e[..|hrp|] == f[..|hrp|];
  }

  /**
   * BIP 173's guarantee for a single substitution: lower-case text that differs from an encoding
   * in exactly one character after the separator, that character not being a separator itself,
   * does not decode.
   */
  lemma SubstitutionDetected(hrp: string, data: seq<u5>, s: string, j: nat)
    requires ValidHrp(hrp) && |hrp| + 7 + |data| <= MaxLength
    requires !HasUpper(s) && |s| == |hrp| + 7 + |data|
    requires |hrp| < j < |s| && s[j] != '1' && s[j] != Encode(hrp, data)[j]
    requires forall i | 0 <= i < |s| && i != j :: s[i] == Encode(hrp, data)[i]
    ensures Decode(s).Err?
  {
    if Decode(s).Ok? {
      EncodeDecode(s);
      LowerIdentity(s);
      var h, d := Decode(s).value.hrp, Decode(s).value.data;
      SubstitutionSameHrp(hrp, data, h, d, j);
      SubstitutionWords(hrp, data, d, j);
    }
  }

  /** Two encodings under one hrp that agree in every character but one agree in that one too. */
  lemma SubstitutionWords(hrp: string, data: seq<u5>, d: seq<u5>, j: nat)
    requires ValidHrp(hrp) && |hrp| + 7 + |data| <= MaxLength && |d| == |data|
    requires |hrp| < j < |hrp| + 7 + |data|
    requires forall i | 0 <= i < |hrp| + 7 + |data| && i != j :: Encode(hrp, d)[i] == Encode(hrp, data)[i]
    ensures Encode(hrp, d)[j] == Encode(hrp, data)[j]
  {
    var w1, w2 := data + CreateChecksum(hrp, data), d + CreateChecksum(hrp, d);
    var k := j - |hrp| - 1;
    forall i | 0 <= i < |w1| && i != k
      ensures w1[i] == w2[i]
    {
      EncodeWordChar(hrp, data, i);
      EncodeWordChar(hrp, d, i);
      CharsetTable(w1[i]);
      CharsetTable(w2[i]);
    }
    EncodeWordChar(hrp, data, k);
    EncodeWordChar(hrp, d, k);
    if w1[k] != w2[k] {
      ChecksumValid(hrp, data);
      ChecksumValid(hrp, d);
      WordSubstitution(hrp, w1, w2, k);
    }
  }
}
