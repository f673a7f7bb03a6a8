/**
 * Position-by-position forms of the codec's functions, for working them out on written-out
 * values: the residue after the first n words, the value of a numeral's first n digits, the
 * value of a regrouped program and a witness address split into its pieces.
 */
module Evaluation {
  import opened Wrappers
  import opened Radix
  import Bech32
  import BitGroups
  import Segwit

  /** The residue after feeding the first `n` words of `vs`, starting from `c`. */
  function Residue(c: bv32, vs: seq<Bech32.u5>, n: nat): bv32
    requires n <= |vs|
  {
    if n == 0 then c else Bech32.Step(Residue(c, vs, n - 1), vs[n - 1])
  }

  lemma {:induction false} ResiduePrefix(c: bv32, vs: seq<Bech32.u5>, n: nat)
    requires n <= |vs|
    ensures Bech32.PolymodFrom(c, vs[..n]) == Residue(c, vs, n)
    decreases n
  {
    if n > 0 {
      var init, last := vs[..n - 1], vs[n - 1];
      ResiduePrefix(c, vs, n - 1);
      assert vs[..n] == init + [last];
      Bech32.PolymodAppend(c, init, [last]);
      Bech32.Unfold1(Residue(c, vs, n - 1), [last]);
      assert [last][1..] == [];
    }
  }

  /** The residue of a whole sequence is its residue after all of its words. */
  lemma ResidueAll(c: bv32, vs: seq<Bech32.u5>)
    ensures Bech32.PolymodFrom(c, vs) == Residue(c, vs, |vs|)
  {
    ResiduePrefix(c, vs, |vs|);
    assert vs[..|vs|] == vs;
  }

  /** One more word fed into a residue already worked out. */
  lemma ResidueNext(c0: bv32, vs: seq<Bech32.u5>, n: nat, c: bv32, v: Bech32.u5, c1: bv32)
    requires n < |vs| && Residue(c0, vs, n) == c && vs[n] == v && Bech32.Step(c, v) == c1
    ensures Residue(c0, vs, n + 1) == c1
  {}

  /** The value of a prefix one digit longer. */
  lemma ValueNext(ds: seq<nat>, b: nat, n: nat, v: nat, d: nat, v1: nat)
    requires n < |ds| && FromDigits(ds[..n], b) == v && ds[n] == d && v1 == v * b + d
    ensures FromDigits(ds[..n + 1], b) == v1
  {
    assert ds[..n + 1][..n] == ds[..n];
  }

  lemma ValueStart(ds: seq<nat>, b: nat)
    ensures FromDigits(ds[..0], b) == 0
  {
    assert ds[..0] == [];
  }

  lemma ValueAll(ds: seq<nat>, b: nat)
    ensures FromDigits(ds[..|ds|], b) == FromDigits(ds, b)
  {
    assert ds[..|ds|] == ds;
  }

  /** The regrouped words of a program spell its value, shifted left past the padding bits. */
  lemma WordsValue(program: seq<byte>)
    ensures FromDigits(Segwit.Nats(Segwit.ToWords(program)), 32)
         == FromDigits(program, 256) * Pow(2, BitGroups.PadBits(|program|, 8, 5))
  {
    BitGroups.Widths();
    BitGroups.ConvertPadded(program, 8, 5);
    Segwit.NatsWords(BitGroups.ConvertBits(program, 8, 5, true).value);
  }

  /** The last digit of a prefix and the value of the prefix before it, by exact division. */
  lemma DigitBack(ds: seq<nat>, b: nat, m: nat, v: nat, q: nat, d: nat)
    requires AllBelow(ds, b) && 0 < m <= |ds| && FromDigits(ds[..m], b) == v && v == q * b + d && d < b
    ensures ds[m - 1] == d && FromDigits(ds[..m - 1], b) == q
  {
    assert ds[..m][..m - 1] == ds[..m - 1];
    DivModUnique(v, b, FromDigits(ds[..m - 1], b), ds[m - 1]);
    DivModUnique(v, b, q, d);
  }

  lemma CharsAppend(x: seq<Bech32.u5>, y: seq<Bech32.u5>)
    ensures Bech32.ToChars(x + y) == Bech32.ToChars(x) + Bech32.ToChars(y)
  {}

  /** The characters of a version and its words, then a checksum, as three pieces. */
  lemma CharsThree(v: Bech32.u5, ws: seq<Bech32.u5>, cs: seq<Bech32.u5>)
    ensures Bech32.ToChars([v] + ws + cs)
         == [Bech32.Charset[v as int]] + Bech32.ToChars(ws) + Bech32.ToChars(cs)
  {
    CharsAppend([v] + ws, cs);
    CharsAppend([v], ws);
    assert Bech32.ToChars([v]) == [Bech32.Charset[v as int]];
  }

  lemma WordNat(n: nat)
    requires n < 32
    ensures (n as Bech32.u5) as int == n
  {}

  lemma Regroup(a: string, b: string, x: string, y: string, z: string)
    ensures a + b + (x + y + z) == a + b + x + y + z
  {}

  /**
   * A witness address, piece by piece: the hrp, the separator, the version's character, the
   * characters of the program's words and those of the checksum.
   */
  lemma EncodeParts(hrp: string, version: nat, program: seq<byte>)
    requires Bech32.ValidHrp(hrp) && version < 32
    requires |hrp| + 8 + Segwit.ProgramWords(|program|) <= Bech32.MaxLength
    ensures Segwit.Encode(hrp, version, program)
         == hrp + "1" + [Bech32.Charset[version]] + Bech32.ToChars(Segwit.ToWords(program))
            + Bech32.ToChars(Bech32.CreateChecksum(hrp, [version as Bech32.u5] + Segwit.ToWords(program)))
  {
    var v, ws := version as Bech32.u5, Segwit.ToWords(program);
    var cs := Bech32.CreateChecksum(hrp, [v] + ws);
    assert Segwit.Encode(hrp, version, program) == hrp + "1" + Bech32.ToChars([v] + ws + cs);
    CharsThree(v, ws, cs);
    WordNat(version);
    Regroup(hrp, "1", [Bech32.Charset[version]], Bech32.ToChars(ws), Bech32.ToChars(cs));
  }
}
