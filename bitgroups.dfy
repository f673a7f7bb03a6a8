/**
 * Regrouping a bit string between word widths, as BIP 173's `convertbits` does for segwit programs:
 * the words are read most significant bit first, and complete output groups are emitted as soon as
 * enough bits have accumulated.
 */
module BitGroups {
  import opened Wrappers
  import opened Radix

  datatype Error =
    | InvalidWord(position: nat)   // an input word wider than the input width
    | ExcessPadding                // the last partial group holds a whole input word or more
    | NonZeroPadding               // the bits left over at the end are not all zero

  /**
   * The accumulator: `acc` holds the `bits` bits read but not yet emitted, `out` the groups emitted.
   * Only the pending bits are kept; the wider accumulator of BIP 173's `convertbits` holds, above them,
   * bits that have been emitted already and are never read again.
   */
  datatype State = State(acc: nat, bits: nat, out: seq<nat>)

  /** Well-formed: the pending value fits its bits and every emitted group fits the output width. */
  predicate Wf(s: State, to: nat) {
    s.acc < Pow(2, s.bits) && AllBelow(s.out, Pow(2, to))
  }

  /** The number the emitted groups followed by the pending bits spell. */
  function Value(s: State, to: nat): nat {
    FromDigits(s.out, Pow(2, to)) * Pow(2, s.bits) + s.acc
  }

  /** The inner loop: emit each complete `to`-bit group at the top of the pending bits. */
  function Emit(s: State, to: nat): State
    requires to >= 1
    decreases s.bits
  {
    if s.bits < to then s
    else
      var b := s.bits - to;
      Emit(State(s.acc % Pow(2, b), b, s.out + [s.acc / Pow(2, b)]), to)
  }

  /** The outer loop: take in each word; `pos` is the index of `ws[0]` in the whole input. */
  function Feed(s: State, ws: seq<nat>, from: nat, to: nat, pos: nat): (r: Result<State, Error>)
    requires to >= 1
    ensures r.Err? ==>
              r.error.InvalidWord? && pos <= r.error.position < pos + |ws| && ws[r.error.position - pos] >= Pow(2, from)
    decreases ws
  {
    if ws == [] then Ok(s)
    else if ws[0] >= Pow(2, from) then Err(InvalidWord(pos))
    else Feed(Emit(State(s.acc * Pow(2, from) + ws[0], s.bits + from, s.out), to), ws[1..], from, to, pos + 1)
  }

  /**
   * Regroups `from`-bit words into `to`-bit words. With `pad` a last partial group is filled with
   * zero bits; without it, the leftover bits must be fewer than `from` and all zero.
   */
  function ConvertBits(ws: seq<nat>, from: nat, to: nat, pad: bool): (r: Result<seq<nat>, Error>)
    requires 1 <= from && 1 <= to
    ensures r.Err? && r.error.InvalidWord? ==> r.error.position < |ws| && ws[r.error.position] >= Pow(2, from)
  {
    match Feed(State(0, 0, []), ws, from, to, 0)
    case Err(e) => Err(e)
    case Ok(s) =>
      if pad then Ok(Flush(s, to))
      else if s.bits >= from then Err(ExcessPadding)
      else if s.bits < to && s.acc * Pow(2, to - s.bits) % Pow(2, to) != 0 then Err(NonZeroPadding)
      else Ok(s.out)
  }

  /** The zero bits a padded conversion of `n` words appends. */
  function PadBits(n: nat, from: nat, to: nat): nat
    requires to >= 1
  {
    (to - n * from % to) % to
  }

  // ---- the loops keep the value and count of bits ----

  lemma {:induction false} EmitSpec(s: State, to: nat)
    requires to >= 1 && Wf(s, to)
    ensures Wf(Emit(s, to), to) && Emit(s, to).bits < to
    ensures Value(Emit(s, to), to) == Value(s, to)
    ensures |Emit(s, to).out| * to + Emit(s, to).bits == |s.out| * to + s.bits
    decreases s.bits
  {
    if s.bits >= to {
      var s' := EmitOne(s, to);
      EmitSpec(s', to);
    }
  }

  /** One round of the inner loop keeps the state well formed, its value and its count of bits. */
  lemma EmitOne(s: State, to: nat) returns (s': State)
    requires to >= 1 && Wf(s, to) && s.bits >= to
    ensures s' == State(s.acc % Pow(2, s.bits - to), s.bits - to, s.out + [s.acc / Pow(2, s.bits - to)])
    ensures Emit(s, to) == Emit(s', to)
    ensures Wf(s', to) && Value(s', to) == Value(s, to)
    ensures |s'.out| * to + s'.bits == |s.out| * to + s.bits
  {
    var b := s.bits - to;
    var p, t := Pow(2, b), Pow(2, to);
    var d, a := s.acc / p, s.acc % p;
    s' := State(a, b, s.out + [d]);
    PowAdd(2, to, b);
    assert s.bits == to + b;
    DivBound(s.acc, p, t);
    assert s'.out[..|s'.out| - 1] == s.out;
    DigitAppended(s.out, d, t);
    DivMod(s.acc, p);
    ShiftPlace(FromDigits(s.out, t), t, d, p, a);
    Distrib(|s.out|, to);
  }

  lemma DigitAppended(out: seq<nat>, d: nat, t: nat)
    ensures FromDigits(out + [d], t) == FromDigits(out, t) * t + d
  {
    assert (out + [d])[..|out|] == out;
  }

  lemma Regroup(x: int, p: int, a: int, b: int, w: int)
    ensures x * (p * b) + (a * b + w) == (x * p + a) * b + w
  {}

  /** Taking in one word that fits `from` bits keeps the pending value within its bits. */
  lemma PushFits(acc: nat, bits: nat, from: nat, w: nat)
    requires acc < Pow(2, bits) && w < Pow(2, from)
    ensures acc * Pow(2, from) + w < Pow(2, bits + from)
  {
    PowAdd(2, bits, from);
    MulLe(acc + 1, Pow(2, bits), Pow(2, from));
    Distrib(acc, Pow(2, from));
  }

  lemma PushValue(s: State, w: nat, from: nat, to: nat)
    ensures Value(State(s.acc * Pow(2, from) + w, s.bits + from, s.out), to) == Value(s, to) * Pow(2, from) + w
  {
    PowAdd(2, s.bits, from);
    Regroup(FromDigits(s.out, Pow(2, to)), Pow(2, s.bits), s.acc, Pow(2, from), w);
  }

  lemma FeedUnfold(s: State, ws: seq<nat>, from: nat, to: nat, pos: nat)
    requires to >= 1 && ws != [] && ws[0] < Pow(2, from)
    ensures Feed(s, ws, from, to, pos)
      == Feed(Emit(State(s.acc * Pow(2, from) + ws[0], s.bits + from, s.out), to), ws[1..], from, to, pos + 1)
  {}

  lemma Combine(v: int, ve: int, vr: int, b: int, w: int, q: int, f: int, fw: int, p: int)
    requires ve == v * b + w && vr == ve * q + f && p == q * b && fw == w * q + f
    ensures vr == v * p + fw
  {
    assert (v * b + w) * q + f == v * (q * b) + (w * q + f);
  }

  lemma {:induction false} FeedSpec(s: State, ws: seq<nat>, from: nat, to: nat, pos: nat)
    requires to >= 1 && Wf(s, to) && s.bits < to && AllBelow(ws, Pow(2, from))
    ensures Feed(s, ws, from, to, pos).Ok?
    ensures Wf(Feed(s, ws, from, to, pos).value, to) && Feed(s, ws, from, to, pos).value.bits < to
    ensures Value(Feed(s, ws, from, to, pos).value, to)
      == Value(s, to) * Pow(Pow(2, from), |ws|) + FromDigits(ws, Pow(2, from))
    ensures |Feed(s, ws, from, to, pos).value.out| * to + Feed(s, ws, from, to, pos).value.bits
      == |s.out| * to + s.bits + |ws| * from
  {
    FeedOk(s, ws, from, to, pos);
    FeedValue(s, ws, from, to, pos);
    FeedCount(s, ws, from, to, pos);
  }

  lemma {:induction false} FeedOk(s: State, ws: seq<nat>, from: nat, to: nat, pos: nat)
    requires to >= 1 && Wf(s, to) && s.bits < to && AllBelow(ws, Pow(2, from))
    ensures Feed(s, ws, from, to, pos).Ok?
    ensures Wf(Feed(s, ws, from, to, pos).value, to) && Feed(s, ws, from, to, pos).value.bits < to
    decreases ws
  {
    if ws != [] {
      var t := State(s.acc * Pow(2, from) + ws[0], s.bits + from, s.out);
      PushFits(s.acc, s.bits, from, ws[0]);
      EmitSpec(t, to);
      assert AllBelow(ws[1..], Pow(2, from));
      FeedOk(Emit(t, to), ws[1..], from, to, pos + 1);
      FeedUnfold(s, ws, from, to, pos);
    }
  }

  lemma {:induction false} FeedValue(s: State, ws: seq<nat>, from: nat, to: nat, pos: nat)
    requires to >= 1 && Wf(s, to) && s.bits < to && AllBelow(ws, Pow(2, from))
    ensures Feed(s, ws, from, to, pos).Ok?
    ensures Value(Feed(s, ws, from, to, pos).value, to)
      == Value(s, to) * Pow(Pow(2, from), |ws|) + FromDigits(ws, Pow(2, from))
    decreases ws
  {
    FeedOk(s, ws, from, to, pos);
    if ws != [] {
      var B := Pow(2, from);
      var w, rest := ws[0], ws[1..];
      var t := State(s.acc * B + w, s.bits + from, s.out);
      PushFits(s.acc, s.bits, from, w);
      PushValue(s, w, from, to);
      var e := Emit(t, to);
      EmitSpec(t, to);
      assert AllBelow(rest, B);
      FeedValue(e, rest, from, to, pos + 1);
      FeedUnfold(s, ws, from, to, pos);
      var r := Feed(e, rest, from, to, pos + 1).value;
      FeedStep(Value(s, to), Value(e, to), Value(r, to), B, w, rest);
      assert [w] + rest == ws;
    }
  }

  lemma {:induction false} FeedCount(s: State, ws: seq<nat>, from: nat, to: nat, pos: nat)
    requires to >= 1 && Wf(s, to) && s.bits < to && AllBelow(ws, Pow(2, from))
    ensures Feed(s, ws, from, to, pos).Ok?
    ensures |Feed(s, ws, from, to, pos).value.out| * to + Feed(s, ws, from, to, pos).value.bits
      == |s.out| * to + s.bits + |ws| * from
    decreases ws
  {
    FeedOk(s, ws, from, to, pos);
    if ws != [] {
      var t := State(s.acc * Pow(2, from) + ws[0], s.bits + from, s.out);
      PushFits(s.acc, s.bits, from, ws[0]);
      EmitSpec(t, to);
      assert AllBelow(ws[1..], Pow(2, from));
      FeedCount(Emit(t, to), ws[1..], from, to, pos + 1);
      FeedUnfold(s, ws, from, to, pos);
      Distrib(|ws| - 1, from);
    }
  }

  lemma FeedStep(v: nat, ve: nat, vr: nat, b: nat, w: nat, rest: seq<nat>)
    requires ve == v * b + w && vr == ve * Pow(b, |rest|) + FromDigits(rest, b)
    ensures vr == v * Pow(b, |[w] + rest|) + FromDigits([w] + rest, b)
  {
    PowSucc(b, |rest|);
    FromDigitsCons(w, rest, b);
    Combine(v, ve, vr, b, w, Pow(b, |rest|), FromDigits(rest, b), FromDigits([w] + rest, b), Pow(b, |rest| + 1));
  }

  lemma FeedStart(ws: seq<nat>, from: nat, to: nat)
    requires 1 <= from && 1 <= to && AllBelow(ws, Pow(2, from))
    ensures Feed(State(0, 0, []), ws, from, to, 0).Ok?
    ensures Wf(Feed(State(0, 0, []), ws, from, to, 0).value, to)
    ensures Feed(State(0, 0, []), ws, from, to, 0).value.bits < to
    ensures Value(Feed(State(0, 0, []), ws, from, to, 0).value, to) == FromDigits(ws, Pow(2, from))
    ensures |Feed(State(0, 0, []), ws, from, to, 0).value.out| * to + Feed(State(0, 0, []), ws, from, to, 0).value.bits
      == |ws| * from
  {
    FeedSpec(State(0, 0, []), ws, from, to, 0);
  }

  lemma ShiftBelow(acc: nat, bits: nat, to: nat)
    requires bits <= to && acc < Pow(2, bits)
    ensures acc * Pow(2, to - bits) < Pow(2, to)
    ensures acc * Pow(2, to - bits) % Pow(2, to) == acc * Pow(2, to - bits)
    ensures acc * Pow(2, to - bits) == 0 <==> acc == 0
  {
    PowAdd(2, bits, to - bits);
    ScaleBelow(acc, Pow(2, bits), Pow(2, to - bits), Pow(2, to));
  }

  lemma ScaleBelow(acc: nat, p: nat, q: nat, r: nat)
    requires acc < p && q >= 1 && r == p * q
    ensures acc * q < r && acc * q % r == acc * q && (acc * q == 0 <==> acc == 0)
  {
    MulLe(acc + 1, p, q);
    Distrib(acc, q);
    DivModUnique(acc * q, r, 0, acc * q);
  }

  // ---- what a conversion computes ----

  /**
   * A padded conversion never fails on words that fit: it writes the input's bits, then just enough
   * zero bits to complete the last group.
   */
  lemma ConvertPadded(ws: seq<nat>, from: nat, to: nat)
    requires 1 <= from && 1 <= to && AllBelow(ws, Pow(2, from))
    ensures ConvertBits(ws, from, to, true).Ok?
    ensures AllBelow(ConvertBits(ws, from, to, true).value, Pow(2, to))
    ensures |ConvertBits(ws, from, to, true).value| * to == |ws| * from + PadBits(|ws|, from, to)
    ensures FromDigits(ConvertBits(ws, from, to, true).value, Pow(2, to))
      == FromDigits(ws, Pow(2, from)) * Pow(2, PadBits(|ws|, from, to))
  {
    FeedStart(ws, from, to);
    var s := Feed(State(0, 0, []), ws, from, to, 0).value;
    var n := |ws| * from;
    DivModUnique(n, to, |s.out|, s.bits);
    PadBitsOf(n, to, s.bits);
    FlushPadded(s, to);
    PadUnfold(ws, from, to, s);
  }

  lemma PadBitsOf(n: nat, to: nat, bits: nat)
    requires to >= 1 && bits < to && n % to == bits
    ensures (to - n % to) % to == if bits == 0 then 0 else to - bits
  {
    if bits == 0 {
      DivModUnique(to, to, 1, 0);
    } else {
      DivModUnique(to - bits, to, 0, to - bits);
    }
  }

  lemma PadUnfold(ws: seq<nat>, from: nat, to: nat, s: State)
    requires 1 <= from && 1 <= to && Feed(State(0, 0, []), ws, from, to, 0) == Ok(s)
    ensures ConvertBits(ws, from, to, true) == Ok(Flush(s, to))
  {}

  /** The padded ending: a last partial group is completed with zero bits. */
  function Flush(s: State, to: nat): seq<nat> {
    if s.bits > 0 && s.bits < to then s.out + [s.acc * Pow(2, to - s.bits) % Pow(2, to)] else s.out
  }

  lemma FlushPadded(s: State, to: nat)
    requires to >= 1 && Wf(s, to) && s.bits < to
    ensures AllBelow(Flush(s, to), Pow(2, to))
    ensures |Flush(s, to)| * to == |s.out| * to + s.bits + (if s.bits == 0 then 0 else to - s.bits)
    ensures FromDigits(Flush(s, to), Pow(2, to)) == Value(s, to) * Pow(2, if s.bits == 0 then 0 else to - s.bits)
  {
    if s.bits > 0 {
      ShiftBelow(s.acc, s.bits, to);
      assert Flush(s, to) == s.out + [s.acc * Pow(2, to - s.bits)];
      FlushPartial(s.out, s.acc, s.bits, to);
    }
  }

  /** A last partial group of `bits` bits, shifted up to a full group, lands after the others. */
  lemma FlushPartial(out: seq<nat>, acc: nat, bits: nat, to: nat)
    requires 0 < bits < to && acc < Pow(2, bits) && AllBelow(out, Pow(2, to))
    ensures var o := out + [acc * Pow(2, to - bits)];
      AllBelow(o, Pow(2, to))
      && |o| * to == |out| * to + bits + (to - bits)
      && FromDigits(o, Pow(2, to)) == (FromDigits(out, Pow(2, to)) * Pow(2, bits) + acc) * Pow(2, to - bits)
  {
    var T, k := Pow(2, to), to - bits;
    var x := FromDigits(out, T);
    ShiftBelow(acc, bits, to);
    var d := acc * Pow(2, k);
    var o := out + [d];
    assert o[..|o| - 1] == out;
    assert FromDigits(o, T) == x * T + d;
    PowAdd(2, bits, k);
    Regroup(x, Pow(2, bits), acc, Pow(2, k), 0);
    Distrib(|out|, to);
  }

  /**
   * Without padding: the conversion fails with excess padding exactly when the leftover bits number
   * `from` or more, with non-zero padding exactly when fewer are left but they are not all zero, and
   * otherwise writes the input's bits without those leftover zeros.
   */
  lemma ConvertUnpadded(ws: seq<nat>, from: nat, to: nat)
    requires 1 <= from && 1 <= to && AllBelow(ws, Pow(2, from))
    ensures ConvertBits(ws, from, to, false) == Err(ExcessPadding) <==> |ws| * from % to >= from
    ensures ConvertBits(ws, from, to, false) == Err(NonZeroPadding)
      <==> |ws| * from % to < from && FromDigits(ws, Pow(2, from)) % Pow(2, |ws| * from % to) != 0
    ensures ConvertBits(ws, from, to, false).Ok?
      <==> |ws| * from % to < from && FromDigits(ws, Pow(2, from)) % Pow(2, |ws| * from % to) == 0
    ensures ConvertBits(ws, from, to, false).Ok? ==>
      var out := ConvertBits(ws, from, to, false).value;
      AllBelow(out, Pow(2, to))
      && |out| * to + |ws| * from % to == |ws| * from
      && FromDigits(out, Pow(2, to)) * Pow(2, |ws| * from % to) == FromDigits(ws, Pow(2, from))
  {
    FeedStart(ws, from, to);
    var s := Feed(State(0, 0, []), ws, from, to, 0).value;
    DivModUnique(|ws| * from, to, |s.out|, s.bits);
    assert |ws| * from % to == s.bits;
    ShiftBelow(s.acc, s.bits, to);
    DivModUnique(FromDigits(ws, Pow(2, from)), Pow(2, s.bits), FromDigits(s.out, Pow(2, to)), s.acc);
  }

  // ---- bytes and 5-bit words ----

  lemma Widths()
    ensures Pow(2, 8) == 256 && Pow(2, 5) == 32
  {}

  /** Spreading bytes over 5-bit words and gathering them back returns the bytes. */
  lemma BytesWordsBytes(bs: seq<nat>)
    requires AllBelow(bs, 256)
    ensures ConvertBits(bs, 8, 5, true).Ok?
    ensures ConvertBits(ConvertBits(bs, 8, 5, true).value, 5, 8, false) == Ok(bs)
  {
    Widths();
    ConvertPadded(bs, 8, 5);
    var ws := ConvertBits(bs, 8, 5, true).value;
    var q := PadBits(|bs|, 8, 5);
    assert q < 5;
    assert |ws| * 5 == |bs| * 8 + q;
    DivModUnique(|ws| * 5, 8, |bs|, q);
    var v := FromDigits(bs, 256);
    DivModUnique(v * Pow(2, q), Pow(2, q), v, 0);
    ConvertUnpadded(ws, 5, 8);
    var out := ConvertBits(ws, 5, 8, false).value;
    MulCancel(FromDigits(out, 256), v, Pow(2, q));
    FromDigitsInjective(out, bs, 256);
  }

  /** Gathering 5-bit words into bytes and spreading them again returns the words, when gathering succeeds. */
  lemma WordsBytesWords(ws: seq<nat>)
    requires AllBelow(ws, 32) && ConvertBits(ws, 5, 8, false).Ok?
    ensures ConvertBits(ConvertBits(ws, 5, 8, false).value, 8, 5, true) == Ok(ws)
  {
    Widths();
    ConvertUnpadded(ws, 5, 8);
    var bs := ConvertBits(ws, 5, 8, false).value;
    var r := |ws| * 5 % 8;
    assert r < 5;
    assert |bs| * 8 + r == |ws| * 5;
    ConvertPadded(bs, 8, 5);
    var out := ConvertBits(bs, 8, 5, true).value;
    PadMatch(|ws|, |bs|, r);
    assert |out| * 5 == |ws| * 5;
    FromDigitsInjective(out, ws, 32);
  }

  lemma PadMatch(m: nat, n: nat, r: nat)
    requires r < 5 && n * 8 + r == m * 5
    ensures PadBits(n, 8, 5) == r
  {
    if r == 0 {
      DivModUnique(n * 8, 5, m, 0);
      DivModUnique(5, 5, 1, 0);
    } else {
      DivModUnique(n * 8, 5, m - 1, 5 - r);
      DivModUnique(r, 5, 0, r);
    }
  }

  lemma MulCancel(a: nat, b: nat, p: nat)
    requires p > 0 && a * p == b * p
    ensures a == b
  {
    if a < b {
      MulLe(a + 1, b, p);
    } else if b < a {
      MulLe(b + 1, a, p);
    }
  }
}
