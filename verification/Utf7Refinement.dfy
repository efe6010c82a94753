/** Both machines, on a base64 run, are the re-cutting of one bit string: sixteen-bit units
    into six-bit digits, and back. */
module Utf7Refinement {
  import opened Bits
  import opened Utf7Scheme
  import E = Utf7EncoderSpec
  import D = Utf7DecoderSpec

  /** The six-bit digits cut from `b`. */
  ghost function Sextets(b: seq<bool>): (ds: seq<Sextet>)
    ensures |ds| == |b| / 6
  {
    Powers();
    var xs := Chunks(b, 6);
    assert forall i :: 0 <= i < |xs| ==> xs[i] in xs && xs[i] < Pow2(6) == 64;
    xs
  }

  /** The sixteen-bit units cut from `b`. */
  ghost function Units(b: seq<bool>): (us: seq<Unit>)
    ensures |us| == |b| / 16
  {
    Powers();
    var xs := Chunks(b, 16);
    assert forall i :: 0 <= i < |xs| ==> xs[i] in xs && xs[i] < Pow2(16) == 0x1_0000;
    xs
  }

  /** The bits the encoder holds back: 0, 4 or 2 of them. */
  ghost function EncoderHeld(s: E.State): (b: seq<bool>)
    requires s.Valid()
    ensures |b| == 4 * s.step % 6
  {
    match s.step
    case 0 => []
    case 1 => ToBits(s.bits / 4, 4)
    case _ => ToBits(s.bits / 16, 2)
  }

  /** The bits the decoder holds back. */
  ghost function DecoderHeld(s: D.State): (b: seq<bool>)
    requires s.Valid()
    ensures |b| == 6 * s.step % 16
  {
    ToBits(s.bits / D.Alignment(s.step), 6 * s.step % 16)
  }

  lemma Powers()
    ensures Pow2(2) == 4 && Pow2(4) == 16 && Pow2(6) == 64 && Pow2(8) == 256
    ensures Pow2(10) == 1024 && Pow2(12) == 4096 && Pow2(14) == 16384 && Pow2(16) == 0x1_0000
  {
  }

  /** The `wa + wb` bits of `n` are the bits of its quotient and remainder by d = 2^wb. */
  lemma Cut(n: nat, a: nat, wa: nat, b: nat, wb: nat, d: nat)
    requires d == Pow2(wb) && b < d && n == a * d + b
    ensures ToBits(n, wa + wb) == ToBits(a, wa) + ToBits(b, wb)
  {
    hide ToBits, Pow2;
    JoinBits(a, wa, b, wb);
  }

  lemma BitsOfTwo(x: nat, y: nat, w: nat)
    ensures BitsOf([x, y], w) == ToBits(x, w) + ToBits(y, w)
  {
    hide ToBits;
    assert [x, y] == [x] + [y];
    BitsOfConcat([x], [y], w);
    BitsOfOne(x, w);
    BitsOfOne(y, w);
  }

  lemma BitsOfThree(x: nat, y: nat, z: nat, w: nat)
    ensures BitsOf([x, y, z], w) == ToBits(x, w) + ToBits(y, w) + ToBits(z, w)
  {
    hide ToBits;
    assert [x, y, z] == [x, y] + [z];
    BitsOfConcat([x, y], [z], w);
    BitsOfTwo(x, y, w);
    BitsOfOne(z, w);
  }

  /** What is held and the unit that comes in are the digits that go out and what is held next. */
  lemma GroupBits(s: E.State, u: Unit)
    requires s.Valid() && s.base64
    ensures
      var (next, ds) := E.Group(s, u);
      EncoderHeld(s) + ToBits(u, 16) == BitsOf(ds, 6) + EncoderHeld(next)
  {
    hide ToBits, BitsOf;
    match s.step
    case 0 => GroupBits0(u);
    case 1 => GroupBits1(s.bits, u);
    case _ => GroupBits2(s.bits, u);
  }

  /** A unit written with digits of various widths. */
  lemma Places0(u: Unit)
    ensures u == u / 1024 * 1024 + u % 1024 && u % 1024 == u / 16 % 64 * 16 + u % 16
  {
  }

  lemma Places1(u: Unit)
    ensures u == u / 16384 * 16384 + u % 16384 && u / 16384 < 4
    ensures u % 16384 == u / 256 % 64 * 256 + u % 256
    ensures u % 256 == u / 4 % 64 * 4 + u % 4
  {
  }

  lemma Places2(u: Unit)
    ensures u == u / 4096 * 4096 + u % 4096 && u / 4096 < 16 && u % 4096 == u / 64 % 64 * 64 + u % 64
  {
  }

  lemma GroupBits0(u: Unit)
    ensures [] + ToBits(u, 16) == BitsOf([u / 1024, u / 16 % 64], 6) + ToBits(u % 16 * 4 / 4, 4)
  {
    hide ToBits, BitsOf, Pow2;
    Powers();
    Places0(u);
    Cut(u, u / 1024, 6, u % 1024, 10, 1024);
    Cut(u % 1024, u / 16 % 64, 6, u % 16, 4, 16);
    BitsOfTwo(u / 1024, u / 16 % 64, 6);
  }

  lemma GroupBits1(bits: nat, u: Unit)
    requires bits % 4 == 0
    ensures ToBits(bits / 4, 4) + ToBits(u, 16)
         == BitsOf([bits + u / 16384, u / 256 % 64, u / 4 % 64], 6) + ToBits(u % 4 * 16 / 16, 2)
  {
    hide ToBits, BitsOf, Pow2;
    Powers();
    Places1(u);
    assert bits + u / 16384 == bits / 4 * 4 + u / 16384;
    Cut(bits + u / 16384, bits / 4, 4, u / 16384, 2, 4);
    Cut(u, u / 16384, 2, u % 16384, 14, 16384);
    Cut(u % 16384, u / 256 % 64, 6, u % 256, 8, 256);
    Cut(u % 256, u / 4 % 64, 6, u % 4, 2, 4);
    BitsOfThree(bits + u / 16384, u / 256 % 64, u / 4 % 64, 6);
  }

  lemma GroupBits2(bits: nat, u: Unit)
    requires bits % 16 == 0
    ensures ToBits(bits / 16, 2) + ToBits(u, 16) == BitsOf([bits + u / 4096, u / 64 % 64, u % 64], 6) + []
  {
    hide ToBits, BitsOf, Pow2;
    Powers();
    Places2(u);
    assert bits + u / 4096 == bits / 16 * 16 + u / 4096;
    Cut(bits + u / 4096, bits / 16, 2, u / 4096, 4, 16);
    Cut(u, u / 4096, 4, u % 4096, 12, 4096);
    Cut(u % 4096, u / 64 % 64, 6, u % 64, 6, 64);
    BitsOfThree(bits + u / 4096, u / 64 % 64, u % 64, 6);
  }

  /** What is held and the digit that comes in are the unit that goes out, if any, and what is
      held next. */
  ghost predicate DigitRecut(s: D.State, value: Sextet)
    requires s.Valid()
  {
    var m := D.DigitMove(s, value);
    DecoderHeld(s) + ToBits(value, 6) == BitsOf(m.units, 16) + DecoderHeld(m.next)
  }

  lemma DigitBits(s: D.State, value: Sextet)
    requires s.Valid()
    ensures DigitRecut(s, value)
  {
    hide DigitRecut, D.Alignment;
    match s.step
    case 2 => DigitCompletes(s, value);
    case 5 => DigitCompletes(s, value);
    case 7 => DigitCompletes(s, value);
    case 4 => DigitHeldLate(s, value);
    case 6 => DigitHeldLate(s, value);
    case _ => DigitHeldEarly(s, value);
  }

  lemma DigitHeldEarly(s: D.State, value: Sextet)
    requires s.Valid() && (s.step == 0 || s.step == 1 || s.step == 3)
    ensures DigitRecut(s, value)
  {
    hide ToBits, BitsOf;
    match s.step
    case 0 => FirstDigit(value);
    case 1 => AddDigit(s.bits, 6, 16, value);
    case _ => AddDigit(s.bits, 2, 256, value);
  }

  lemma DigitHeldLate(s: D.State, value: Sextet)
    requires s.Valid() && (s.step == 4 || s.step == 6)
    ensures DigitRecut(s, value)
  {
    hide ToBits, BitsOf;
    match s.step
    case 4 => AddDigit(s.bits, 8, 4, value);
    case _ => AddDigit(s.bits, 4, 64, value);
  }

  lemma DigitCompletes(s: D.State, value: Sextet)
    requires s.Valid() && (s.step == 2 || s.step == 5 || s.step == 7)
    ensures DigitRecut(s, value)
  {
    hide ToBits, BitsOf;
    match s.step
    case 2 => CompleteUnit(s.bits, 12, 16, value, 4, 2, 4, 16384);
    case 5 => CompleteUnit(s.bits, 14, 4, value, 2, 4, 16, 4096);
    case _ => LastDigit(s.bits, value);
  }

  lemma FirstDigit(value: Sextet)
    ensures ToBits(0 / 0x1_0000, 0) + ToBits(value, 6) == BitsOf([], 16) + ToBits(value * 1024 / 1024, 6)
  {
  }

  lemma LastDigit(bits: nat, value: Sextet)
    requires bits % 64 == 0
    ensures ToBits(bits / 64, 10) + ToBits(value, 6) == BitsOf([bits + value], 16) + ToBits(0 / 0x1_0000, 0)
  {
    hide ToBits, BitsOf, Pow2;
    Powers();
    Cut(bits + value, bits / 64, 10, value, 6, 64);
    BitsOfOne(bits + value, 16);
    assert |ToBits(0 / 0x1_0000, 0)| == 0;
  }

  lemma AddDigit(bits: nat, r: nat, w: nat, value: Sextet)
    requires w == 4 || w == 16 || w == 64 || w == 256
    requires bits % (64 * w) == 0
    ensures ToBits(bits / (64 * w), r) + ToBits(value, 6) == BitsOf([], 16) + ToBits((bits + value * w) / w, r + 6)
  {
    hide ToBits, Pow2;
    Powers();
    var q := bits / (64 * w);
    AddedDigit(q, w, value);
    assert bits == 64 * w * q;
    Cut(64 * q + value, q, r, value, 6, 64);
    assert BitsOf([], 16) == [];
  }

  lemma AddedDigit(q: nat, w: nat, value: Sextet)
    requires w == 4 || w == 16 || w == 64 || w == 256
    ensures (64 * w * q + value * w) / w == 64 * q + value
  {
    if w == 4 {
    } else if w == 16 {
    } else if w == 64 {
    }
  }

  /** The top `wa` bits of a digit complete a unit; the low `wb` start the next one. */
  lemma CompleteUnit(bits: nat, r: nat, a: nat, value: Sextet, wa: nat, wb: nat, d: nat, a': nat)
    requires (r, a, wa, wb, d, a') == (12, 16, 4, 2, 4, 16384) || (r, a, wa, wb, d, a') == (14, 4, 2, 4, 16, 4096)
    requires bits % a == 0
    ensures ToBits(bits / a, r) + ToBits(value, 6)
         == BitsOf([bits + value / d], 16) + ToBits(value % d * a' / a', wb)
  {
    hide ToBits, BitsOf, Pow2;
    Powers();
    BitsOfOne(bits + value / d, 16);
    if wa == 4 {
      Cut(value, value / 4, 4, value % 4, 2, 4);
      Cut(bits + value / 4, bits / 16, 12, value / 4, 4, 16);
    } else {
      Cut(value, value / 16, 2, value % 16, 4, 16);
      Cut(bits + value / 16, bits / 4, 14, value / 16, 2, 4);
    }
  }

  ghost predicate NoneDirect(sc: Scheme, run: seq<Unit>) {
    forall u :: u in run ==> !sc.DirectEncodable(u)
  }

  ghost predicate AllDigits(sc: Scheme, t: seq<Byte>) {
    forall c :: c in t ==> sc.IsDigit(c)
  }

  lemma CharsConcat(sc: Scheme, a: seq<Sextet>, b: seq<Sextet>)
    ensures sc.Chars(a + b) == sc.Chars(a) + sc.Chars(b)
  {
  }

  lemma Assoc<T>(a: seq<T>, b: seq<T>, c: seq<T>)
    ensures (a + b) + c == a + (b + c)
  {
  }

  /** Two steps of a re-cutting, one after the other. */
  lemma Thread<T>(held: seq<T>, in1: seq<T>, out1: seq<T>, held1: seq<T>, in2: seq<T>, out2: seq<T>, held2: seq<T>)
    requires held + in1 == out1 + held1 && held1 + in2 == out2 + held2
    ensures held + (in1 + in2) == (out1 + out2) + held2
  {
    assert held + (in1 + in2) == (held + in1) + in2;
    assert (out1 + held1) + in2 == out1 + (held1 + in2);
    assert out1 + (out2 + held2) == (out1 + out2) + held2;
  }

  lemma BitsOfStep(xs: seq<nat>, w: nat)
    requires xs != []
    ensures BitsOf(xs, w) == ToBits(xs[0], w) + BitsOf(xs[1..], w)
  {
  }

  /** Encoder refinement: on units of a run, what has been held back followed by the units' bits
      is what goes out as digits followed by what is held back at the end. */
  lemma {:induction false} EncoderBits(sc: Scheme, s: E.State, run: seq<Unit>) returns (ds: seq<Sextet>)
    requires s.Valid() && s.base64 && NoneDirect(sc, run)
    ensures
      var o := E.Run(sc, s, run);
      && o.state.base64 && o.bytes == sc.Chars(ds)
      && EncoderHeld(s) + BitsOf(run, 16) == BitsOf(ds, 6) + EncoderHeld(o.state)
    decreases |run|
  {
    hide E.State.Valid, E.Group, EncoderHeld, Scheme.DirectEncodable, BitsOf, E.Run, Scheme.Chars;
    if run == [] {
      ds := [];
      RunNothing(sc, s);
      assert BitsOf([], 16) == BitsOf([], 6) == [];
      assert EncoderHeld(s) + [] == [] + EncoderHeld(s);
    } else {
      var u, rest := run[0], run[1..];
      assert u in run && forall v :: v in rest ==> v in run;
      var (next, first) := E.Group(s, u);
      GroupBits(s, u);
      E.RunStep(sc, s, run);
      BitsOfStep(run, 16);
      var more := EncoderBits(sc, next, rest);
      ds := first + more;
      CharsConcat(sc, first, more);
      BitsOfConcat(first, more, 6);
      Thread(EncoderHeld(s), ToBits(u, 16), BitsOf(first, 6), EncoderHeld(next),
             BitsOf(rest, 16), BitsOf(more, 6), EncoderHeld(E.Run(sc, next, rest).state));
    }
  }

  lemma RunNothing(sc: Scheme, s: E.State)
    requires s.Valid()
    ensures E.Run(sc, s, []) == E.Output(s, []) && sc.Chars([]) == []
  {
  }

  /** Decoder refinement: what has been held back followed by the digits' bits is what goes out
      as units followed by what is held back at the end. */
  lemma {:induction false} DecoderBits(sc: Scheme, s: D.State, t: seq<Byte>)
    requires s.Valid() && s.base64 && AllDigits(sc, t)
    ensures
      var o := D.Run(sc, s, t);
      && o.state.base64 && (t != [] ==> !o.state.isFresh)
      && DecoderHeld(s) + BitsOf(sc.Values(t), 6) == BitsOf(o.units, 16) + DecoderHeld(o.state)
    decreases |t|
  {
    hide D.State.Valid, D.DigitMove, DecoderHeld, Scheme.CharToValue, BitsOf, D.Run;
    if t == [] {
      DecodeNothing(sc, s);
      assert BitsOf([], 16) == BitsOf([], 6) == [];
      assert DecoderHeld(s) + [] == [] + DecoderHeld(s);
    } else {
      var c, rest := t[0], t[1..];
      assert c in t && forall v :: v in rest ==> v in t;
      var value := sc.Value(c);
      sc.DigitAlphabet(c);
      var m := D.DigitMove(s, value);
      DigitBits(s, value);
      D.RunStep(sc, s, t);
      BitsOfStep(sc.Values(t), 6);
      DecoderBits(sc, m.next, rest);
      var o := D.Run(sc, m.next, rest);
      BitsOfConcat(m.units, o.units, 16);
      assert sc.Values(t)[1..] == sc.Values(rest);
      if rest == [] {
        DecodeNothing(sc, m.next);
      }
      Thread(DecoderHeld(s), ToBits(value, 6), BitsOf(m.units, 16), DecoderHeld(m.next),
             BitsOf(sc.Values(rest), 6), BitsOf(o.units, 16), DecoderHeld(o.state));
    }
  }

  lemma DecodeNothing(sc: Scheme, s: D.State)
    requires s.Valid()
    ensures D.Run(sc, s, []) == D.Output(s, [])
  {
  }

  lemma EncoderPhase(k: nat, d: nat, step: nat)
    requires step < 3 && 16 * k == 6 * d + 4 * step % 6
    ensures step == k % 3 && d == 8 * k / 3
  {
    if step == 0 { } else if step == 1 { }
  }

  lemma DecoderPhase(d: nat, k: nat, step: nat)
    requires step < 8 && 6 * d == 16 * k + 6 * step % 16
    ensures step == d % 8 && k == 3 * d / 8
  {
    var q, r := d / 8, d % 8;
    var j := k - 3 * q;
    assert 6 * r == 16 * j + 6 * step % 16;
    assert step == r && j == 3 * r / 8 by {
      match r { case 0 => case 1 => case 2 => case 3 => case 4 => case 5 => case 6 => case _ => }
    }
  }

  /** The encoder inside a run: `8k/3` digits after k units, cut from the units' bits; the phase
      is k mod 3 and the field holds the remaining bits left-aligned in six. */
  lemma EncoderRefinesRecutting(sc: Scheme, run: seq<Unit>)
    requires NoneDirect(sc, run)
    ensures
      var o := E.Run(sc, E.State(true, 0, 0), run);
      var b := BitsOf(run, 16);
      && o.bytes == sc.Chars(Sextets(b))
      && |o.bytes| == 8 * |run| / 3
      && o.state.base64 && o.state.step == |run| % 3
      && ToBits(o.state.bits, 6) == Remainder(b, 6) + Zeros(6 - |Remainder(b, 6)|)
  {
    hide ToBits, BitsOf, Pow2, Chunks, Remainder, E.Run;
    Powers();
    var o := E.Run(sc, E.State(true, 0, 0), run);
    var ds := EncoderBits(sc, E.State(true, 0, 0), run);
    var b := BitsOf(run, 16);
    assert [] + b == b;
    ChunksOfBits(ds, EncoderHeld(o.state), 6);
    EncoderPhase(|run|, |ds|, o.state.step);
    EncoderHeldAligned(o.state);
  }

  lemma EncoderHeldAligned(s: E.State)
    requires s.Valid()
    ensures ToBits(s.bits, 6) == EncoderHeld(s) + Zeros(6 - |EncoderHeld(s)|)
  {
    hide ToBits, Pow2;
    Powers();
    match s.step
    case 0 => ZeroBits(6);
    case 1 => Cut(s.bits, s.bits / 4, 4, 0, 2, 4); ZeroBits(2);
    case _ => Cut(s.bits, s.bits / 16, 2, 0, 4, 16); ZeroBits(4);
  }

  /** The decoder inside a run: `3d/8` units after d digits, cut from the digits' bits; the phase
      is d mod 8 and the field holds the remaining 6d mod 16 bits left-aligned in sixteen. */
  lemma DecoderRefinesRecutting(sc: Scheme, isFresh: bool, t: seq<Byte>)
    requires AllDigits(sc, t)
    ensures
      var o := D.Run(sc, D.State(true, 0, 0, isFresh), t);
      var b := BitsOf(sc.Values(t), 6);
      && o.units == Units(b)
      && |o.units| == 3 * |t| / 8
      && o.state.base64 && o.state.step == |t| % 8 && (t != [] ==> !o.state.isFresh)
      && ToBits(o.state.bits, 16) == Remainder(b, 16) + Zeros(16 - |Remainder(b, 16)|)
  {
    var s := D.State(true, 0, 0, isFresh);
    assert DecoderHeld(s) == [];
    hide ToBits, BitsOf, Pow2, Chunks, Remainder, D.Run, DecoderHeld;
    Powers();
    var o := D.Run(sc, s, t);
    DecoderBits(sc, s, t);
    var b := BitsOf(sc.Values(t), 6);
    assert DecoderHeld(s) + b == b;
    ChunksOfBits(o.units, DecoderHeld(o.state), 16);
    DecoderPhase(|t|, |o.units|, o.state.step);
    DecoderHeldAligned(o.state);
  }

  lemma DecoderHeldAligned(s: D.State)
    requires s.Valid()
    ensures ToBits(s.bits, 16) == DecoderHeld(s) + Zeros(16 - |DecoderHeld(s)|)
  {
    hide ToBits;
    var r := 6 * s.step % 16;
    var a := D.Alignment(s.step);
    Powers();
    assert a == Pow2(16 - r);
    assert s.bits == s.bits / a * a + 0;
    Cut(s.bits, s.bits / a, r, 0, 16 - r, a);
    ZeroBits(16 - r);
  }
}
