/** Encoded text as a whole: what the encoder's output is, said without its state machine, and
    the grammar of the texts that are some encoder output. */
module Utf7Text {
  import opened Bits
  import opened Utf7Scheme
  import opened Utf7Refinement
  import E = Utf7EncoderSpec
  import D = Utf7DecoderSpec

  /** The length of the run of units that cannot be written directly, at the front of `u`. */
  function RunLength(sc: Scheme, u: seq<Unit>): (k: nat)
    ensures k <= |u|
    ensures forall i :: 0 <= i < k ==> !sc.DirectEncodable(u[i])
    ensures k < |u| ==> sc.DirectEncodable(u[k])
  {
    if u == [] || sc.DirectEncodable(u[0]) then 0 else 1 + RunLength(sc, u[1..])
  }

  /** How many zero bits fill up the last digit of a run of k units. */
  function Padding(k: nat): nat {
    2 * k % 6
  }

  /** The digits of a run: its bits, padded with zeros, cut in sixes. */
  ghost function RunDigits(run: seq<Unit>): (ds: seq<Sextet>)
  {
    Sextets(BitsOf(run, 16) + Zeros(Padding(|run|)))
  }

  function DirectBytes(sc: Scheme, u: Unit): seq<Byte>
    requires sc.DirectEncodable(u)
  {
    if u == sc.Escape() then [u, DASH] else [u]
  }

  ghost function RunBytes(sc: Scheme, run: seq<Unit>): seq<Byte> {
    [sc.Escape()] + sc.Chars(RunDigits(run)) + [DASH]
  }

  /** The text of `u`: direct units as themselves, each maximal run of others as one closed
      base64 run. */
  ghost function EncodeText(sc: Scheme, u: seq<Unit>): seq<Byte>
    decreases |u|
  {
    if u == [] then []
    else if sc.DirectEncodable(u[0]) then DirectBytes(sc, u[0]) + EncodeText(sc, u[1..])
    else
      var k := RunLength(sc, u);
      RunBytes(sc, u[..k]) + EncodeText(sc, u[k..])
  }

  /** `u` does not begin with a unit that would extend a run. */
  ghost predicate Breaks(sc: Scheme, u: seq<Unit>) {
    u == [] || sc.DirectEncodable(u[0])
  }

  lemma {:induction false} RunLengthIs(sc: Scheme, run: seq<Unit>, rest: seq<Unit>)
    requires NoneDirect(sc, run) && Breaks(sc, rest)
    ensures RunLength(sc, run + rest) == |run|
  {
    if run == [] {
      assert run + rest == rest;
    } else {
      assert run[0] in run && forall u :: u in run[1..] ==> u in run;
      assert (run + rest)[1..] == run[1..] + rest;
      RunLengthIs(sc, run[1..], rest);
    }
  }

  lemma EncodeTextRun(sc: Scheme, run: seq<Unit>, rest: seq<Unit>)
    requires run != [] && NoneDirect(sc, run) && Breaks(sc, rest)
    ensures EncodeText(sc, run + rest) == RunBytes(sc, run) + EncodeText(sc, rest)
  {
    hide Scheme.DirectEncodable, RunBytes;
    RunLengthIs(sc, run, rest);
    var u := run + rest;
    assert u[0] == run[0] && run[0] in run;
    assert u[..|run|] == run && u[|run|..] == rest;
  }

  /** Units that do not begin with a direct one split into their first run and the rest. */
  lemma FirstRun(sc: Scheme, u: seq<Unit>) returns (run: seq<Unit>, rest: seq<Unit>)
    requires u != [] && !sc.DirectEncodable(u[0])
    ensures u == run + rest && run != [] && NoneDirect(sc, run) && Breaks(sc, rest)
    ensures |rest| < |u|
    ensures EncodeText(sc, u) == RunBytes(sc, run) + EncodeText(sc, rest)
  {
    hide Scheme.DirectEncodable, RunBytes;
    var k := RunLength(sc, u);
    run, rest := u[..k], u[k..];
  }

  // ---- the bits of a run -----------------------------------------------------------------

  lemma PaddingFits(k: nat)
    ensures (16 * k + Padding(k)) % 6 == 0
    ensures (16 * k + Padding(k)) / 6 == (8 * k + 2) / 3
    ensures Padding(k) == (6 - 4 * (k % 3) % 6) % 6
  {
    var q, r := k / 3, k % 3;
    assert k == 3 * q + r;
    if r == 0 {
    } else if r == 1 {
    }
  }

  lemma RunDigitsBits(run: seq<Unit>)
    ensures BitsOf(RunDigits(run), 6) == BitsOf(run, 16) + Zeros(Padding(|run|))
    ensures |RunDigits(run)| == (8 * |run| + 2) / 3
  {
    hide ToBits, BitsOf, Pow2, Chunks, Remainder;
    var b := BitsOf(run, 16) + Zeros(Padding(|run|));
    PaddingFits(|run|);
    BitsOfChunks(b, 6);
    assert Remainder(b, 6) == [];
    assert BitsOf(RunDigits(run), 6) + [] == BitsOf(RunDigits(run), 6);
  }

  /** The digits already written, and the padded one still held, are the run's digits. */
  lemma LastDigit(run: seq<Unit>, ds: seq<Sextet>, s: E.State)
    requires s.Valid() && s.step == |run| % 3
    requires BitsOf(run, 16) == BitsOf(ds, 6) + EncoderHeld(s)
    ensures RunDigits(run) == if s.step == 0 then ds else ds + [s.bits]
  {
    hide ToBits, BitsOf, EncoderHeld, RunDigits, E.State.Valid;
    PaddingFits(|run|);
    var b, h, z := BitsOf(run, 16), EncoderHeld(s), Zeros(Padding(|run|));
    if s.step == 0 {
      assert b + z == BitsOf(ds, 6);
      FromDigits(ds, run);
    } else {
      EncoderHeldAligned(s);
      assert z == Zeros(6 - |h|);
      Assoc(BitsOf(ds, 6), h, z);
      BitsOfConcat(ds, [s.bits], 6);
      BitsOfOne(s.bits, 6);
      FromDigits(ds + [s.bits], run);
    }
  }

  /** What the encoder writes for a run and its close are that run's digits and '-'. */
  lemma CloseRun(sc: Scheme, run: seq<Unit>)
    requires NoneDirect(sc, run)
    ensures
      var o := E.Run(sc, E.State(true, 0, 0), run);
      && o.state.base64
      && o.bytes + E.Closing(sc, o.state) == sc.Chars(RunDigits(run)) + [DASH]
  {
    var s := E.State(true, 0, 0);
    assert s.Valid() && EncoderHeld(s) == [];
    hide ToBits, BitsOf, E.Run, E.State.Valid, EncoderHeld, RunDigits, Scheme.DirectEncodable, Scheme.ValueToChar;
    var o := E.Run(sc, s, run);
    var ds := EncoderBits(sc, s, run);
    EncoderRefinesRecutting(sc, run);
    assert [] + BitsOf(run, 16) == BitsOf(run, 16);
    LastDigit(run, ds, o.state);
    if o.state.step != 0 {
      CharsConcat(sc, ds, [o.state.bits]);
      assert sc.Chars([o.state.bits]) == [sc.Digit(o.state.bits)];
      Assoc(sc.Chars(ds), [sc.Digit(o.state.bits)], [DASH]);
      assert [sc.Digit(o.state.bits)] + [DASH] == E.Closing(sc, o.state);
    }
  }

  lemma FromDigits(ds: seq<Sextet>, run: seq<Unit>)
    requires BitsOf(run, 16) + Zeros(Padding(|run|)) == BitsOf(ds, 6)
    ensures RunDigits(run) == ds
  {
    hide ToBits, BitsOf, Pow2;
    Powers();
    assert BitsOf(ds, 6) + [] == BitsOf(ds, 6);
    ChunksOfBits(ds, [], 6);
  }

  // ---- the encoder machine writes EncodeText ---------------------------------------------

  lemma EncodeConcat(sc: Scheme, s: E.State, a: seq<Unit>, b: seq<Unit>)
    requires s.Valid()
    ensures
      var o := E.Run(sc, s, a);
      E.Encode(sc, s, a + b) == o.bytes + E.Encode(sc, o.state, b)
  {
    hide E.Run, E.State.Valid, E.Closing;
    E.RunConcat(sc, s, a, b);
    var o := E.Run(sc, s, a);
    var p := E.Run(sc, o.state, b);
    Assoc(o.bytes, p.bytes, E.Closing(sc, p.state));
  }

  lemma EncodeStep(sc: Scheme, s: E.State, src: seq<Unit>)
    requires s.Valid() && src != []
    ensures
      var m := E.NextMove(sc, s, src[0]);
      E.Encode(sc, s, src) == m.bytes + E.Encode(sc, m.next, src[m.read..])
  {
    hide E.Run, E.State.Valid, E.Closing, E.NextMove;
    E.RunStep(sc, s, src);
    var m := E.NextMove(sc, s, src[0]);
    var o := E.Run(sc, m.next, src[m.read..]);
    Assoc(m.bytes, o.bytes, E.Closing(sc, o.state));
  }

  /** Leaving a run, whether for a direct unit or at the end of the text, writes the same bytes. */
  lemma EncodeLeaves(sc: Scheme, s: E.State, rest: seq<Unit>)
    requires s.Valid() && s.base64 && Breaks(sc, rest)
    ensures E.Encode(sc, s, rest) == E.Closing(sc, s) + E.Encode(sc, E.INITIAL, rest)
  {
    hide E.Run, E.Group, Scheme.DirectEncodable, Scheme.Digit;
    if rest == [] {
      NothingRun(sc, s);
      NothingRun(sc, E.INITIAL);
    } else {
      EncodeStep(sc, s, rest);
      assert rest[0..] == rest;
      var m := E.NextMove(sc, s, rest[0]);
      if s.step != 0 {
        EncodeStep(sc, m.next, rest);
        assert m.bytes + ([DASH] + E.Encode(sc, E.INITIAL, rest)) == (m.bytes + [DASH]) + E.Encode(sc, E.INITIAL, rest);
      }
    }
  }

  lemma NothingRun(sc: Scheme, s: E.State)
    requires s.Valid()
    ensures E.Run(sc, s, []) == E.Output(s, [])
  {
  }

  lemma EncodeEnters(sc: Scheme, u: seq<Unit>)
    requires u != [] && !sc.DirectEncodable(u[0])
    ensures E.Encode(sc, E.INITIAL, u) == [sc.Escape()] + E.Encode(sc, E.State(true, 0, 0), u)
  {
    hide E.Encode, Scheme.DirectEncodable;
    EncodeStep(sc, E.INITIAL, u);
    assert u[0..] == u;
  }

  /** From the start, a run and what follows it. */
  lemma EncodeRun(sc: Scheme, run: seq<Unit>, rest: seq<Unit>)
    requires run != [] && NoneDirect(sc, run) && Breaks(sc, rest)
    ensures E.Encode(sc, E.INITIAL, run + rest) == RunBytes(sc, run) + E.Encode(sc, E.INITIAL, rest)
  {
    var s := E.State(true, 0, 0);
    assert s.Valid();
    hide E.Run, E.State.Valid, E.Closing, E.Encode, Scheme.DirectEncodable, RunDigits, Scheme.Chars;
    assert (run + rest)[0] == run[0] && run[0] in run;
    EncodeEnters(sc, run + rest);
    EncodeConcat(sc, s, run, rest);
    CloseRun(sc, run);
    var o := E.Run(sc, s, run);
    EncodeLeaves(sc, o.state, rest);
    var tail := E.Encode(sc, E.INITIAL, rest);
    Assoc(o.bytes, E.Closing(sc, o.state), tail);
    var cs := sc.Chars(RunDigits(run));
    Assoc([sc.Escape()], cs + [DASH], tail);
    Assoc([sc.Escape()], cs, [DASH]);
  }

  /** Converting `u` in one go and finishing gives the text of `u`. */
  lemma {:induction false} EncoderWritesText(sc: Scheme, u: seq<Unit>)
    ensures E.Encode(sc, E.INITIAL, u) == EncodeText(sc, u)
    decreases |u|
  {
    if u == [] {
    } else if sc.DirectEncodable(u[0]) {
      EncodeStep(sc, E.INITIAL, u);
      EncoderWritesText(sc, u[1..]);
    } else {
      var run, rest := FirstRun(sc, u);
      EncodeRun(sc, run, rest);
      EncoderWritesText(sc, rest);
    }
  }

  // ---- round trip -------------------------------------------------------------------------

  lemma DecodeOpen(sc: Scheme, s: D.State, rest: seq<Byte>)
    requires s.Valid() && !s.base64
    ensures D.State(true, 0, 0, true).Valid()
    ensures D.Run(sc, s, [sc.Escape()] + rest) == D.Run(sc, D.State(true, 0, 0, true), rest)
  {
    var start := D.State(true, 0, 0, true);
    assert D.NextMove(sc, s, sc.Escape()) == D.Move(start, 1, [], false);
    hide D.Run, D.State.Valid, D.NextMove;
    D.RunStep(sc, s, [sc.Escape()] + rest);
    assert ([sc.Escape()] + rest)[1..] == rest;
    var o := D.Run(sc, start, rest);
    assert [] + o.units == o.units;
  }

  /** Decoding one closed run, from direct mode back to direct mode. */
  lemma DecodeRun(sc: Scheme, s: D.State, digits: seq<Byte>, rest: seq<Byte>) returns (s': D.State)
    requires s.Valid() && !s.base64
    requires digits != [] && AllDigits(sc, digits)
    ensures s'.Valid() && !s'.base64
    ensures D.Run(sc, s, [sc.Escape()] + digits + [DASH] + rest)
         == D.Prefix(Units(BitsOf(sc.Values(digits), 6)), D.Run(sc, s', rest))
  {
    hide D.Run, D.State.Valid, Scheme.CharToValue, ToBits, BitsOf, Units;
    var start, after := D.State(true, 0, 0, true), [DASH] + rest;
    assert [sc.Escape()] + digits + [DASH] + rest == [sc.Escape()] + (digits + after);
    DecodeOpen(sc, s, digits + after);
    D.RunConcat(sc, start, digits, after);
    DecoderRefinesRecutting(sc, true, digits);
    s' := DecodeClose(sc, D.Run(sc, start, digits).state, rest);
  }

  lemma DecodeClose(sc: Scheme, s: D.State, rest: seq<Byte>) returns (s': D.State)
    requires s.Valid() && s.base64 && !s.isFresh
    ensures s'.Valid() && !s'.base64
    ensures D.Run(sc, s, [DASH] + rest) == D.Run(sc, s', rest)
  {
    sc.DigitAlphabet(DASH);
    hide D.Run, D.State.Valid, Scheme.CharToValue;
    D.RunStep(sc, s, [DASH] + rest);
    s' := D.NextMove(sc, s, DASH).next;
    assert ([DASH] + rest)[1..] == rest;
    var p := D.Run(sc, s', rest);
    assert [] + p.units == p.units;
  }

  /** The digits of a run, cut in sixteens again, are the run. */
  lemma RunDigitsInverse(sc: Scheme, run: seq<Unit>)
    ensures sc.Values(sc.Chars(RunDigits(run))) == RunDigits(run)
    ensures Units(BitsOf(RunDigits(run), 6)) == run
    ensures Remainder(BitsOf(RunDigits(run), 6), 16) == Zeros(Padding(|run|))
  {
    hide ToBits, BitsOf, Pow2, Scheme.CharToValue, Scheme.ValueToChar, RunDigits;
    Powers();
    RunDigitsBits(run);
    ChunksOfBits(run, Zeros(Padding(|run|)), 16);
    var ds := RunDigits(run);
    forall i | 0 <= i < |ds| ensures sc.Values(sc.Chars(ds))[i] == ds[i] {
      assert sc.Digit(ds[i]) == sc.Chars(ds)[i];
    }
  }

  /** From any direct state, whatever the flag is, decoding the text of `u` gives `u` and ends in
      direct mode. */
  lemma {:induction false} DecodesBack(sc: Scheme, s: D.State, u: seq<Unit>)
    requires s.Valid() && !s.base64
    ensures
      var o := D.Run(sc, s, EncodeText(sc, u));
      o.units == u && !o.state.base64
    decreases |u|
  {
    if u == [] {
    } else if sc.DirectEncodable(u[0]) {
      DecodeDirectUnit(sc, s, u[0], EncodeText(sc, u[1..]));
      DecodesBack(sc, if u[0] == sc.Escape() then D.State(false, 0, 0, true) else s, u[1..]);
      assert u == [u[0]] + u[1..];
    } else {
      hide D.Run, D.State.Valid, Scheme.DirectEncodable;
      var run, rest := FirstRun(sc, u);
      var ds, t := RunDigits(run), EncodeText(sc, rest);
      RunDigitsInverse(sc, run);
      RunDigitsBits(run);
      AllDigitsChars(sc, ds);
      var s' := DecodeRun(sc, s, sc.Chars(ds), t);
      DecodesBack(sc, s', rest);
      assert RunBytes(sc, run) + t == [sc.Escape()] + sc.Chars(ds) + [DASH] + t;
    }
  }

  lemma AllDigitsChars(sc: Scheme, ds: seq<Sextet>)
    ensures AllDigits(sc, sc.Chars(ds))
  {
    forall c | c in sc.Chars(ds) ensures sc.IsDigit(c) {
      var i :| 0 <= i < |ds| && sc.Chars(ds)[i] == c;
      assert c == sc.Digit(ds[i]);
    }
  }

  /** A direct unit is decoded back; the escape byte leaves the flag set. */
  lemma DecodeDirectUnit(sc: Scheme, s: D.State, u: Unit, rest: seq<Byte>)
    requires s.Valid() && !s.base64 && sc.DirectEncodable(u)
    ensures D.Run(sc, s, DirectBytes(sc, u) + rest)
         == D.Prefix([u], D.Run(sc, if u == sc.Escape() then D.State(false, 0, 0, true) else s, rest))
  {
    var t := DirectBytes(sc, u) + rest;
    D.RunStep(sc, s, t);
    if u == sc.Escape() {
      var start := D.State(true, 0, 0, true);
      assert t[1..] == [DASH] + rest;
      D.RunStep(sc, start, [DASH] + rest);
      assert ([DASH] + rest)[1..] == rest;
      assert [] + ([u] + D.Run(sc, D.State(false, 0, 0, true), rest).units)
          == [u] + D.Run(sc, D.State(false, 0, 0, true), rest).units;
    } else {
      assert t[1..] == rest;
    }
  }

  /** Round trip: decoding what the encoder writes gives the units back, and direct mode. */
  lemma RoundTrip(sc: Scheme, s: D.State, u: seq<Unit>)
    requires s.Valid() && !s.base64
    ensures
      var o := D.Run(sc, s, E.Encode(sc, E.INITIAL, u));
      o.units == u && !o.state.base64
  {
    hide D.Run, E.Encode, EncodeText;
    EncoderWritesText(sc, u);
    DecodesBack(sc, s, u);
  }
}
