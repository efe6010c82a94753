/** What any 7-bit text decodes to, well-formed or not, said without the decoder's state machine. */
module Utf7Decoding {
  import opened Bits
  import opened Utf7Scheme
  import opened Utf7Refinement
  import opened Utf7Text
  import opened Utf7Canonical
  import D = Utf7DecoderSpec

  /** The units of a text, and whether it ends inside a base64 run. */
  datatype Reading = Reading(units: seq<Unit>, open: bool)

  function Before(units: seq<Unit>, r: Reading): Reading {
    Reading(units + r.units, r.open)
  }

  /** The text behind a run: a '-' only closes the run, any other byte is text. */
  function Closed(rest: seq<Byte>): seq<Byte>
    requires rest != []
  {
    if rest[0] == DASH then rest[1..] else rest
  }

  /** Bytes are units up to the escape byte. That and '-' are the escape unit; otherwise the digits
      that follow, as many as there are, are cut in sixteens and a remainder is dropped. */
  ghost function DecodeText(sc: Scheme, t: seq<Byte>): Reading
    decreases |t|
  {
    if t == [] then Reading([], false)
    else if t[0] != sc.Escape() then Before([t[0]], DecodeText(sc, t[1..]))
    else if |t| > 1 && t[1] == DASH then Before([sc.Escape()], DecodeText(sc, t[2..]))
    else
      var m := DigitCount(sc, t[1..]);
      var units := Units(BitsOf(sc.Values(t[1..][..m]), 6));
      var rest := t[1..][m..];
      if rest == [] then Reading(units, true) else Before(units, DecodeText(sc, Closed(rest)))
  }

  /** A reading is what a run of the machine came to. */
  ghost predicate Reads(o: D.Output, r: Reading) {
    o.units == r.units && o.state.base64 == r.open
  }

  /** A byte that is no digit ends a run; only '-' goes with it. */
  lemma RunEnds(sc: Scheme, s: D.State, rest: seq<Byte>) returns (s': D.State)
    requires s.Valid() && s.base64 && rest != [] && !sc.IsDigit(rest[0])
    requires s.isFresh ==> rest[0] != DASH
    ensures s'.Valid() && !s'.base64
    ensures D.Run(sc, s, rest) == D.Run(sc, s', Closed(rest))
  {
    hide D.Run, D.State.Valid, Scheme.CharToValue;
    D.RunStep(sc, s, rest);
    s' := D.NextMove(sc, s, rest[0]).next;
    assert rest[0..] == rest;
    var o := D.Run(sc, s', Closed(rest));
    assert [] + o.units == o.units;
  }

  lemma DirectByte(sc: Scheme, s: D.State, t: seq<Byte>)
    requires s.Valid() && !s.base64 && t != [] && t[0] != sc.Escape()
    ensures D.Run(sc, s, t) == D.Prefix([t[0]], D.Run(sc, s, t[1..]))
  {
    hide D.Run, D.State.Valid;
    D.RunStep(sc, s, t);
  }

  lemma EscapePair(sc: Scheme, s: D.State, rest: seq<Byte>)
    requires s.Valid() && !s.base64
    ensures D.State(false, 0, 0, true).Valid()
    ensures D.Run(sc, s, [sc.Escape(), DASH] + rest)
         == D.Prefix([sc.Escape()], D.Run(sc, D.State(false, 0, 0, true), rest))
  {
    hide D.Run;
    assert [sc.Escape(), DASH] + rest == [sc.Escape()] + ([DASH] + rest);
    DecodeOpen(sc, s, [DASH] + rest);
    D.RunStep(sc, D.State(true, 0, 0, true), [DASH] + rest);
    assert ([DASH] + rest)[1..] == rest;
  }

  /** A run that the text ends in. */
  lemma OpenRun(sc: Scheme, s: D.State, digits: seq<Byte>)
    requires s.Valid() && !s.base64 && AllDigits(sc, digits)
    ensures Reads(D.Run(sc, s, [sc.Escape()] + digits), Reading(Units(BitsOf(sc.Values(digits), 6)), true))
  {
    hide D.Run, D.State.Valid, Units, BitsOf, Scheme.CharToValue;
    DecodeOpen(sc, s, digits);
    DecoderRefinesRecutting(sc, true, digits);
  }

  /** A run that some byte ends. */
  lemma EndedRun(sc: Scheme, s: D.State, digits: seq<Byte>, rest: seq<Byte>) returns (s': D.State)
    requires s.Valid() && !s.base64 && AllDigits(sc, digits)
    requires rest != [] && !sc.IsDigit(rest[0]) && (digits == [] ==> rest[0] != DASH)
    ensures s'.Valid() && !s'.base64
    ensures D.Run(sc, s, [sc.Escape()] + (digits + rest))
         == D.Prefix(Units(BitsOf(sc.Values(digits), 6)), D.Run(sc, s', Closed(rest)))
  {
    hide D.Run, D.State.Valid, Units, BitsOf, Scheme.CharToValue, Closed;
    var start := D.State(true, 0, 0, true);
    DecodeOpen(sc, s, digits + rest);
    D.RunConcat(sc, start, digits, rest);
    DecoderRefinesRecutting(sc, true, digits);
    s' := RunEnds(sc, D.Run(sc, start, digits).state, rest);
  }

  /** The digits at the front end at the end of the text or at a byte that is none. */
  lemma DigitsEnd(sc: Scheme, t: seq<Byte>)
    ensures var m := DigitCount(sc, t);
      m < |t| ==> !sc.IsDigit(t[m])
  {
    hide Scheme.CharToValue;
  }

  /** From direct mode, and whatever the flag is, the decoder gives the reading of any text. */
  lemma {:induction false} DecoderReadsText(sc: Scheme, s: D.State, t: seq<Byte>)
    requires s.Valid() && !s.base64
    ensures Reads(D.Run(sc, s, t), DecodeText(sc, t))
    decreases |t|
  {
    hide D.Run, D.State.Valid, Units, BitsOf, Scheme.CharToValue, DigitCount, Closed;
    if t == [] {
      DecodeNothing(sc, s);
    } else if t[0] != sc.Escape() {
      DirectByte(sc, s, t);
      DecoderReadsText(sc, s, t[1..]);
    } else if |t| > 1 && t[1] == DASH {
      assert t == [sc.Escape(), DASH] + t[2..];
      EscapePair(sc, s, t[2..]);
      DecoderReadsText(sc, D.State(false, 0, 0, true), t[2..]);
    } else {
      var m := DigitCount(sc, t[1..]);
      var digits, rest := t[1..][..m], t[1..][m..];
      assert t[1..] == digits + rest && t == [sc.Escape()] + (digits + rest);
      DigitsEnd(sc, t[1..]);
      if rest == [] {
        assert digits + rest == digits;
        OpenRun(sc, s, digits);
      } else {
        assert rest[0] == t[1 + m];
        var s' := EndedRun(sc, s, digits, rest);
        ClosedShorter(rest);
        DecoderReadsText(sc, s', Closed(rest));
      }
    }
  }

  lemma ClosedShorter(rest: seq<Byte>)
    requires rest != []
    ensures |Closed(rest)| <= |rest|
  {
  }

  /** Encoded text reads as the units it encodes. */
  lemma EncodedReads(sc: Scheme, u: seq<Unit>)
    ensures DecodeText(sc, EncodeText(sc, u)) == Reading(u, false)
  {
    hide D.Run, EncodeText, DecodeText;
    DecodesBack(sc, D.Initial(false), u);
    DecoderReadsText(sc, D.Initial(false), EncodeText(sc, u));
  }
}
