/** The grammar of encoded text. For modified UTF-7 it is that of section 5.1.3 of RFC 3501:
    direct bytes, "&-" for '&', and closed base64 runs that are not adjacent, not empty, zero
    padded, and hold nothing that could have been written directly. */
module Utf7Canonical {
  import opened Bits
  import opened Utf7Scheme
  import opened Utf7Refinement
  import opened Utf7Text
  import E = Utf7EncoderSpec
  import D = Utf7DecoderSpec

  /** The number of digits at the front of `t`. */
  function DigitCount(sc: Scheme, t: seq<Byte>): (m: nat)
    ensures m <= |t|
    ensures forall c :: c in t[..m] ==> sc.IsDigit(c)
  {
    if t == [] || !sc.IsDigit(t[0]) then 0 else 1 + DigitCount(sc, t[1..])
  }

  ghost predicate RunBody(sc: Scheme, digits: seq<Byte>)
    requires AllDigits(sc, digits)
  {
    var b := BitsOf(sc.Values(digits), 6);
    && digits != []
    && (|digits| % 8 == 0 || |digits| % 8 == 3 || |digits| % 8 == 6)
    && (forall bit :: bit in Remainder(b, 16) ==> !bit)
    && NoneDirect(sc, Units(b))
  }

  /** `t` begins with a base64 run. */
  ghost predicate StartsRun(sc: Scheme, t: seq<Byte>) {
    t != [] && t[0] == sc.Escape() && !(|t| > 1 && t[1] == DASH)
  }

  ghost predicate Canonical(sc: Scheme, t: seq<Byte>)
    decreases |t|
  {
    if t == [] then
      true
    else if t[0] != sc.Escape() then
      sc.DirectEncodable(t[0]) && Canonical(sc, t[1..])
    else if !StartsRun(sc, t) then
      sc.DirectEncodable(sc.Escape()) && Canonical(sc, t[2..])
    else
      var m := DigitCount(sc, t[1..]);
      && 1 + m < |t| && t[1 + m] == DASH
      && RunBody(sc, t[1..][..m])
      && !StartsRun(sc, t[m + 2..])
      && Canonical(sc, t[m + 2..])
  }

  /** A canonical text that begins with a run, in parts. */
  lemma CanonicalParts(sc: Scheme, t: seq<Byte>) returns (digits: seq<Byte>, rest: seq<Byte>)
    requires Canonical(sc, t) && StartsRun(sc, t)
    ensures t == [sc.Escape()] + digits + [DASH] + rest
    ensures AllDigits(sc, digits) && RunBody(sc, digits)
    ensures Canonical(sc, rest) && !StartsRun(sc, rest)
  {
    hide RunBody, Scheme.DirectEncodable, Scheme.CharToValue;
    var m := DigitCount(sc, t[1..]);
    digits, rest := t[1..][..m], t[m + 2..];
  }

  lemma {:induction false} DigitCountIs(sc: Scheme, digits: seq<Byte>, rest: seq<Byte>)
    requires AllDigits(sc, digits) && rest != [] && !sc.IsDigit(rest[0])
    ensures DigitCount(sc, digits + rest) == |digits|
  {
    hide Scheme.CharToValue;
    if digits == [] {
      assert digits + rest == rest;
    } else {
      assert digits[0] in digits && forall c :: c in digits[1..] ==> c in digits;
      assert (digits + rest)[1..] == digits[1..] + rest;
      DigitCountIs(sc, digits[1..], rest);
    }
  }

  lemma CanonicalRun(sc: Scheme, digits: seq<Byte>, rest: seq<Byte>)
    requires AllDigits(sc, digits) && RunBody(sc, digits)
    requires Canonical(sc, rest) && !StartsRun(sc, rest)
    ensures Canonical(sc, [sc.Escape()] + digits + [DASH] + rest)
    ensures StartsRun(sc, [sc.Escape()] + digits + [DASH] + rest)
  {
    var t := [sc.Escape()] + digits + [DASH] + rest;
    sc.DigitAlphabet(DASH);
    assert digits != [] && digits[0] in digits && digits[0] != DASH;
    hide RunBody, Scheme.DirectEncodable, Scheme.CharToValue;
    var tail := t[1..];
    assert tail == digits + ([DASH] + rest);
    DigitCountIs(sc, digits, [DASH] + rest);
    hide DigitCount, Scheme.IsDigit;
    assert tail[..|digits|] == digits;
    assert t[|digits| + 2..] == rest;
    assert t[1] == digits[0];
    assert t[1 + |digits|] == DASH;
  }

  // ---- a canonical run is what its units would be encoded as --------------------------------

  lemma CanonicalLengths(m: nat)
    requires m % 8 == 0 || m % 8 == 3 || m % 8 == 6
    ensures 6 * m % 16 == Padding(6 * m / 16)
    ensures m > 0 ==> 6 * m / 16 > 0
  {
    var q := m / 8;
    if m % 8 == 0 {
      assert 6 * m / 16 == 3 * q;
    } else if m % 8 == 3 {
      assert 6 * m / 16 == 3 * q + 1;
    } else {
      assert 6 * m / 16 == 3 * q + 2;
    }
  }

  lemma RunBodyInverse(sc: Scheme, digits: seq<Byte>)
    requires AllDigits(sc, digits) && RunBody(sc, digits)
    ensures
      var run := Units(BitsOf(sc.Values(digits), 6));
      run != [] && NoneDirect(sc, run) && sc.Chars(RunDigits(run)) == digits
  {
    hide ToBits, Pow2, Scheme.CharToValue, Scheme.DirectEncodable, RunDigits;
    var ds := sc.Values(digits);
    var b := BitsOf(ds, 6);
    var run, r := Units(b), Remainder(b, 16);
    CanonicalLengths(|digits|);
    BitsOfChunks(b, 16);
    assert |r| == Padding(|run|);
    forall i | 0 <= i < |r| ensures !r[i] {
      assert r[i] in r;
    }
    assert r == Zeros(Padding(|run|));
    FromDigits(ds, run);
    forall i | 0 <= i < |digits| ensures sc.Chars(ds)[i] == digits[i] {
      assert sc.Digit(sc.Value(digits[i])) == digits[i];
    }
  }

  /** Canonical inverse: a text of the grammar is decoded to units whose text it is. */
  lemma {:induction false} CanonicalInverse(sc: Scheme, s: D.State, t: seq<Byte>)
    requires s.Valid() && !s.base64 && Canonical(sc, t)
    ensures
      var o := D.Run(sc, s, t);
      && !o.state.base64
      && EncodeText(sc, o.units) == t
      && (!StartsRun(sc, t) ==> Breaks(sc, o.units))
    decreases |t|
  {
    hide D.State.Valid, Scheme.DirectEncodable, RunBody, RunBytes;
    if t == [] {
    } else if StartsRun(sc, t) {
      var digits, rest := CanonicalParts(sc, t);
      RunBodyInverse(sc, digits);
      NotEmpty(sc, digits);
      var s' := DecodeRun(sc, s, digits, rest);
      CanonicalInverse(sc, s', rest);
      var run, units := Units(BitsOf(sc.Values(digits), 6)), D.Run(sc, s', rest).units;
      EncodeTextRun(sc, run, units);
      assert RunBytes(sc, run) == [sc.Escape()] + digits + [DASH] by { RunBytesAre(sc, run); }
    } else {
      var u := t[0];
      var n := if u == sc.Escape() then 2 else 1;
      var s' := if u == sc.Escape() then D.State(false, 0, 0, true) else s;
      assert t == DirectBytes(sc, u) + t[n..];
      DecodeDirectUnit(sc, s, u, t[n..]);
      CanonicalInverse(sc, s', t[n..]);
      var units := D.Run(sc, s', t[n..]).units;
      assert ([u] + units)[1..] == units;
    }
  }

  lemma NotEmpty(sc: Scheme, digits: seq<Byte>)
    requires AllDigits(sc, digits) && RunBody(sc, digits)
    ensures digits != []
  {
  }

  lemma RunBytesAre(sc: Scheme, run: seq<Unit>)
    ensures RunBytes(sc, run) == [sc.Escape()] + sc.Chars(RunDigits(run)) + [DASH]
  {
  }

  lemma RunDigitsAreBody(sc: Scheme, run: seq<Unit>)
    requires run != [] && NoneDirect(sc, run)
    ensures AllDigits(sc, sc.Chars(RunDigits(run)))
    ensures RunBody(sc, sc.Chars(RunDigits(run)))
  {
    hide ToBits, BitsOf, Pow2, Scheme.CharToValue, Scheme.DirectEncodable, RunDigits;
    var ds := RunDigits(run);
    AllDigitsChars(sc, ds);
    RunDigitsInverse(sc, run);
    RunDigitsBits(run);
    DigitLengths(|run|);
  }

  lemma DigitLengths(k: nat)
    ensures (8 * k + 2) / 3 % 8 == 0 || (8 * k + 2) / 3 % 8 == 3 || (8 * k + 2) / 3 % 8 == 6
  {
    var q, r := k / 3, k % 3;
    assert (8 * k + 2) / 3 == 8 * q + (8 * r + 2) / 3;
  }

  /** Canonical output: every text the encoder writes is in the grammar. */
  lemma {:induction false} EncodedIsCanonical(sc: Scheme, u: seq<Unit>)
    ensures Canonical(sc, EncodeText(sc, u))
    ensures Breaks(sc, u) ==> !StartsRun(sc, EncodeText(sc, u))
    decreases |u|
  {
    hide Scheme.DirectEncodable, RunBody, RunBytes;
    if u == [] {
    } else if sc.DirectEncodable(u[0]) {
      EncodedIsCanonical(sc, u[1..]);
      var d, rest := DirectBytes(sc, u[0]), EncodeText(sc, u[1..]);
      assert (d + rest)[|d|..] == rest;
    } else {
      var run, rest := FirstRun(sc, u);
      EncodedIsCanonical(sc, rest);
      RunDigitsAreBody(sc, run);
      CanonicalRun(sc, sc.Chars(RunDigits(run)), EncodeText(sc, rest));
      RunBytesAre(sc, run);
    }
  }

  /** The grammar is exactly the set of texts the encoder writes. */
  lemma GrammarIsImage(sc: Scheme, t: seq<Byte>)
    ensures Canonical(sc, t) <==> exists u :: EncodeText(sc, u) == t
  {
    hide D.Run, EncodeText, Canonical;
    if Canonical(sc, t) {
      var s := D.Initial(false);
      CanonicalInverse(sc, s, t);
      assert EncodeText(sc, D.Run(sc, s, t).units) == t;
    }
    forall u | EncodeText(sc, u) == t ensures Canonical(sc, t) {
      EncodedIsCanonical(sc, u);
    }
  }

  /** Every byte of encoded text is one that is written directly, or the escape byte. For
      modified UTF-7 that means every byte is printable. */
  lemma {:induction false} CanonicalBytes(sc: Scheme, t: seq<Byte>)
    requires Canonical(sc, t)
    ensures forall c :: c in t ==> sc.DirectEncodable(c) || c == sc.Escape()
    decreases |t|
  {
    if t == [] {
    } else if StartsRun(sc, t) {
      var digits, rest := CanonicalParts(sc, t);
      assert forall c :: c in digits ==> sc.DirectEncodable(c) || c == sc.Escape();
      assert sc.DirectEncodable(DASH);
      hide Scheme.DirectEncodable;
      CanonicalBytes(sc, rest);
    } else {
      var n := if t[0] == sc.Escape() then 2 else 1;
      assert t == t[..n] + t[n..];
      assert sc.DirectEncodable(DASH);
      hide Scheme.DirectEncodable;
      CanonicalBytes(sc, t[n..]);
    }
  }

  /** Encoded folder names are printable ASCII. */
  lemma FolderNamesPrintable(u: seq<Unit>)
    ensures forall c :: c in EncodeText(ModifiedUTF7, u) ==> 0x20 <= c <= 0x7e
  {
    hide EncodeText, Canonical;
    EncodedIsCanonical(ModifiedUTF7, u);
    CanonicalBytes(ModifiedUTF7, EncodeText(ModifiedUTF7, u));
  }
}
