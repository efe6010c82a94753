/** The decoder as a machine over single bytes: what one call with a bounded buffer does
    (`Feed`), and what a call with unlimited room would do (`Run`). */
module Utf7DecoderSpec {
  import opened Utf7Scheme

  datatype State = State(base64: bool, step: nat, bits: nat, isFresh: bool) {

    /** `bits` holds the 6 * step mod 16 bits not yet output, left-aligned in sixteen. */
    predicate Valid(): (valid: bool)
      ensures valid ==> step < 8 && bits < 0x1_0000
      ensures valid && base64 && isFresh ==> step == 0
    {
      step < 8 && bits < 0x1_0000 && bits % Alignment(step) == 0 && (base64 && isFresh ==> step == 0)
    }
  }

  /** 2^(16 - r) where r = 6 * step mod 16 is the number of bits held. */
  function Alignment(step: nat): (a: nat)
    requires step < 8
    ensures a > 0
  {
    match step
    case 0 => 0x1_0000
    case 1 => 1024
    case 2 => 16
    case 3 => 16384
    case 4 => 256
    case 5 => 4
    case 6 => 4096
    case _ => 64
  }

  /** After Reset. The flag keeps whatever value it had. */
  function Initial(isFresh: bool): (s: State)
    ensures s.Valid()
  {
    State(false, 0, 0, isFresh)
  }

  datatype Output = Output(state: State, units: seq<Unit>)

  function Prefix(units: seq<Unit>, o: Output): Output {
    Output(o.state, units + o.units)
  }

  /** One digit: the new leftover bits and the unit it completes, if any. */
  function Shift(step: nat, bits: nat, value: Sextet): (r: (nat, seq<int>))
    requires step < 8
    ensures |r.1| == if step == 2 || step == 5 || step == 7 then 1 else 0
  {
    match step
    case 0 => (value * 1024, [])
    case 1 => (bits + value * 16, [])
    case 2 => (value % 4 * 16384, [bits + value / 4])
    case 3 => (bits + value * 256, [])
    case 4 => (bits + value * 4, [])
    case 5 => (value % 16 * 4096, [bits + value / 16])
    case 6 => (bits + value * 64, [])
    case _ => (0, [bits + value])
  }

  /** A sum of disjoint bits: `bits` is a multiple of 64 * w below 2^16, and six bits go in at w. */
  lemma Disjoint(bits: nat, w: nat, value: Sextet)
    requires w == 1 || w == 4 || w == 16 || w == 64 || w == 256 || w == 1024
    requires bits < 0x1_0000 && bits % (64 * w) == 0
    ensures bits + value * w < 0x1_0000 && (bits + value * w) % w == 0
  {
    var q := bits / (64 * w);
    assert bits == 64 * w * q;
    if w == 4 {
      assert bits + value * w == 4 * (64 * q + value);
    } else if w == 16 {
      assert bits + value * w == 16 * (64 * q + value);
    } else if w == 64 {
      assert bits + value * w == 64 * (64 * q + value);
    } else if w == 256 {
      assert bits + value * w == 256 * (64 * q + value);
    }
  }

  predicate Fits(r: (nat, seq<int>), step: nat)
    requires step < 8
  {
    r.0 < 0x1_0000 && r.0 % Alignment(step) == 0 && forall u :: u in r.1 ==> 0 <= u < 0x1_0000
  }

  /** Nothing overflows sixteen bits, and what is left over stays left-aligned. */
  lemma ShiftFits(s: State, value: Sextet)
    requires s.Valid()
    ensures Fits(Shift(s.step, s.bits, value), (s.step + 1) % 8)
  {
    if s.step < 4 {
      ShiftFitsEarly(s.step, s.bits, value);
    } else {
      ShiftFitsLate(s.step, s.bits, value);
    }
  }

  lemma ShiftFitsEarly(step: nat, bits: nat, value: Sextet)
    requires step < 4 && bits < 0x1_0000 && bits % Alignment(step) == 0
    ensures Fits(Shift(step, bits, value), step + 1)
  {
    match step
    case 0 => Disjoint(0, 1024, value);
    case 1 => Disjoint(bits, 16, value);
    case 2 => Multiple(value % 4, 16384); Below(bits, 16, value / 4);
    case _ => Disjoint(bits, 256, value);
  }

  lemma ShiftFitsLate(step: nat, bits: nat, value: Sextet)
    requires 4 <= step < 8 && bits < 0x1_0000 && bits % Alignment(step) == 0
    ensures Fits(Shift(step, bits, value), (step + 1) % 8)
  {
    match step
    case 4 => Disjoint(bits, 4, value);
    case 5 => Multiple(value % 16, 4096); Below(bits, 4, value / 16);
    case 6 => Disjoint(bits, 64, value);
    case _ => Disjoint(bits, 1, value);
  }

  lemma Below(bits: nat, w: nat, x: nat)
    requires (w == 16 || w == 4) && bits < 0x1_0000 && bits % w == 0 && x < w
    ensures bits + x < 0x1_0000
  {
  }

  lemma Multiple(k: nat, w: nat)
    requires w == 16384 || w == 4096
    ensures k * w % w == 0
  {
  }

  function DigitMove(s: State, value: Sextet): (m: Move)
    requires s.Valid()
    ensures m.next.Valid() && m.next.base64 == s.base64 && !m.next.isFresh && m.read == 1
    ensures m.asks <==> m.units != []
    ensures |m.units| == if s.step == 2 || s.step == 5 || s.step == 7 then 1 else 0
  {
    var r := Shift(s.step, s.bits, value);
    ShiftFits(s, value);
    Move(State(s.base64, (s.step + 1) % 8, r.0, false), 1, r.1, r.1 != [])
  }

  lemma DigitMoves(s: State, value: Sextet)
    requires s.Valid()
    ensures
      var m, r := DigitMove(s, value), Shift(s.step, s.bits, value);
      m == Move(State(s.base64, (s.step + 1) % 8, r.0, false), 1, m.units, r.1 != []) && m.units == r.1
    ensures Shift(s.step, s.bits, value).1 != [] ==> 0 <= Shift(s.step, s.bits, value).1[0] < 0x1_0000
  {
    ShiftFits(s, value);
  }

  /** What one byte does; `read` is 0 when it only ends the run and is looked at again. `asks`
      is whether there is a test for room before the unit is written. */
  datatype Move = Move(next: State, read: nat, units: seq<Unit>, asks: bool)

  /** `ch` is the '-' of an escape pair, which is decoded to the escape unit. */
  predicate IsPair(s: State, ch: Byte) {
    s.base64 && s.isFresh && ch == DASH
  }

  function NextMove(sc: Scheme, s: State, ch: Byte): (m: Move)
    requires s.Valid()
    ensures m.next.Valid() && m.read <= 1 && |m.units| <= m.read
    ensures if IsPair(s, ch) then m == Move(s.(base64 := false), 1, [sc.Escape()], false)
            else m.asks == (m.units != [])
    ensures m.read == 0 ==> s.base64 && !m.next.base64
  {
    if !s.base64 then
      if ch == sc.Escape() then Move(State(true, 0, 0, true), 1, [], false)
      else Move(s, 1, [ch], true)
    else if s.isFresh && ch == DASH then
      Move(s.(base64 := false), 1, [sc.Escape()], false)
    else if sc.IsDigit(ch) then
      DigitMove(s, sc.Value(ch))
    else
      Move(s.(base64 := false, isFresh := false), if ch == DASH then 1 else 0, [], false)
  }

  function Owed(s: State): nat {
    if s.base64 then 1 else 0
  }

  /** The whole of `src`, with unlimited room. */
  function Run(sc: Scheme, s: State, src: seq<Byte>): (o: Output)
    requires s.Valid()
    ensures o.state.Valid()
    decreases |src|, Owed(s)
  {
    if src == [] then Output(s, [])
    else
      var m := NextMove(sc, s, src[0]);
      Prefix(m.units, Run(sc, m.next, src[m.read..]))
  }

  /** What one call does: the state it leaves, the bytes it read, the units it wrote. */
  datatype Fed = Fed(state: State, read: nat, units: seq<Unit>, status: Status)

  function After(read: nat, units: seq<Unit>, f: Fed): Fed {
    Fed(f.state, read + f.read, units + f.units, f.status)
  }

  function Stuck(s: State): Fed {
    Fed(s, 0, [], MoreOutput)
  }

  /** Moves are made in order until one asks for room and there is none. Escape pairs do not
      ask, so that `room` may become negative. */
  function Feed(sc: Scheme, s: State, src: seq<Byte>, room: int): (f: Fed)
    requires s.Valid()
    ensures f.state.Valid() && |f.units| <= f.read <= |src|
    ensures f.status == Ok || f.status == MoreOutput
    decreases |src|, Owed(s)
  {
    if src == [] then Fed(s, 0, [], Ok)
    else
      var m := NextMove(sc, s, src[0]);
      if m.asks && room < 1 then Stuck(s)
      else After(m.read, m.units, Feed(sc, m.next, src[m.read..], room - |m.units|))
  }

  lemma AfterAfter(r1: nat, u1: seq<Unit>, r2: nat, u2: seq<Unit>, f: Fed)
    ensures After(r1, u1, After(r2, u2, f)) == After(r1 + r2, u1 + u2, f)
  {
    assert u1 + (u2 + f.units) == (u1 + u2) + f.units;
  }

  lemma PrefixPrefix(u1: seq<Unit>, u2: seq<Unit>, o: Output)
    ensures Prefix(u1, Prefix(u2, o)) == Prefix(u1 + u2, o)
  {
    assert u1 + (u2 + o.units) == (u1 + u2) + o.units;
  }

  lemma {:induction false} FirstMove(sc: Scheme, s: State, src: seq<Byte>, room: int)
    requires s.Valid() && src != []
    ensures
      var m := NextMove(sc, s, src[0]);
      Feed(sc, s, src, room) ==
      if m.asks && room < 1 then Stuck(s)
      else After(m.read, m.units, Feed(sc, m.next, src[m.read..], room - |m.units|))
  {
  }

  /** One move of a call in progress: `read` bytes and `units` so far. */
  lemma {:induction false} FeedStep(sc: Scheme, s: State, src: seq<Byte>, read: nat, units: seq<Unit>, room: int)
    requires s.Valid() && read < |src|
    ensures read == 0 && units == [] ==> After(read, units, Feed(sc, s, src[read..], room)) == Feed(sc, s, src, room)
    ensures
      var m := NextMove(sc, s, src[read]);
      After(read, units, Feed(sc, s, src[read..], room)) ==
      if m.asks && room < 1 then After(read, units, Stuck(s))
      else After(read + m.read, units + m.units, Feed(sc, m.next, src[read + m.read..], room - |m.units|))
  {
    hide NextMove, State.Valid, Feed;
    assert src[0..] == src;
    FirstMove(sc, s, src[read..], room);
    var m := NextMove(sc, s, src[read]);
    if !(m.asks && room < 1) {
      assert src[read..][m.read..] == src[read + m.read..];
      AfterAfter(read, units, m.read, m.units, Feed(sc, m.next, src[read + m.read..], room - |m.units|));
    }
  }

  /** Clearing the flag ahead of anything but '-' changes nothing. */
  lemma {:induction false} ClearFresh(sc: Scheme, s: State, src: seq<Byte>, room: int)
    requires s.Valid() && s.base64 && src != []
    requires s.isFresh ==> src[0] != DASH
    ensures s.(isFresh := false).Valid()
    ensures Feed(sc, s, src, room) == Feed(sc, s.(isFresh := false), src, room)
  {
    assert NextMove(sc, s, src[0]) == NextMove(sc, s.(isFresh := false), src[0]);
  }

  lemma FeedNothing(sc: Scheme, s: State, src: seq<Byte>, units: seq<Unit>, room: int)
    requires s.Valid()
    ensures After(|src|, units, Feed(sc, s, src[|src|..], room)) == Fed(s, |src|, units, Ok)
    ensures src == [] ==> Feed(sc, s, src, room) == Fed(s, 0, [], Ok)
  {
    assert src[|src|..] == [];
    assert units + [] == units;
  }

  lemma {:induction false} RunStep(sc: Scheme, s: State, src: seq<Byte>)
    requires s.Valid() && src != []
    ensures
      var m := NextMove(sc, s, src[0]);
      Run(sc, s, src) == Prefix(m.units, Run(sc, m.next, src[m.read..]))
  {
  }

  /** Resumption: whatever the room was, what a call wrote followed by what the unread
      suffix still produces from the state it left is the whole output. */
  lemma {:induction false} FeedResumes(sc: Scheme, s: State, src: seq<Byte>, room: int)
    requires s.Valid()
    ensures
      var f := Feed(sc, s, src, room);
      Run(sc, s, src) == Prefix(f.units, Run(sc, f.state, src[f.read..]))
    decreases |src|, Owed(s)
  {
    hide NextMove, State.Valid, Feed, Run;
    var o := Run(sc, s, src);
    if src == [] {
      FeedNothing(sc, s, src, [], room);
      assert Prefix([], o) == o;
    } else {
      var m := NextMove(sc, s, src[0]);
      FeedStep(sc, s, src, 0, [], room);
      if m.asks && room < 1 {
        assert src[0..] == src && Prefix([], o) == o;
      } else {
        var rest := src[m.read..];
        var g := Feed(sc, m.next, rest, room - |m.units|);
        FeedResumes(sc, m.next, rest, room - |m.units|);
        RunStep(sc, s, src);
        assert [] + m.units == m.units;
        assert rest[g.read..] == src[m.read + g.read..];
        PrefixPrefix(m.units, g.units, Run(sc, g.state, rest[g.read..]));
      }
    }
  }

  /** A call succeeds exactly when it has read everything, and always when the output fits. */
  lemma {:induction false} FeedReads(sc: Scheme, s: State, src: seq<Byte>, room: int)
    requires s.Valid()
    ensures
      var f := Feed(sc, s, src, room);
      && (f.status == Ok <==> f.read == |src|)
      && (|Run(sc, s, src).units| <= room ==> f.status == Ok)
    decreases |src|, Owed(s)
  {
    hide NextMove, State.Valid;
    if src != [] {
      var m := NextMove(sc, s, src[0]);
      if !(m.asks && room < 1) {
        FeedReads(sc, m.next, src[m.read..], room - |m.units|);
      }
    }
  }

  /** With room for one unit, a call on anything at all reads at least one byte. */
  lemma {:induction false} FeedProgress(sc: Scheme, s: State, src: seq<Byte>, room: nat)
    requires s.Valid() && src != [] && room >= 1
    ensures Feed(sc, s, src, room).read >= 1
  {
    hide State.Valid;
    var m := NextMove(sc, s, src[0]);
    if m.read == 0 {
      assert src[0..] == src;
      var m' := NextMove(sc, m.next, src[0]);
      assert m'.read == 1;
      assert Feed(sc, m.next, src, room)
          == After(m'.read, m'.units, Feed(sc, m'.next, src[m'.read..], room - |m'.units|));
    }
  }

  /** Chunk independence: feeding `a` and then `b` is feeding `a + b`. */
  lemma {:induction false} RunConcat(sc: Scheme, s: State, a: seq<Byte>, b: seq<Byte>)
    requires s.Valid()
    ensures
      var o := Run(sc, s, a);
      Run(sc, s, a + b) == Prefix(o.units, Run(sc, o.state, b))
    decreases |a|, Owed(s)
  {
    hide NextMove, State.Valid;
    if a == [] {
      assert a + b == b;
      assert Prefix([], Run(sc, s, b)) == Run(sc, s, b);
    } else {
      var m := NextMove(sc, s, a[0]);
      assert (a + b)[m.read..] == a[m.read..] + b;
      RunConcat(sc, m.next, a[m.read..], b);
      var o := Run(sc, m.next, a[m.read..]);
      PrefixPrefix(m.units, o.units, Run(sc, o.state, b));
    }
  }

  /** No more units than bytes. */
  lemma {:induction false} RunBound(sc: Scheme, s: State, src: seq<Byte>)
    requires s.Valid()
    ensures |Run(sc, s, src).units| <= |src|
    decreases |src|, Owed(s)
  {
    hide NextMove, State.Valid;
    if src != [] {
      var m := NextMove(sc, s, src[0]);
      RunBound(sc, m.next, src[m.read..]);
    }
  }

  /** Totality: with room for as many units as there are bytes, a call reads everything. */
  lemma Total(sc: Scheme, s: State, src: seq<Byte>, room: nat)
    requires s.Valid() && room >= |src|
    ensures
      var f := Feed(sc, s, src, room);
      f.status == Ok && f.read == |src| && |f.units| <= |src| && Output(f.state, f.units) == Run(sc, s, src)
  {
    hide State.Valid, NextMove;
    RunBound(sc, s, src);
    FeedReads(sc, s, src, room);
    FeedResumes(sc, s, src, room);
    var f := Feed(sc, s, src, room);
    assert src[f.read..] == [] && f.units + [] == f.units;
  }

  /** The flag is only looked at in base64 mode, and entering base64 mode sets it. */
  lemma {:induction false} FreshDoesNotMatter(sc: Scheme, s: State, isFresh: bool, src: seq<Byte>)
    requires s.Valid() && !s.base64
    ensures
      var a, b := Run(sc, s, src), Run(sc, s.(isFresh := isFresh), src);
      a.units == b.units && (a.state == b.state || (!a.state.base64 && b.state == a.state.(isFresh := isFresh)))
    decreases |src|
  {
    if src != [] && src[0] != sc.Escape() {
      FreshDoesNotMatter(sc, s, isFresh, src[1..]);
    }
  }
}
