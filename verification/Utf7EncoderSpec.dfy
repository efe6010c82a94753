/** The encoder as a machine over atomic writes: what one call with a bounded buffer does
    (`Feed`), and what a call with unlimited room would do (`Run`). */
module Utf7EncoderSpec {
  import opened Utf7Scheme

  datatype State = State(base64: bool, step: nat, bits: nat) {

    /** `bits` holds 0, 4 or 2 leftover bits, left-aligned in six. */
    predicate Valid(): (valid: bool)
      ensures valid ==> step < 3 && bits < 64 && (step != 0 ==> base64)
      ensures valid && step == 1 ==> bits <= 60
      ensures valid && step == 2 ==> bits <= 48
    {
      && bits < 64
      && match step
         case 0 => bits == 0
         case 1 => base64 && bits % 4 == 0
         case 2 => base64 && bits % 16 == 0
         case _ => false
    }
  }

  const INITIAL := State(false, 0, 0)

  datatype Output = Output(state: State, bytes: seq<Byte>)

  function Prefix(bytes: seq<Byte>, o: Output): Output {
    Output(o.state, bytes + o.bytes)
  }

  /** The digits that become complete when a unit arrives, and the state after it. */
  function Group(s: State, u: Unit): (r: (State, seq<Sextet>))
    requires s.Valid() && s.base64
    ensures r.0.Valid() && r.0.base64
    ensures |r.1| == if s.step == 0 then 2 else 3
  {
    if s.step == 0 then
      LeftAligned(u % 16, 4);
      (State(true, 1, u % 16 * 4), [u / 1024, u / 16 % 64])
    else if s.step == 1 then
      LeftAligned(u % 4, 16);
      (State(true, 2, u % 4 * 16), [s.bits + u / 16384, u / 256 % 64, u / 4 % 64])
    else
      (State(true, 0, 0), [s.bits + u / 4096, u / 64 % 64, u % 64])
  }

  lemma LeftAligned(a: nat, unit: nat)
    requires unit == 4 || unit == 16
    ensures a * unit % unit == 0
  {
  }

  /** One indivisible write: it is made whole or not at all. `read` is 0 while the mode is still
      being changed for the unit, 1 when the unit itself is written. `asks` is the room that is
      tested for; the bytes of an escape pair are one more than that. */
  datatype Move = Move(next: State, read: nat, bytes: seq<Byte>, asks: nat)

  function ShiftMove(sc: Scheme, s: State, base64: bool): (m: Move)
    requires s.Valid() && s.base64 != base64
    ensures m.next.Valid() && m.read == 0 && |m.bytes| == m.asks == 1
  {
    if s.step != 0 then Move(State(true, 0, 0), 0, [sc.Digit(s.bits)], 1)
    else Move(State(base64, 0, 0), 0, [if base64 then sc.Escape() else DASH], 1)
  }

  /** How many mode-changing writes stand before `u`. */
  function Lag(sc: Scheme, s: State, u: Unit): nat {
    if s.base64 != sc.DirectEncodable(u) then 0
    else if s.step != 0 then 2
    else 1
  }

  /** `u` is the escape unit and is written directly, as a pair. */
  predicate IsPair(sc: Scheme, s: State, u: Unit) {
    !s.base64 && u == sc.Escape() && sc.DirectEncodable(u)
  }

  function NextMove(sc: Scheme, s: State, u: Unit): (m: Move)
    requires s.Valid()
    ensures m.next.Valid() && m.read <= 1 && 1 <= |m.bytes| <= 3
    ensures if IsPair(sc, s, u) then m == Move(s, 1, [u, DASH], 1) else m.asks == |m.bytes|
    ensures m.read == 0 ==> Lag(sc, m.next, u) < Lag(sc, s, u)
  {
    if s.base64 == sc.DirectEncodable(u) then
      ShiftMove(sc, s, !s.base64)
    else if s.base64 then
      var (next, ds) := Group(s, u);
      Move(next, 1, sc.Chars(ds), |ds|)
    else
      Move(s, 1, if u == sc.Escape() then [u, DASH] else [u], 1)
  }

  function Owed(sc: Scheme, s: State, src: seq<Unit>): nat {
    if src == [] then 0 else Lag(sc, s, src[0])
  }

  /** The whole of `src`, with unlimited room. */
  function Run(sc: Scheme, s: State, src: seq<Unit>): (o: Output)
    requires s.Valid()
    ensures o.state.Valid()
    decreases |src|, Owed(sc, s, src)
  {
    if src == [] then Output(s, [])
    else
      var m := NextMove(sc, s, src[0]);
      Prefix(m.bytes, Run(sc, m.next, src[m.read..]))
  }

  /** What one call does: the state it leaves, the units it read, the bytes it wrote. */
  datatype Fed = Fed(state: State, read: nat, bytes: seq<Byte>, status: Status)

  function After(read: nat, bytes: seq<Byte>, f: Fed): Fed {
    Fed(f.state, read + f.read, bytes + f.bytes, f.status)
  }

  function Stuck(s: State): Fed {
    Fed(s, 0, [], MoreOutput)
  }

  /** Moves are made in order for as long as the room each one asks for is left. After an escape
      pair that fills more than that, `room` is -1. */
  function Feed(sc: Scheme, s: State, src: seq<Unit>, room: int): (f: Fed)
    requires s.Valid()
    ensures f.state.Valid() && f.read <= |src|
    ensures if room < 0 then f.bytes == [] else |f.bytes| <= room + 1
    ensures f.status == Ok || f.status == MoreOutput
    decreases |src|, Owed(sc, s, src)
  {
    if src == [] then Fed(s, 0, [], Ok)
    else
      var m := NextMove(sc, s, src[0]);
      if m.asks > room then Stuck(s)
      else After(m.read, m.bytes, Feed(sc, m.next, src[m.read..], room - |m.bytes|))
  }

  /** What a change of mode writes: the leftover bits as one last digit, then the shift byte. */
  function ShiftBytes(sc: Scheme, s: State, base64: bool): (t: seq<Byte>)
    requires s.Valid()
    ensures |t| <= 2
  {
    if s.base64 == base64 then []
    else if s.step != 0 then [sc.Digit(s.bits), DASH]
    else [if base64 then sc.Escape() else DASH]
  }

  /** A change of mode within `room`. When only the digit fits, the shift byte stays owed. */
  function Shift(sc: Scheme, s: State, base64: bool, room: int): (f: Fed)
    requires s.Valid()
    ensures f.state.Valid() && f.read == 0 && f.status != IllegalInput
    ensures f.bytes == [] || |f.bytes| <= room
    ensures f.status == Ok ==> f.state.base64 == base64
  {
    var t := ShiftBytes(sc, s, base64);
    if s.base64 == base64 then Fed(s, 0, [], Ok)
    else if |t| <= room then Fed(State(base64, 0, 0), 0, t, Ok)
    else if room <= 0 then Stuck(s)
    else Fed(State(true, 0, 0), 0, t[..1], MoreOutput)
  }

  /** What finishing writes, with unlimited room. */
  function Closing(sc: Scheme, s: State): (t: seq<Byte>)
    requires s.Valid()
  {
    ShiftBytes(sc, s, false)
  }

  /** Everything: `src` from `s`, then finish. */
  function Encode(sc: Scheme, s: State, src: seq<Unit>): seq<Byte>
    requires s.Valid()
  {
    var o := Run(sc, s, src);
    o.bytes + Closing(sc, o.state)
  }

  lemma {:induction false} AfterAfter(r1: nat, b1: seq<Byte>, r2: nat, b2: seq<Byte>, f: Fed)
    ensures After(r1, b1, After(r2, b2, f)) == After(r1 + r2, b1 + b2, f)
  {
    assert b1 + (b2 + f.bytes) == (b1 + b2) + f.bytes;
  }

  lemma {:induction false} PrefixPrefix(b1: seq<Byte>, b2: seq<Byte>, o: Output)
    ensures Prefix(b1, Prefix(b2, o)) == Prefix(b1 + b2, o)
  {
    assert b1 + (b2 + o.bytes) == (b1 + b2) + o.bytes;
  }

  lemma {:induction false} FirstMove(sc: Scheme, s: State, src: seq<Unit>, room: int)
    requires s.Valid() && src != []
    ensures
      var m := NextMove(sc, s, src[0]);
      Feed(sc, s, src, room) ==
      if m.asks > room then Stuck(s)
      else After(m.read, m.bytes, Feed(sc, m.next, src[m.read..], room - |m.bytes|))
  {
  }

  /** One move of a call in progress: `read` units and `bytes` so far. */
  lemma {:induction false} FeedStep(sc: Scheme, s: State, src: seq<Unit>, read: nat, bytes: seq<Byte>, room: int)
    requires s.Valid() && read < |src|
    ensures read == 0 && bytes == [] ==> After(read, bytes, Feed(sc, s, src[read..], room)) == Feed(sc, s, src, room)
    ensures
      var m := NextMove(sc, s, src[read]);
      After(read, bytes, Feed(sc, s, src[read..], room)) ==
      if m.asks > room then After(read, bytes, Stuck(s))
      else After(read + m.read, bytes + m.bytes, Feed(sc, m.next, src[read + m.read..], room - |m.bytes|))
  {
    hide NextMove, State.Valid, Feed;
    assert src[0..] == src;
    FirstMove(sc, s, src[read..], room);
    var m := NextMove(sc, s, src[read]);
    if m.asks <= room {
      assert src[read..][m.read..] == src[read + m.read..];
      AfterAfter(read, bytes, m.read, m.bytes, Feed(sc, m.next, src[read + m.read..], room - |m.bytes|));
    }
  }

  lemma FeedNothing(sc: Scheme, s: State, src: seq<Unit>, bytes: seq<Byte>, room: int)
    requires s.Valid()
    ensures After(|src|, bytes, Feed(sc, s, src[|src|..], room)) == Fed(s, |src|, bytes, Ok)
    ensures src == [] ==> Feed(sc, s, src, room) == Fed(s, 0, [], Ok)
  {
    assert src[|src|..] == [];
    assert bytes + [] == bytes;
  }

  /** A shift is one or two moves. */
  lemma ShiftMoves(sc: Scheme, s: State, u: Unit, room: int)
    requires s.Valid() && s.base64 == sc.DirectEncodable(u)
    ensures
      var f := Shift(sc, s, !s.base64, room);
      var m := NextMove(sc, s, u);
      && m.read == 0 && m.asks == 1
      && if s.step == 0 then f == if room < 1 then Stuck(s) else Fed(m.next, 0, m.bytes, Ok)
         else
           var m' := NextMove(sc, m.next, u);
           && m'.read == 0 && m'.asks == 1
           && f == if room < 1 then Stuck(s)
                   else if room == 1 then Fed(m.next, 0, m.bytes, MoreOutput)
                   else Fed(m'.next, 0, m.bytes + m'.bytes, Ok)
  {
    hide Scheme.DirectEncodable, Scheme.Digit, Group;
  }

  /** A call on a unit first shifts to that unit's mode, then feeds. */
  lemma {:induction false} ShiftThenFeed(sc: Scheme, s: State, src: seq<Unit>, read: nat, bytes: seq<Byte>, room: int)
    requires s.Valid() && read < |src|
    ensures
      var f := Shift(sc, s, !sc.DirectEncodable(src[read]), room);
      After(read, bytes, Feed(sc, s, src[read..], room)) ==
      After(read, bytes + f.bytes,
            if f.status != Ok then Stuck(f.state) else Feed(sc, f.state, src[read..], room - |f.bytes|))
  {
    hide NextMove, Shift, Feed, Scheme.DirectEncodable, State.Valid;
    var u := src[read];
    assert bytes + [] == bytes;
    if s.base64 != sc.DirectEncodable(u) {
      NoShift(sc, s, room);
    } else {
      ShiftMoves(sc, s, u, room);
      FeedStep(sc, s, src, read, bytes, room);
      var m := NextMove(sc, s, u);
      if s.step != 0 && room > 0 {
        SecondShift(sc, m.next, src, read, bytes, m.bytes, room - 1);
      }
    }
  }

  lemma NoShift(sc: Scheme, s: State, room: int)
    requires s.Valid()
    ensures Shift(sc, s, s.base64, room) == Fed(s, 0, [], Ok)
  {
  }

  lemma SecondShift(sc: Scheme, s: State, src: seq<Unit>, read: nat, bytes: seq<Byte>, digit: seq<Byte>, room: int)
    requires s.Valid() && read < |src|
    requires NextMove(sc, s, src[read]).read == 0 && NextMove(sc, s, src[read]).asks == 1
    ensures
      var m := NextMove(sc, s, src[read]);
      After(read, bytes + digit, Feed(sc, s, src[read..], room)) ==
      if room < 1 then After(read, bytes + digit, Stuck(s))
      else After(read, bytes + (digit + m.bytes), Feed(sc, m.next, src[read..], room - |m.bytes|))
  {
    hide NextMove, Feed, State.Valid;
    FeedStep(sc, s, src, read, bytes + digit, room);
    var m := NextMove(sc, s, src[read]);
    assert bytes + digit + m.bytes == bytes + (digit + m.bytes);
  }

  lemma {:induction false} RunStep(sc: Scheme, s: State, src: seq<Unit>)
    requires s.Valid() && src != []
    ensures
      var m := NextMove(sc, s, src[0]);
      Run(sc, s, src) == Prefix(m.bytes, Run(sc, m.next, src[m.read..]))
  {
  }

  /** Resumption: whatever the room was, what a call wrote followed by what the unread
      suffix still produces from the state it left is the whole output. */
  lemma {:induction false} FeedResumes(sc: Scheme, s: State, src: seq<Unit>, room: int)
    requires s.Valid()
    ensures
      var f := Feed(sc, s, src, room);
      Run(sc, s, src) == Prefix(f.bytes, Run(sc, f.state, src[f.read..]))
    decreases |src|, Owed(sc, s, src)
  {
    hide NextMove, Lag, Group, ShiftMove, State.Valid, Feed, Run;
    var o := Run(sc, s, src);
    if src == [] {
      FeedNothing(sc, s, src, [], room);
      assert Prefix([], o) == o;
    } else {
      var m := NextMove(sc, s, src[0]);
      FeedStep(sc, s, src, 0, [], room);
      if m.asks > room {
        assert src[0..] == src && Prefix([], o) == o;
      } else {
        var rest := src[m.read..];
        var g := Feed(sc, m.next, rest, room - |m.bytes|);
        FeedResumes(sc, m.next, rest, room - |m.bytes|);
        RunStep(sc, s, src);
        assert [] + m.bytes == m.bytes;
        assert rest[g.read..] == src[m.read + g.read..];
        PrefixPrefix(m.bytes, g.bytes, Run(sc, g.state, rest[g.read..]));
      }
    }
  }

  /** A call succeeds exactly when it has read everything, and always when the output fits. */
  lemma {:induction false} FeedReads(sc: Scheme, s: State, src: seq<Unit>, room: int)
    requires s.Valid()
    ensures
      var f := Feed(sc, s, src, room);
      && (f.status == Ok <==> f.read == |src|)
      && (|Run(sc, s, src).bytes| <= room ==> f.status == Ok)
    decreases |src|, Owed(sc, s, src)
  {
    hide Group, ShiftMove, State.Valid, NextMove, Lag;
    if src != [] {
      var m := NextMove(sc, s, src[0]);
      if m.asks <= room {
        FeedReads(sc, m.next, src[m.read..], room - |m.bytes|);
      }
    }
  }

  lemma MoveLag(sc: Scheme, s: State, u: Unit)
    requires s.Valid()
    ensures
      var m := NextMove(sc, s, u);
      && m.asks <= 3
      && (m.read == 0 <==> Lag(sc, s, u) > 0)
      && (m.read == 0 ==> m.asks == |m.bytes| == 1)
  {
    hide Group, Scheme.DirectEncodable, Scheme.Digit;
  }

  /** With room for every change of mode, the mode changes or a unit is read. */
  lemma {:induction false} FeedSettles(sc: Scheme, s: State, src: seq<Unit>, room: nat)
    requires s.Valid() && src != [] && room >= Owed(sc, s, src)
    ensures
      var f := Feed(sc, s, src, room);
      f.read > 0 || Owed(sc, f.state, src) == 0
    decreases Owed(sc, s, src)
  {
    hide Feed, NextMove, Lag, State.Valid;
    FirstMove(sc, s, src, room);
    MoveLag(sc, s, src[0]);
    var m := NextMove(sc, s, src[0]);
    if m.read == 0 {
      assert src[0..] == src;
      FeedSettles(sc, m.next, src, room - 1);
    }
  }

  /** With three bytes of room a call that stops early has still read a unit or changed mode. */
  lemma {:induction false} FeedProgress(sc: Scheme, s: State, src: seq<Unit>, room: nat)
    requires s.Valid() && src != [] && room >= 3
    ensures
      var f := Feed(sc, s, src, room);
      f.read > 0 || (Owed(sc, f.state, src) == 0 < Owed(sc, s, src))
  {
    FirstMove(sc, s, src, room);
    MoveLag(sc, s, src[0]);
    assert Lag(sc, s, src[0]) <= 2;
    hide Feed, NextMove, Lag, State.Valid;
    if Owed(sc, s, src) > 0 {
      FeedSettles(sc, s, src, room);
    }
  }

  /** Chunk independence: feeding `a` and then `b` is feeding `a + b`. */
  lemma {:induction false} RunConcat(sc: Scheme, s: State, a: seq<Unit>, b: seq<Unit>)
    requires s.Valid()
    ensures
      var o := Run(sc, s, a);
      Run(sc, s, a + b) == Prefix(o.bytes, Run(sc, o.state, b))
    decreases |a|, Owed(sc, s, a)
  {
    if a == [] {
      assert a + b == b;
      assert Prefix([], Run(sc, s, b)) == Run(sc, s, b);
    } else {
      var m := NextMove(sc, s, a[0]);
      assert (a + b)[m.read..] == a[m.read..] + b;
      RunConcat(sc, m.next, a[m.read..], b);
      var o := Run(sc, m.next, a[m.read..]);
      PrefixPrefix(m.bytes, o.bytes, Run(sc, o.state, b));
    }
  }

  /** Finishing within `room`: resumes, succeeds exactly when it fits, and always gets on. */
  lemma {:induction false} ShiftFinishes(sc: Scheme, s: State, room: nat)
    requires s.Valid()
    ensures
      var f := Shift(sc, s, false, room);
      && Closing(sc, s) == f.bytes + Closing(sc, f.state)
      && (f.status == Ok <==> |Closing(sc, s)| <= room)
      && (f.status == Ok ==> Closing(sc, f.state) == [])
      && (room > 0 && f.status != Ok ==> |Closing(sc, f.state)| < |Closing(sc, s)|)
  {
    var t := Closing(sc, s);
    if 0 < room < |t| {
      assert t == t[..1] + [DASH];
    }
  }
}
