/** What one decoder call may write behind its buffer. The unit of an escape pair is written
    without a test, so a call can write past its room, and by any number of units. This says
    exactly when, when a call stops, and that a room of the input's length is always enough. */
module Utf7DecoderOverrun {
  import opened Utf7Scheme
  import opened Utf7DecoderSpec

  /** The call as it would be if the unit of an escape pair, too, were tested for room. */
  function Guarded(sc: Scheme, s: State, src: seq<Byte>, room: nat): (f: Fed)
    requires s.Valid()
    ensures f.state.Valid() && f.read <= |src| && |f.units| <= room
    ensures f.status == Ok <==> f.read == |src|
    ensures f.status != IllegalInput
    decreases |src|, Owed(s)
  {
    if src == [] then Fed(s, 0, [], Ok)
    else
      var m := NextMove(sc, s, src[0]);
      if |m.units| > room then Stuck(s)
      else After(m.read, m.units, Guarded(sc, m.next, src[m.read..], room - |m.units|))
  }

  predicate Overruns(sc: Scheme, s: State, src: seq<Byte>, room: nat)
    requires s.Valid()
  {
    |Feed(sc, s, src, room).units| > room
  }

  /** A guarded call that has stopped at the '-' of an escape pair with no room left. */
  predicate StopsAtPair(g: Fed, src: seq<Byte>, room: nat) {
    |g.units| == room && g.read < |src| && IsPair(g.state, src[g.read])
  }

  lemma {:induction false} GuardedMove(sc: Scheme, s: State, src: seq<Byte>, room: nat)
    requires s.Valid() && src != []
    ensures
      var m := NextMove(sc, s, src[0]);
      Guarded(sc, s, src, room) ==
      if |m.units| > room then Stuck(s)
      else After(m.read, m.units, Guarded(sc, m.next, src[m.read..], room - |m.units|))
  {
  }

  lemma Nothing(sc: Scheme, s: State, room: int)
    requires s.Valid()
    ensures Feed(sc, s, [], room) == Fed(s, 0, [], Ok)
    ensures room >= 0 ==> Guarded(sc, s, [], room) == Fed(s, 0, [], Ok)
    ensures Run(sc, s, []) == Output(s, [])
  {
  }

  lemma AfterNothing(f: Fed)
    ensures After(0, [], f) == f
  {
  }

  lemma GoesOnAfter(read: nat, units: seq<Unit>, g: Fed, f: Fed, later: Fed)
    requires f == After(g.read, g.units, later)
    ensures After(read, units, f) == After(read + g.read, units + g.units, later)
  {
    AfterAfter(read, units, g.read, g.units, later);
  }

  /** A call does all its guarded form does, and goes on from there. */
  lemma {:induction false} FeedGoesOn(sc: Scheme, s: State, src: seq<Byte>, room: nat)
    requires s.Valid()
    ensures
      var g := Guarded(sc, s, src, room);
      Feed(sc, s, src, room) == After(g.read, g.units, Feed(sc, g.state, src[g.read..], room - |g.units|))
    decreases |src|, Owed(s)
  {
    hide NextMove, State.Valid, Feed, Guarded;
    if src == [] {
      Nothing(sc, s, room);
      return;
    }
    var m := NextMove(sc, s, src[0]);
    GuardedMove(sc, s, src, room);
    if |m.units| <= room {
      FirstMove(sc, s, src, room);
      var rest := src[m.read..];
      FeedGoesOn(sc, m.next, rest, room - |m.units|);
      var g := Guarded(sc, m.next, rest, room - |m.units|);
      assert rest[g.read..] == src[m.read + g.read..];
      var later := Feed(sc, g.state, rest[g.read..], room - |m.units| - |g.units|);
      GoesOnAfter(m.read, m.units, g, Feed(sc, m.next, rest, room - |m.units|), later);
      assert room - |m.units| - |g.units| == room - |m.units + g.units|;
    } else {
      AfterNothing(Feed(sc, s, src, room));
      assert src[0..] == src;
    }
  }

  /** A guarded call stops only where the next move does not fit. */
  lemma {:induction false} GuardedStops(sc: Scheme, s: State, src: seq<Byte>, room: nat)
    requires s.Valid()
    ensures
      var g := Guarded(sc, s, src, room);
      g.read < |src| ==> g.status == MoreOutput && |NextMove(sc, g.state, src[g.read]).units| > room - |g.units|
    decreases |src|, Owed(s)
  {
    hide NextMove, State.Valid, Guarded;
    if src == [] {
      return;
    }
    var m := NextMove(sc, s, src[0]);
    GuardedMove(sc, s, src, room);
    if |m.units| <= room {
      var rest := src[m.read..];
      GuardedStops(sc, m.next, rest, room - |m.units|);
      var g := Guarded(sc, m.next, rest, room - |m.units|);
      assert g.read < |rest| ==> rest[g.read] == src[m.read + g.read];
    }
  }

  /** A call writes past its room exactly when its guarded form stops at an escape pair, and is its
      guarded form otherwise. */
  lemma FeedIsGuarded(sc: Scheme, s: State, src: seq<Byte>, room: nat)
    requires s.Valid()
    ensures
      var f, g := Feed(sc, s, src, room), Guarded(sc, s, src, room);
      && (Overruns(sc, s, src, room) <==> StopsAtPair(g, src, room))
      && (!Overruns(sc, s, src, room) ==> f == g)
  {
    hide NextMove, State.Valid, Feed, Guarded, IsPair;
    FeedGoesOn(sc, s, src, room);
    GuardedStops(sc, s, src, room);
    var g := Guarded(sc, s, src, room);
    var rest := src[g.read..];
    if rest == [] {
      Nothing(sc, g.state, room - |g.units|);
      assert g.units + [] == g.units;
    } else {
      assert rest[0] == src[g.read];
      FirstMove(sc, g.state, rest, room - |g.units|);
      assert g.units + [] == g.units;
    }
  }

  // ---- in terms of the input ------------------------------------------------------------

  /** What the bytes before the one at `i` come to. */
  function Before(sc: Scheme, s: State, src: seq<Byte>, i: nat): (o: Output)
    requires s.Valid() && i <= |src|
    ensures o.state.Valid()
  {
    Run(sc, s, src[..i])
  }

  lemma {:induction false} BeforeMove(sc: Scheme, s: State, src: seq<Byte>, i: nat)
    requires s.Valid() && i <= |src|
    ensures
      if i == 0 then Before(sc, s, src, i) == Output(s, [])
      else
        var m := NextMove(sc, s, src[0]);
        Before(sc, s, src, i) == Prefix(m.units, Before(sc, m.next, src[m.read..], i - m.read))
  {
    hide NextMove, State.Valid, Run;
    Nothing(sc, s, 0);
    if 0 < i {
      var m := NextMove(sc, s, src[0]);
      RunStep(sc, s, src[..i]);
      assert src[..i][m.read..] == src[m.read..][..i - m.read];
    }
  }

  lemma PairReads(sc: Scheme, s: State, ch: Byte)
    requires s.Valid()
    ensures NextMove(sc, s, ch).read == 0 ==> !IsPair(s, ch) && !IsPair(NextMove(sc, s, ch).next, ch)
  {
  }

  /** The byte at `i` is the '-' of an escape pair, met when the room is used up. */
  predicate PairAcross(sc: Scheme, s: State, src: seq<Byte>, room: int, i: nat): (at: bool)
    requires s.Valid()
    ensures at ==> i < |src|
  {
    i < |src| && IsPair(Before(sc, s, src, i).state, src[i]) && |Before(sc, s, src, i).units| == room
  }

  lemma {:induction false} PairAcrossMove(sc: Scheme, s: State, src: seq<Byte>, room: int, i: nat)
    requires s.Valid() && src != []
    ensures
      var m := NextMove(sc, s, src[0]);
      PairAcross(sc, s, src, room, i) <==>
      if i < m.read then IsPair(s, src[0]) && room == 0
      else PairAcross(sc, m.next, src[m.read..], room - |m.units|, i - m.read)
  {
    hide NextMove, State.Valid, Before, IsPair;
    if i < |src| {
      var m := NextMove(sc, s, src[0]);
      BeforeMove(sc, s, src, i);
      BeforeMove(sc, m.next, src[m.read..], 0);
      PairReads(sc, s, src[0]);
      assert m.read == 0 ==> src[m.read..] == src;
    }
  }

  lemma {:induction false} AcrossOverruns(sc: Scheme, s: State, src: seq<Byte>, room: nat, i: nat)
    requires s.Valid() && PairAcross(sc, s, src, room, i)
    ensures Overruns(sc, s, src, room)
    decreases |src|, Owed(s)
  {
    hide NextMove, State.Valid, Feed, IsPair, PairAcross, Before;
    var m := NextMove(sc, s, src[0]);
    FirstMove(sc, s, src, room);
    PairAcrossMove(sc, s, src, room, i);
    if i >= m.read {
      NotStuckBefore(sc, s, src, room, i);
      AcrossOverruns(sc, m.next, src[m.read..], room - |m.units|, i - m.read);
    }
  }

  /** What is written before the pair fits. */
  lemma NotStuckBefore(sc: Scheme, s: State, src: seq<Byte>, room: int, i: nat)
    requires s.Valid() && src != [] && PairAcross(sc, s, src, room, i)
    ensures i >= NextMove(sc, s, src[0]).read ==> |NextMove(sc, s, src[0]).units| <= room
  {
    hide NextMove, State.Valid, Before, IsPair;
    BeforeMove(sc, s, src, i);
  }

  lemma {:induction false} OverrunsAcross(sc: Scheme, s: State, src: seq<Byte>, room: nat) returns (i: nat)
    requires s.Valid() && Overruns(sc, s, src, room)
    ensures PairAcross(sc, s, src, room, i)
    decreases |src|, Owed(s)
  {
    hide NextMove, State.Valid, Feed, IsPair, PairAcross;
    Nothing(sc, s, room);
    var m := NextMove(sc, s, src[0]);
    FirstMove(sc, s, src, room);
    if |m.units| > room {
      i := 0;
    } else {
      i := OverrunsAcross(sc, m.next, src[m.read..], room - |m.units|);
      i := i + m.read;
    }
    PairAcrossMove(sc, s, src, room, i);
  }

  /** A call writes past its room exactly when some escape pair ends at a moment when the room is
      used up. */
  lemma OverrunsExactly(sc: Scheme, s: State, src: seq<Byte>, room: nat)
    requires s.Valid()
    ensures Overruns(sc, s, src, room) <==> exists i: nat :: PairAcross(sc, s, src, room, i)
  {
    if Overruns(sc, s, src, room) {
      var i := OverrunsAcross(sc, s, src, room);
    }
    if i: nat :| PairAcross(sc, s, src, room, i) {
      AcrossOverruns(sc, s, src, room, i);
    }
  }

  /** A room of the input's length is always enough: the call is its guarded form. */
  lemma RoomOfLength(sc: Scheme, s: State, src: seq<Byte>, room: nat)
    requires s.Valid() && room >= |src|
    ensures Feed(sc, s, src, room) == Guarded(sc, s, src, room) && !Overruns(sc, s, src, room)
  {
    hide Feed, Guarded, Run;
    FeedIsGuarded(sc, s, src, room);
    OverrunsExactly(sc, s, src, room);
    forall i: nat ensures !PairAcross(sc, s, src, room, i) {
      if i < |src| {
        RunBound(sc, s, src[..i]);
      }
    }
  }

  /** An escape pair is the escape byte and '-', in this input or begun in the one before. */
  lemma {:induction false} PairBytes(sc: Scheme, s: State, src: seq<Byte>, room: int, i: nat)
    requires s.Valid() && PairAcross(sc, s, src, room, i)
    ensures i < |src| && src[i] == DASH
    ensures if i == 0 then s.base64 && s.isFresh else src[i - 1] == sc.Escape()
    decreases |src|, Owed(s)
  {
    assert i < |src| && src[i] == DASH;
    if i == 0 {
      assert src[..0] == [];
      return;
    }
    FreshAfterEscape(sc, s, src[0]);
    hide NextMove, PairAcross, IsPair, State.Valid;
    PairAcrossMove(sc, s, src, room, i);
    var m := NextMove(sc, s, src[0]);
    PairBytes(sc, m.next, src[m.read..], room - |m.units|, i - m.read);
  }

  lemma FreshAfterEscape(sc: Scheme, s: State, ch: Byte)
    requires s.Valid()
    ensures
      var m := NextMove(sc, s, ch);
      m.next.base64 && m.next.isFresh ==> m.read == 1 && ch == sc.Escape()
  {
    hide State.Valid;
  }

  /** Input without escape pairs is decoded within any room. */
  lemma NoPairStaysWithin(sc: Scheme, s: State, src: seq<Byte>, room: nat)
    requires s.Valid() && (src != [] ==> !IsPair(s, src[0]))
    requires forall i :: 0 < i < |src| && src[i] == DASH ==> src[i - 1] != sc.Escape()
    ensures Feed(sc, s, src, room) == Guarded(sc, s, src, room) && !Overruns(sc, s, src, room)
  {
    hide Feed, Guarded, PairAcross;
    FeedIsGuarded(sc, s, src, room);
    OverrunsExactly(sc, s, src, room);
    forall i: nat ensures !PairAcross(sc, s, src, room, i) {
      if PairAcross(sc, s, src, room, i) {
        PairBytes(sc, s, src, room, i);
      }
    }
  }

  /** At the byte at `i` the room is used up, or more than used up, and a unit that is not the one
      of an escape pair is to be written. */
  predicate FullAt(sc: Scheme, s: State, src: seq<Byte>, room: int, i: nat): (at: bool)
    requires s.Valid()
    ensures at ==> i < |src|
  {
    && i < |src|
    && !IsPair(Before(sc, s, src, i).state, src[i])
    && room <= |Before(sc, s, src, i).units| < |Before(sc, s, src, i + 1).units|
  }

  lemma {:induction false} FullAtMove(sc: Scheme, s: State, src: seq<Byte>, room: int, i: nat)
    requires s.Valid() && src != []
    ensures
      var m := NextMove(sc, s, src[0]);
      FullAt(sc, s, src, room, i) <==>
      if i < m.read then m.asks && room < 1
      else FullAt(sc, m.next, src[m.read..], room - |m.units|, i - m.read)
  {
    hide NextMove, State.Valid, Before, IsPair;
    if i < |src| {
      var m := NextMove(sc, s, src[0]);
      BeforeMove(sc, s, src, i);
      BeforeMove(sc, s, src, i + 1);
      BeforeMove(sc, m.next, src[m.read..], 0);
      PairReads(sc, s, src[0]);
      assert m.read == 0 ==> src[m.read..] == src;
    }
  }

  lemma {:induction false} FullStops(sc: Scheme, s: State, src: seq<Byte>, room: int, i: nat)
    requires s.Valid() && FullAt(sc, s, src, room, i)
    ensures Feed(sc, s, src, room).status == MoreOutput
    decreases |src|, Owed(s)
  {
    hide NextMove, State.Valid, Feed, FullAt, Before, IsPair;
    var m := NextMove(sc, s, src[0]);
    FirstMove(sc, s, src, room);
    FullAtMove(sc, s, src, room, i);
    if i >= m.read && !(m.asks && room < 1) {
      FullStops(sc, m.next, src[m.read..], room - |m.units|, i - m.read);
    }
  }

  lemma {:induction false} StopsFull(sc: Scheme, s: State, src: seq<Byte>, room: int) returns (i: nat)
    requires s.Valid() && Feed(sc, s, src, room).status == MoreOutput
    ensures FullAt(sc, s, src, room, i)
    decreases |src|, Owed(s)
  {
    hide NextMove, State.Valid, Feed, FullAt, IsPair, Before;
    Nothing(sc, s, room);
    var m := NextMove(sc, s, src[0]);
    FirstMove(sc, s, src, room);
    if m.asks && room < 1 {
      i := 0;
      AsksReads(sc, s, src[0]);
    } else {
      i := StopsFull(sc, m.next, src[m.read..], room - |m.units|);
      i := i + m.read;
    }
    FullAtMove(sc, s, src, room, i);
  }

  lemma AsksReads(sc: Scheme, s: State, ch: Byte)
    requires s.Valid()
    ensures NextMove(sc, s, ch).asks ==> NextMove(sc, s, ch).read == 1
  {
  }

  /** A call fails exactly when some unit that is not the one of an escape pair is due when the room
      is used up. */
  lemma FailsExactly(sc: Scheme, s: State, src: seq<Byte>, room: int)
    requires s.Valid()
    ensures Feed(sc, s, src, room).status == MoreOutput <==> exists i: nat :: FullAt(sc, s, src, room, i)
  {
    hide Feed, FullAt;
    if Feed(sc, s, src, room).status == MoreOutput {
      var i := StopsFull(sc, s, src, room);
    }
    if i: nat :| FullAt(sc, s, src, room, i) {
      FullStops(sc, s, src, room, i);
    }
  }

  // ---- inputs for which it happens ------------------------------------------------------

  /** n escape pairs. */
  function Pairs(sc: Scheme, n: nat): (t: seq<Byte>)
    ensures |t| == 2 * n
  {
    if n == 0 then [] else [sc.Escape(), DASH] + Pairs(sc, n - 1)
  }

  function Escapes(sc: Scheme, n: nat): (u: seq<Unit>)
    ensures |u| == n
    ensures forall i :: 0 <= i < n ==> u[i] == sc.Escape()
  {
    if n == 0 then [] else [sc.Escape()] + Escapes(sc, n - 1)
  }

  /** Escape pairs are decoded whatever the room is. */
  lemma {:induction false} PairsIgnoreRoom(sc: Scheme, s: State, n: nat, room: int)
    requires s.Valid() && !s.base64
    ensures
      var f := Feed(sc, s, Pairs(sc, n), room);
      f.read == 2 * n && f.units == Escapes(sc, n) && f.status == Ok
    decreases n
  {
    hide Feed, State.Valid;
    if n == 0 {
      Nothing(sc, s, room);
    } else {
      PairMoves(sc, s, Pairs(sc, n - 1), room);
      PairsIgnoreRoom(sc, State(false, 0, 0, true), n - 1, room - 1);
    }
  }

  lemma PairMoves(sc: Scheme, s: State, rest: seq<Byte>, room: int)
    requires s.Valid() && !s.base64
    ensures State(false, 0, 0, true).Valid()
    ensures Feed(sc, s, [sc.Escape(), DASH] + rest, room)
         == After(2, [sc.Escape()], Feed(sc, State(false, 0, 0, true), rest, room - 1))
  {
    hide Feed;
    var src, start := [sc.Escape(), DASH] + rest, State(true, 0, 0, true);
    FirstMove(sc, s, src, room);
    assert src[1..] == [DASH] + rest && ([DASH] + rest)[1..] == rest;
    FirstMove(sc, start, [DASH] + rest, room);
    AfterAfter(1, [], 1, [sc.Escape()], Feed(sc, State(false, 0, 0, true), rest, room - 1));
  }

  /** A plain byte followed by n escape pairs, with room for one unit: the call reports success and
      has written n units past the room. */
  lemma PlainThenPairs(sc: Scheme, isFresh: bool, ch: Byte, n: nat)
    requires ch != sc.Escape()
    ensures
      var f := Feed(sc, Initial(isFresh), [ch] + Pairs(sc, n), 1);
      f.units == [ch] + Escapes(sc, n) && f.read == 1 + 2 * n && f.status == Ok
  {
    hide Feed;
    FirstMove(sc, Initial(isFresh), [ch] + Pairs(sc, n), 1);
    PairsIgnoreRoom(sc, Initial(isFresh), n, 0);
    assert ([ch] + Pairs(sc, n))[1..] == Pairs(sc, n);
  }
}
