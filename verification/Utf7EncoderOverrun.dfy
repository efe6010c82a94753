/** What one encoder call may write behind its buffer. The escape pair is written after a test for
    one byte, so a call can write one byte more than its room. This says exactly when. */
module Utf7EncoderOverrun {
  import opened Utf7Scheme
  import opened Utf7EncoderSpec

  /** The call as it would be if the escape pair, too, were tested for all its bytes. */
  function Guarded(sc: Scheme, s: State, src: seq<Unit>, room: nat): (f: Fed)
    requires s.Valid()
    ensures f.state.Valid() && f.read <= |src| && |f.bytes| <= room
    decreases |src|, Owed(sc, s, src)
  {
    if src == [] then Fed(s, 0, [], Ok)
    else
      var m := NextMove(sc, s, src[0]);
      if |m.bytes| > room then Stuck(s)
      else After(m.read, m.bytes, Guarded(sc, m.next, src[m.read..], room - |m.bytes|))
  }

  predicate Overruns(sc: Scheme, s: State, src: seq<Unit>, room: nat)
    requires s.Valid()
  {
    |Feed(sc, s, src, room).bytes| > room
  }

  /** A guarded call that has stopped in front of an escape pair with one byte of room left. */
  predicate StopsAtPair(sc: Scheme, g: Fed, src: seq<Unit>, room: nat) {
    && g.status == MoreOutput
    && |g.bytes| + 1 == room
    && g.read < |src| && IsPair(sc, g.state, src[g.read])
  }

  /** The move after one that did not fit. */
  lemma {:induction false} FeedPastEnd(sc: Scheme, s: State, src: seq<Unit>)
    requires s.Valid()
    ensures Feed(sc, s, src, -1) == Fed(s, 0, [], if src == [] then Ok else MoreOutput)
  {
    hide NextMove, State.Valid;
  }

  lemma {:induction false} GuardedMove(sc: Scheme, s: State, src: seq<Unit>, room: nat)
    requires s.Valid() && src != []
    ensures
      var m := NextMove(sc, s, src[0]);
      Guarded(sc, s, src, room) ==
      if |m.bytes| > room then Stuck(s)
      else After(m.read, m.bytes, Guarded(sc, m.next, src[m.read..], room - |m.bytes|))
  {
  }

  /** A call is its guarded form, unless that stops at an escape pair with one byte left: then the
      pair is written all the same, and nothing after it. */
  lemma {:induction false} FeedIsGuarded(sc: Scheme, s: State, src: seq<Unit>, room: nat)
    requires s.Valid()
    ensures
      var f, g := Feed(sc, s, src, room), Guarded(sc, s, src, room);
      if StopsAtPair(sc, g, src, room) then
        f == Fed(g.state, g.read + 1, g.bytes + [sc.Escape(), DASH],
                 if g.read + 1 == |src| then Ok else MoreOutput)
      else f == g
    decreases |src|, Owed(sc, s, src)
  {
    hide NextMove, State.Valid, Feed, Guarded, Lag;
    if src == [] {
      Nothing(sc, s, room);
      return;
    }
    var m := NextMove(sc, s, src[0]);
    FirstMove(sc, s, src, room);
    GuardedMove(sc, s, src, room);
    if |m.bytes| <= room {
      var rest := src[m.read..];
      FeedIsGuarded(sc, m.next, rest, room - |m.bytes|);
      var g := Guarded(sc, m.next, rest, room - |m.bytes|);
      assert g.read < |rest| ==> rest[g.read] == src[m.read + g.read];
      assert m.bytes + (g.bytes + [sc.Escape(), DASH]) == (m.bytes + g.bytes) + [sc.Escape(), DASH];
    } else if m.asks <= room {
      FeedPastEnd(sc, m.next, src[1..]);
      assert m.bytes + [] == [] + [sc.Escape(), DASH];
    }
  }

  lemma Nothing(sc: Scheme, s: State, room: nat)
    requires s.Valid()
    ensures Feed(sc, s, [], room) == Guarded(sc, s, [], room) == Fed(s, 0, [], Ok)
    ensures Run(sc, s, []) == Output(s, [])
  {
  }

  /** A call writes past its room exactly when its guarded form stops at an escape pair with one
      byte left, and then by one byte. */
  lemma OverrunsWhenGuardedStops(sc: Scheme, s: State, src: seq<Unit>, room: nat)
    requires s.Valid()
    ensures Overruns(sc, s, src, room) <==> StopsAtPair(sc, Guarded(sc, s, src, room), src, room)
    ensures Overruns(sc, s, src, room) ==> |Feed(sc, s, src, room).bytes| == room + 1
  {
    hide Feed, Guarded, IsPair;
    FeedIsGuarded(sc, s, src, room);
  }

  /** The guarded call succeeds exactly when the whole output fits. */
  lemma {:induction false} GuardedFits(sc: Scheme, s: State, src: seq<Unit>, room: nat)
    requires s.Valid()
    ensures
      var g := Guarded(sc, s, src, room);
      && (g.status == Ok <==> |Run(sc, s, src).bytes| <= room)
      && (g.status == Ok <==> g.read == |src|)
      && (g.status == Ok <==> g.status != MoreOutput)
    decreases |src|, Owed(sc, s, src)
  {
    hide NextMove, State.Valid, Lag, Guarded, Run;
    if src == [] {
      Nothing(sc, s, room);
    } else {
      var m := NextMove(sc, s, src[0]);
      GuardedMove(sc, s, src, room);
      RunStep(sc, s, src);
      if |m.bytes| <= room {
        GuardedFits(sc, m.next, src[m.read..], room - |m.bytes|);
      }
    }
  }

  // ---- in terms of the input ------------------------------------------------------------

  /** The output of the units up to and with the one at `i`. */
  function Upto(sc: Scheme, s: State, src: seq<Unit>, i: nat): seq<Byte>
    requires s.Valid() && i < |src|
  {
    Run(sc, s, src[..i + 1]).bytes
  }

  lemma {:induction false} UptoMove(sc: Scheme, s: State, src: seq<Unit>, i: nat)
    requires s.Valid() && i < |src|
    ensures
      var m := NextMove(sc, s, src[0]);
      if i < m.read then Upto(sc, s, src, i) == m.bytes
      else Upto(sc, s, src, i) == m.bytes + Upto(sc, m.next, src[m.read..], i - m.read)
    ensures |Upto(sc, s, src, i)| >= |NextMove(sc, s, src[0]).bytes| >= 1
    ensures i >= NextMove(sc, s, src[0]).read ==> |Upto(sc, s, src, i)| > |NextMove(sc, s, src[0]).bytes|
    decreases |src|, Owed(sc, s, src)
  {
    hide NextMove, State.Valid, Lag, Run;
    var m := NextMove(sc, s, src[0]);
    RunStep(sc, s, src[..i + 1]);
    if i < m.read {
      assert src[..i + 1][m.read..] == [];
      Nothing(sc, m.next, 0);
      assert m.bytes + [] == m.bytes;
    } else {
      assert src[..i + 1][m.read..] == src[m.read..][..i - m.read + 1];
      UptoMove(sc, m.next, src[m.read..], i - m.read);
    }
  }

  /** The unit at `i` is an escape unit whose pair ends one byte behind the room. */
  predicate PairAcross(sc: Scheme, s: State, src: seq<Unit>, room: nat, i: nat)
    requires s.Valid()
  {
    sc.ModifiedUTF7? && i < |src| && src[i] == sc.Escape() && |Upto(sc, s, src, i)| == room + 1
  }

  lemma EscapeIsDirect(sc: Scheme, s: State, u: Unit)
    requires s.Valid()
    ensures sc.DirectEncodable(sc.Escape()) <==> sc.ModifiedUTF7?
    ensures IsPair(sc, s, u) <==> sc.ModifiedUTF7? && !s.base64 && u == sc.Escape()
    ensures u == sc.Escape() && sc.ModifiedUTF7? && NextMove(sc, s, u).read == 1 ==> IsPair(sc, s, u)
  {
    hide Group;
  }

  lemma {:induction false} AcrossOverruns(sc: Scheme, s: State, src: seq<Unit>, room: nat, i: nat)
    requires s.Valid() && PairAcross(sc, s, src, room, i)
    ensures Overruns(sc, s, src, room)
    decreases |src|, Owed(sc, s, src)
  {
    hide NextMove, State.Valid, Lag, Feed, Run, IsPair, Upto;
    var m := NextMove(sc, s, src[0]);
    FirstMove(sc, s, src, room);
    UptoMove(sc, s, src, i);
    EscapeIsDirect(sc, s, src[0]);
    if i >= m.read {
      AcrossOverruns(sc, m.next, src[m.read..], room - |m.bytes|, i - m.read);
    }
  }

  lemma {:induction false} OverrunsAcross(sc: Scheme, s: State, src: seq<Unit>, room: nat) returns (i: nat)
    requires s.Valid() && Overruns(sc, s, src, room)
    ensures PairAcross(sc, s, src, room, i)
    decreases |src|, Owed(sc, s, src)
  {
    hide NextMove, State.Valid, Lag, Feed, Run, IsPair, Upto;
    Nothing(sc, s, room);
    var m := NextMove(sc, s, src[0]);
    FirstMove(sc, s, src, room);
    EscapeIsDirect(sc, s, src[0]);
    if |m.bytes| > room {
      i := 0;
    } else {
      i := OverrunsAcross(sc, m.next, src[m.read..], room - |m.bytes|);
      i := i + m.read;
    }
    UptoMove(sc, s, src, i);
  }

  /** A call writes past its room exactly when, in modified UTF-7, some escape unit's pair ends one
      byte behind it. Plain UTF-7 never does. */
  lemma OverrunsExactly(sc: Scheme, s: State, src: seq<Unit>, room: nat)
    requires s.Valid()
    ensures Overruns(sc, s, src, room) <==> exists i: nat :: PairAcross(sc, s, src, room, i)
  {
    if Overruns(sc, s, src, room) {
      var i := OverrunsAcross(sc, s, src, room);
    }
    if i: nat :| PairAcross(sc, s, src, room, i) {
      AcrossOverruns(sc, s, src, room, i);
    }
  }

  /** Without the escape unit, or in plain UTF-7, a call stays within its room. */
  lemma StaysWithin(sc: Scheme, s: State, src: seq<Unit>, room: nat)
    requires s.Valid() && (sc.UTF7? || sc.Escape() !in src)
    ensures Feed(sc, s, src, room) == Guarded(sc, s, src, room) && !Overruns(sc, s, src, room)
  {
    hide Feed, Guarded;
    FeedIsGuarded(sc, s, src, room);
    var g := Guarded(sc, s, src, room);
    if g.read < |src| {
      EscapeIsDirect(sc, g.state, src[g.read]);
    }
  }

  lemma RunNothing(sc: Scheme, s: State, src: seq<Unit>)
    requires s.Valid()
    ensures Run(sc, s, src).bytes == [] <==> src == []
  {
    hide NextMove, State.Valid;
  }

  /** A call succeeds exactly when the output fits, or is one byte too long and ends in the pair of
      an escape unit. */
  lemma SucceedsExactly(sc: Scheme, s: State, src: seq<Unit>, room: nat)
    requires s.Valid()
    ensures
      var n := |Run(sc, s, src).bytes|;
      Feed(sc, s, src, room).status == Ok <==>
      n <= room || (n == room + 1 && sc.ModifiedUTF7? && src != [] && src[|src| - 1] == sc.Escape())
  {
    hide Feed, Guarded, Run, NextMove, State.Valid;
    var f, g := Feed(sc, s, src, room), Guarded(sc, s, src, room);
    var o := Run(sc, s, src);
    FeedIsGuarded(sc, s, src, room);
    GuardedFits(sc, s, src, room);
    FeedResumes(sc, s, src, room);
    FeedReads(sc, s, src, room);
    if src != [] {
      var last := |src| - 1;
      assert src[..last + 1] == src;
      assert Upto(sc, s, src, last) == o.bytes;
      if PairAcross(sc, s, src, room, last) {
        AcrossOverruns(sc, s, src, room, last);
      }
    }
    RunNothing(sc, f.state, src[f.read..]);
    if StopsAtPair(sc, g, src, room) {
      EscapeIsDirect(sc, g.state, src[g.read]);
    }
  }

  // ---- inputs for which it happens ------------------------------------------------------

  /** Direct units other than the escape unit are written as they are. */
  lemma {:induction false} PlainFirst(sc: Scheme, plain: seq<Byte>, rest: seq<Unit>, room: nat)
    requires forall u :: u in plain ==> sc.DirectEncodable(u) && u != sc.Escape()
    requires |plain| <= room
    ensures Feed(sc, INITIAL, plain + rest, room)
         == After(|plain|, plain, Feed(sc, INITIAL, rest, room - |plain|))
  {
    hide Feed, Scheme.DirectEncodable;
    if plain == [] {
      assert plain + rest == rest;
    } else {
      var more: seq<Byte> := plain[1..];
      assert plain[0] in plain && forall u :: u in more ==> u in plain;
      FirstMove(sc, INITIAL, plain + rest, room);
      assert (plain + rest)[1..] == more + rest;
      PlainFirst(sc, more, rest, room - 1);
      AfterAfter(1, [plain[0]], |more|, more, Feed(sc, INITIAL, rest, room - |plain|));
      assert [plain[0]] + more == plain;
    }
  }

  /** The smallest failing inputs: n plain units and '&', into a buffer of n + 1 bytes. The call
      reports success and has written n + 2. */
  lemma PlainThenEscape(plain: seq<Byte>)
    requires forall u :: u in plain ==> 0x20 <= u <= 0x7e && u != '&' as int
    ensures Feed(ModifiedUTF7, INITIAL, plain + ['&' as int], |plain| + 1)
         == Fed(INITIAL, |plain| + 1, plain + ['&' as int, '-' as int], Ok)
  {
    hide Feed;
    PlainFirst(ModifiedUTF7, plain, ['&' as int], |plain| + 1);
    EscapeAlone();
    assert plain + ['&' as int, '-' as int] == plain + ['&' as int] + ['-' as int];
  }

  lemma EscapeAlone()
    ensures Feed(ModifiedUTF7, INITIAL, ['&' as int], 1) == Fed(INITIAL, 1, ['&' as int, '-' as int], Ok)
  {
    hide Feed;
    var pair: seq<Byte> := ['&' as int, '-' as int];
    FirstMove(ModifiedUTF7, INITIAL, ['&' as int], 1);
    assert ['&' as int][1..] == [] && pair + [] == pair;
    FeedPastEnd(ModifiedUTF7, INITIAL, []);
  }
}
