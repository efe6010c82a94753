/** The converter objects as their callers drive them: the source arrives in pieces, every call
    gets a fresh buffer of some size, and a call that stops early is repeated on the unread
    suffix of its piece. A buffer has memory behind it, and `past` tells whether some call wrote
    there. */
module Utf7Streaming {
  import opened Utf7Scheme
  import opened OutputBuffer
  import opened Utf7Refinement
  import opened Utf7Text
  import opened Utf7Decoding
  import opened Utf7Encoder
  import opened Utf7Decoder
  import E = Utf7EncoderSpec
  import D = Utf7DecoderSpec
  import EO = Utf7EncoderOverrun
  import DO = Utf7DecoderOverrun

  /** One encoder call on `src`, with `rest` still to come. */
  lemma EncodeCall(sc: Scheme, s: E.State, src: seq<Unit>, rest: seq<Unit>, room: nat)
    requires s.Valid()
    ensures
      var f := E.Feed(sc, s, src, room);
      E.Encode(sc, s, src + rest) == f.bytes + E.Encode(sc, f.state, src[f.read..] + rest)
  {
    hide E.Feed, E.Run, E.State.Valid, E.Encode;
    var f := E.Feed(sc, s, src, room);
    E.FeedResumes(sc, s, src, room);
    EncodeConcat(sc, s, src, rest);
    EncodeConcat(sc, f.state, src[f.read..], rest);
    var o := E.Run(sc, f.state, src[f.read..]);
    assert (f.bytes + o.bytes) + E.Encode(sc, o.state, rest) == f.bytes + (o.bytes + E.Encode(sc, o.state, rest));
  }

  /** One call of several on `src`, which have written `text` so far. */
  lemma EncodeCallAt(sc: Scheme, s: E.State, src: seq<Unit>, from: nat, rest: seq<Unit>, text: seq<Byte>, room: nat)
    requires s.Valid() && from <= |src|
    ensures
      var f := E.Feed(sc, s, src[from..], room);
      text + E.Encode(sc, s, src[from..] + rest)
      == (text + f.bytes) + E.Encode(sc, f.state, src[from + f.read..] + rest)
  {
    hide E.Feed, E.State.Valid, E.Encode;
    EncodeCall(sc, s, src[from..], rest, room);
    var f := E.Feed(sc, s, src[from..], room);
    assert src[from..][f.read..] == src[from + f.read..];
    Assoc(text, f.bytes, E.Encode(sc, f.state, src[from + f.read..] + rest));
  }

  lemma DecodeCall(sc: Scheme, s: D.State, src: seq<Byte>, rest: seq<Byte>, room: nat)
    requires s.Valid()
    ensures
      var f := D.Feed(sc, s, src, room);
      D.Run(sc, s, src + rest) == D.Prefix(f.units, D.Run(sc, f.state, src[f.read..] + rest))
  {
    hide D.Feed, D.Run, D.State.Valid;
    var f := D.Feed(sc, s, src, room);
    D.FeedResumes(sc, s, src, room);
    D.RunConcat(sc, s, src, rest);
    D.RunConcat(sc, f.state, src[f.read..], rest);
    var o := D.Run(sc, f.state, src[f.read..]);
    D.PrefixPrefix(f.units, o.units, D.Run(sc, o.state, rest));
  }

  /** One piece, with `rest` still to come after it; `before` calls were made for earlier ones. */
  method EncodePiece(encoder: Encoder, src: seq<Unit>, ghost rest: seq<Unit>, room: nat -> nat, before: nat)
    returns (text: seq<Byte>, calls: nat, past: bool)
    requires encoder.Valid()
    requires forall i :: room(i) >= 3
    modifies encoder
    ensures encoder.Valid()
    ensures old(E.Encode(encoder.scheme, encoder.State(), src + rest))
         == text + E.Encode(encoder.scheme, encoder.State(), rest)
    ensures past ==> encoder.scheme.ModifiedUTF7? && encoder.scheme.Escape() in src
  {
    hide E.Feed, E.State.Valid, E.Encode, E.Lag, Splice, Scheme.DirectEncodable;
    text, calls, past := [], before, false;
    var s: nat := 0;
    assert src[0..] == src;
    while s < |src|
      invariant s <= |src| && encoder.Valid()
      invariant old(E.Encode(encoder.scheme, encoder.State(), src + rest))
             == text + E.Encode(encoder.scheme, encoder.State(), src[s..] + rest)
      invariant past ==> encoder.scheme.ModifiedUTF7? && encoder.scheme.Escape() in src
      decreases |src| - s, E.Owed(encoder.scheme, encoder.State(), src[s..])
    {
      var size := room(calls);
      var dest := new Byte[size + 1];
      ghost var was := encoder.State();
      WithinUnlessEscape(encoder.scheme, was, src, s, size);
      var res, read, written := encoder.ConvertNoBuffNoErr(src[s..], dest, 0, size);
      assert src[s..][read..] == src[s + read..];
      EncodeCallAt(encoder.scheme, was, src, s, rest, text, size);
      E.FeedProgress(encoder.scheme, was, src[s..], size);
      assert dest[..written] == dest[..][0..written];
      text := text + dest[..written];
      past := past || written > size;
      s := s + read;
      calls := calls + 1;
    }
    assert src[s..] + rest == rest;
  }

  lemma WithinUnlessEscape(sc: Scheme, s: E.State, src: seq<Unit>, from: nat, room: nat)
    requires s.Valid() && from <= |src|
    ensures |E.Feed(sc, s, src[from..], room).bytes| > room ==> sc.ModifiedUTF7? && sc.Escape() in src
  {
    hide E.Feed, EO.Guarded;
    if sc.UTF7? || sc.Escape() !in src {
      EO.StaysWithin(sc, s, src[from..], room);
    }
  }

  /** Whatever the pieces and the buffers are, if each buffer holds three bytes the calls come to
      an end and their outputs, put together, are the text of `u`. */
  method EncodeInPieces(sc: Scheme, u: seq<Unit>, piece: nat -> nat, room: nat -> nat)
    returns (text: seq<Byte>, past: bool)
    requires forall i :: piece(i) >= 1
    requires forall i :: room(i) >= 3
    ensures text == EncodeText(sc, u)
    ensures past ==> sc.ModifiedUTF7? && sc.Escape() in u
  {
    hide E.Feed, E.Shift, E.State.Valid, E.Encode, E.Closing, EncodeText;
    var encoder := new Encoder(sc);
    text, past := [], false;
    var from: nat, calls: nat := 0, 0;
    assert u[0..] == u;
    while from < |u|
      invariant from <= |u| && encoder.Valid() && encoder.scheme == sc && fresh(encoder)
      invariant E.Encode(sc, E.INITIAL, u) == text + E.Encode(sc, encoder.State(), u[from..])
      invariant past ==> sc.ModifiedUTF7? && sc.Escape() in u
    {
      var end := if |u| - from <= piece(from) then |u| else from + piece(from);
      assert u[from..end] + u[end..] == u[from..];
      var more, over;
      more, calls, over := EncodePiece(encoder, u[from..end], u[end..], room, calls);
      Assoc(text, more, E.Encode(sc, encoder.State(), u[end..]));
      text, past := text + more, past || over;
      from := end;
    }
    NothingLeft(sc, encoder.State(), u[from..]);
    var tail := FinishInPieces(encoder, room, calls);
    text := text + tail;
    EncoderWritesText(sc, u);
  }

  /** Finishing comes to an end with any buffers that are not empty, also when one is filled by
      the last digit and the '-' has to wait for the next. */
  method FinishInPieces(encoder: Encoder, room: nat -> nat, before: nat) returns (tail: seq<Byte>)
    requires encoder.Valid()
    requires forall i :: room(i) >= 1
    modifies encoder
    ensures encoder.Valid() && E.Closing(encoder.scheme, encoder.State()) == []
    ensures tail == old(E.Closing(encoder.scheme, encoder.State()))
  {
    hide E.Shift, E.State.Valid, E.Closing, Splice;
    tail := [];
    var done, calls: nat := false, before;
    while !done
      invariant encoder.Valid()
      invariant old(E.Closing(encoder.scheme, encoder.State()))
             == tail + E.Closing(encoder.scheme, encoder.State())
      invariant done ==> E.Closing(encoder.scheme, encoder.State()) == []
      decreases !done, |E.Closing(encoder.scheme, encoder.State())|
    {
      var dest := new Byte[room(calls)];
      E.ShiftFinishes(encoder.scheme, encoder.State(), room(calls));
      var res, written := encoder.FinishNoBuff(dest, 0, dest.Length);
      assert dest[..written] == dest[..][0..written];
      assert (tail + dest[..written]) + E.Closing(encoder.scheme, encoder.State())
          == tail + (dest[..written] + E.Closing(encoder.scheme, encoder.State()));
      tail := tail + dest[..written];
      done := res == Ok;
      calls := calls + 1;
    }
    assert tail + [] == tail;
  }

  lemma NothingLeft(sc: Scheme, s: E.State, rest: seq<Unit>)
    requires s.Valid() && rest == []
    ensures E.Encode(sc, s, rest) == E.Closing(sc, s)
  {
  }

  /** One piece of the text, with `rest` still to come after it. */
  method DecodePiece(decoder: Decoder, src: seq<Byte>, ghost rest: seq<Byte>, room: nat -> nat, before: nat)
    returns (u: seq<Unit>, calls: nat, past: bool)
    requires decoder.Valid()
    requires forall i :: room(i) >= 1
    modifies decoder
    ensures decoder.Valid()
    ensures old(D.Run(decoder.scheme, decoder.State(), src + rest))
         == D.Prefix(u, D.Run(decoder.scheme, decoder.State(), rest))
    ensures (forall i :: room(i) >= |src|) ==> !past
  {
    hide D.Feed, D.Run, D.State.Valid, DO.Guarded, DO.Overruns, Splice;
    u, calls, past := [], before, false;
    var s: nat := 0;
    ghost var goal := D.Run(decoder.scheme, decoder.State(), src + rest);
    assert src[0..] == src && D.Prefix([], goal) == goal;
    while s < |src|
      invariant s <= |src| && decoder.Valid()
      invariant goal == D.Prefix(u, D.Run(decoder.scheme, decoder.State(), src[s..] + rest))
      invariant (forall i :: room(i) >= |src|) ==> !past
    {
      var size := room(calls);
      var dest := new Unit[size + |src|];
      ghost var was := decoder.State();
      WithinLength(decoder.scheme, was, src[s..], size);
      var res, read, written := decoder.ConvertNoBuff(src[s..], dest, 0, size);
      assert src[s..][read..] == src[s + read..];
      DecodeCall(decoder.scheme, was, src[s..], rest, size);
      D.FeedProgress(decoder.scheme, was, src[s..], size);
      assert dest[..written] == dest[..][0..written];
      D.PrefixPrefix(u, dest[..written], D.Run(decoder.scheme, decoder.State(), src[s + read..] + rest));
      u := u + dest[..written];
      past := past || written > size;
      s := s + read;
      calls := calls + 1;
    }
    assert src[s..] + rest == rest;
  }

  lemma WithinLength(sc: Scheme, s: D.State, src: seq<Byte>, room: nat)
    requires s.Valid()
    ensures |src| <= room ==> |D.Feed(sc, s, src, room).units| <= room
  {
    hide D.Feed, DO.Guarded;
    if |src| <= room {
      DO.RoomOfLength(sc, s, src, room);
    }
  }

  /** Whatever the pieces and the buffers are, if each buffer holds one unit every call gets on
      and their outputs, put together, and the state after the last, are what one call with enough
      room would give. */
  method DecodeInPieces(sc: Scheme, text: seq<Byte>, unset: bool, piece: nat -> nat, room: nat -> nat)
    returns (u: seq<Unit>, ghost last: D.State, past: bool)
    requires forall i :: piece(i) >= 1
    requires forall i :: room(i) >= 1
    ensures D.Output(last, u) == D.Run(sc, D.Initial(unset), text)
    ensures Reading(u, last.base64) == DecodeText(sc, text)
    ensures (forall i, j :: room(i) >= piece(j)) ==> !past
  {
    hide D.Feed, D.Run, D.State.Valid, DecodeText, Splice;
    var decoder := new Decoder(sc, unset);
    u, past := [], false;
    var from: nat, calls: nat := 0, 0;
    ghost var goal := D.Run(sc, D.Initial(unset), text);
    assert text[0..] == text && D.Prefix([], goal) == goal;
    while from < |text|
      invariant from <= |text| && decoder.Valid() && decoder.scheme == sc && fresh(decoder)
      invariant goal == D.Prefix(u, D.Run(sc, decoder.State(), text[from..]))
      invariant (forall i, j :: room(i) >= piece(j)) ==> !past
    {
      var end := if |text| - from <= piece(from) then |text| else from + piece(from);
      assert text[from..end] + text[end..] == text[from..];
      var more, over;
      more, calls, over := DecodePiece(decoder, text[from..end], text[end..], room, calls);
      D.PrefixPrefix(u, more, D.Run(sc, decoder.State(), text[end..]));
      u, past := u + more, past || over;
      from := end;
    }
    last := decoder.State();
    DecodedAll(sc, last, text[from..]);
    assert u + [] == u;
    DecoderReadsText(sc, D.Initial(unset), text);
  }

  lemma DecodedAll(sc: Scheme, s: D.State, rest: seq<Byte>)
    requires s.Valid() && rest == []
    ensures D.Run(sc, s, rest) == D.Output(s, [])
  {
  }

  /** End to end: encoded in any pieces, cut anywhere, decoded in any pieces, every sequence of
      units arrives as it was, and the decoder ends in direct mode. */
  method Transport(sc: Scheme, u: seq<Unit>, unset: bool, piece: nat -> nat, room: nat -> nat,
                   cut: nat -> nat, space: nat -> nat)
    returns (v: seq<Unit>, ghost last: D.State)
    requires forall i :: piece(i) >= 1
    requires forall i :: room(i) >= 3
    requires forall i :: cut(i) >= 1
    requires forall i :: space(i) >= 1
    ensures v == u && !last.base64
  {
    hide D.Run, EncodeText, DecodeText;
    var text, _ := EncodeInPieces(sc, u, piece, room);
    var past;
    v, last, past := DecodeInPieces(sc, text, unset, cut, space);
    EncodedReads(sc, u);
  }
}
