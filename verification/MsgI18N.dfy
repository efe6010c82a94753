/** The functions that call the converters: for folder names in modified UTF-7, and for decoding
    message text in plain UTF-7. */
module MsgI18N {
  import opened Utf7Scheme
  import opened OutputBuffer
  import opened Utf7Refinement
  import opened Utf7Text
  import opened Utf7Encoder
  import opened Utf7Decoder
  import opened Utf7Streaming
  import opened Utf7Decoding
  import E = Utf7EncoderSpec
  import D = Utf7DecoderSpec
  import EO = Utf7EncoderOverrun
  import DO = Utf7DecoderOverrun

  const IMAP_UTF7_BUF_LENGTH := 100

  /** Some call of the loop writes past the buffer: one that begins in state `s` at `src`, or a later
      one. Each begins where the one before it stopped. */
  ghost predicate SomeCallOverruns(s: E.State, src: seq<Unit>)
    requires s.Valid()
    decreases |src|, E.Owed(ModifiedUTF7, s, src)
  {
    && src != []
    && ((exists i: nat :: EO.PairAcross(ModifiedUTF7, s, src, IMAP_UTF7_BUF_LENGTH, i))
        || var f := E.Feed(ModifiedUTF7, s, src, IMAP_UTF7_BUF_LENGTH);
           E.FeedProgress(ModifiedUTF7, s, src, IMAP_UTF7_BUF_LENGTH);
           assert f.read == 0 ==> src[f.read..] == src;
           SomeCallOverruns(f.state, src[f.read..]))
  }

  lemma CallOverruns(s: E.State, src: seq<Unit>)
    requires s.Valid() && src != []
    ensures
      var f := E.Feed(ModifiedUTF7, s, src, IMAP_UTF7_BUF_LENGTH);
      SomeCallOverruns(s, src) <==> |f.bytes| > IMAP_UTF7_BUF_LENGTH || SomeCallOverruns(f.state, src[f.read..])
  {
    hide E.Feed, E.State.Valid, EO.PairAcross;
    EO.OverrunsExactly(ModifiedUTF7, s, src, IMAP_UTF7_BUF_LENGTH);
  }

  /** A folder name, encoded through one buffer that is used again for every call. `memory` is that
      buffer and the byte behind it; `past` tells whether that byte was written. */
  method CopyUTF16toMUTF7(src: seq<Unit>, memory: array<Byte>) returns (dest: seq<Byte>, past: bool)
    requires memory.Length == IMAP_UTF7_BUF_LENGTH + 1
    modifies memory
    ensures dest == EncodeText(ModifiedUTF7, src)
    ensures past ==> '&' as int in src
    ensures past <==> SomeCallOverruns(E.INITIAL, src)
  {
    hide E.Feed, E.Shift, E.State.Valid, E.Encode, E.Closing, E.Lag, SomeCallOverruns, EncodeText, Splice;
    var converter := new Encoder(ModifiedUTF7);
    dest, past := [], false;
    var s: nat := 0;
    assert src[0..] == src && src + [] == src;
    while s < |src|
      invariant s <= |src| && converter.Valid() && converter.scheme == ModifiedUTF7 && fresh(converter)
      invariant E.Encode(ModifiedUTF7, E.INITIAL, src)
             == dest + E.Encode(ModifiedUTF7, converter.State(), src[s..])
      invariant past ==> '&' as int in src
      invariant SomeCallOverruns(E.INITIAL, src) <==> past || SomeCallOverruns(converter.State(), src[s..])
      decreases |src| - s, E.Owed(ModifiedUTF7, converter.State(), src[s..])
    {
      ghost var was := converter.State();
      CallOverruns(was, src[s..]);
      WithinUnlessEscape(ModifiedUTF7, was, src, s, IMAP_UTF7_BUF_LENGTH);
      var res, read, written := converter.ConvertNoBuffNoErr(src[s..], memory, 0, IMAP_UTF7_BUF_LENGTH);
      assert src[s..][read..] == src[s + read..] && src[s..] + [] == src[s..] && src[s + read..] + [] == src[s + read..];
      EncodeCall(ModifiedUTF7, was, src[s..], [], IMAP_UTF7_BUF_LENGTH);
      E.FeedProgress(ModifiedUTF7, was, src[s..], IMAP_UTF7_BUF_LENGTH);
      assert memory[..written] == memory[..][0..written];
      Assoc(dest, memory[..written], E.Encode(ModifiedUTF7, converter.State(), src[s + read..]));
      dest := dest + memory[..written];
      past := past || written > IMAP_UTF7_BUF_LENGTH;
      s := s + read;
    }
    NoMoreCalls(converter.State(), src[s..]);
    NothingLeft(ModifiedUTF7, converter.State(), src[s..]);
    E.ShiftFinishes(ModifiedUTF7, converter.State(), IMAP_UTF7_BUF_LENGTH);
    ClosingIsShort(ModifiedUTF7, converter.State());
    var res, written := converter.FinishNoBuff(memory, 0, IMAP_UTF7_BUF_LENGTH);
    assert memory[..written] == memory[..][0..written];
    if written > 0 {
      dest := dest + memory[..written];
    }
    EncoderWritesText(ModifiedUTF7, src);
  }

  lemma NoMoreCalls(s: E.State, src: seq<Unit>)
    requires s.Valid() && src == []
    ensures !SomeCallOverruns(s, src)
  {
  }

  lemma ClosingIsShort(sc: Scheme, s: E.State)
    requires s.Valid()
    ensures |E.Closing(sc, s)| <= 2
  {
  }

  /** 99 plain units and '&' are enough to write the byte behind the buffer. */
  lemma FolderNameOverruns(plain: seq<Byte>)
    requires |plain| == 99 && forall u :: u in plain ==> 0x20 <= u <= 0x7e && u != '&' as int
    ensures SomeCallOverruns(E.INITIAL, plain + ['&' as int])
  {
    hide SomeCallOverruns, E.Feed;
    EO.PlainThenEscape(plain);
    CallOverruns(E.INITIAL, plain + ['&' as int]);
  }

  /** Both decoding functions: one call, with room for as many units as there are bytes. The call
      reads everything and never needs more, so that the untested write is safe here; and what
      was encoded comes back. Text that is not well-formed gives something, too. */
  method CopyToUTF16(sc: Scheme, src: seq<Byte>, unset: bool) returns (dest: seq<Unit>)
    ensures dest == DecodeText(sc, src).units
    ensures forall u :: src == EncodeText(sc, u) ==> dest == u
  {
    hide D.Feed, D.Run, D.State.Valid, EncodeText, DecodeText, Splice;
    var converter := new Decoder(sc, unset);
    var buffer := new Unit[|src|];
    D.Total(sc, D.Initial(unset), src, |src|);
    var res, read, written := converter.ConvertNoBuff(src, buffer, 0, |src|);
    assert buffer[..written] == buffer[..][0..written];
    dest := buffer[..written];
    DecoderReadsText(sc, D.Initial(unset), src);
    forall u | src == EncodeText(sc, u) ensures dest == u {
      EncodedReads(sc, u);
    }
  }

  /** U+00FC, a small u with diaeresis, as a run of its own. */
  lemma UmlautRun()
    ensures RunBytes(ModifiedUTF7, [0xfc]) == ['&' as int, 'A' as int, 'P' as int, 'w' as int, '-' as int]
  {
    var start, held := E.State(true, 0, 0), E.State(true, 1, 48);
    var digits: seq<Byte> := ['A' as int, 'P' as int];
    assert E.NextMove(ModifiedUTF7, start, 0xfc) == E.Move(held, 1, digits, 2);
    assert E.Closing(ModifiedUTF7, held) == ['w' as int, '-' as int];
    hide RunDigits, E.Run, E.NextMove, E.Closing;
    E.RunStep(ModifiedUTF7, start, [0xfc]);
    RunNothing(ModifiedUTF7, held);
    CloseRun(ModifiedUTF7, [0xfc]);
    assert [0xfc][1..] == [] && digits + [] == digits;
    var cs := ModifiedUTF7.Chars(RunDigits([0xfc]));
    assert cs + [DASH] == ['A' as int, 'P' as int, 'w' as int, '-' as int];
    assert ['&' as int] + cs + [DASH] == ['&' as int] + (cs + [DASH]);
  }

  /** The German folder of drafts: "Entw", that letter and "rfe". */
  lemma FolderNameExample()
    ensures
      var name: seq<Unit> := ['E' as int, 'n' as int, 't' as int, 'w' as int, 0xfc, 'r' as int, 'f' as int, 'e' as int];
      EncodeText(ModifiedUTF7, name) ==
        ['E' as int, 'n' as int, 't' as int, 'w' as int, '&' as int, 'A' as int, 'P' as int, 'w' as int,
         '-' as int, 'r' as int, 'f' as int, 'e' as int]
  {
    hide RunBytes;
    var head: seq<Byte> := ['E' as int, 'n' as int, 't' as int, 'w' as int];
    var tail: seq<Byte> := ['r' as int, 'f' as int, 'e' as int];
    PlainText(ModifiedUTF7, tail, []);
    assert tail + [] == tail;
    UmlautRun();
    EncodeTextRun(ModifiedUTF7, [0xfc], tail);
    var umlaut: seq<Unit>, last: seq<Unit> := [0xfc], tail;
    PlainText(ModifiedUTF7, head, umlaut + last);
    assert head + (umlaut + last)
        == ['E' as int, 'n' as int, 't' as int, 'w' as int, 0xfc, 'r' as int, 'f' as int, 'e' as int];
  }

  lemma PlainFirst(sc: Scheme, u: Byte, rest: seq<Unit>)
    requires sc.DirectEncodable(u) && u != sc.Escape()
    ensures EncodeText(sc, [u] + rest) == [u] + EncodeText(sc, rest)
  {
    hide Scheme.DirectEncodable, RunBytes;
    assert ([u] + rest)[1..] == rest;
  }

  lemma {:induction false} PlainText(sc: Scheme, plain: seq<Byte>, rest: seq<Unit>)
    requires forall u :: u in plain ==> sc.DirectEncodable(u) && u != sc.Escape()
    ensures EncodeText(sc, plain + rest) == plain + EncodeText(sc, rest)
  {
    hide EncodeText, Scheme.DirectEncodable, Scheme.Escape;
    if plain == [] {
      assert plain + rest == rest;
    } else {
      var u, more: seq<Byte> := plain[0], plain[1..];
      assert u in plain && forall v :: v in more ==> v in plain;
      PlainText(sc, more, rest);
      PlainFirst(sc, u, more + rest);
      assert plain + rest == [u] + (more + rest);
      assert plain + EncodeText(sc, rest) == [u] + (more + EncodeText(sc, rest));
    }
  }
}
