/** The resumable encoder object: three fields and a bounded output buffer. */
module Utf7Encoder {
  import opened Utf7Scheme
  import opened Utf7EncoderSpec
  import opened OutputBuffer

  /** A call has `src` to read and `dest[lo..hi]` to write. What lies in `dest` from `hi` on is not
      the call's to write, but the escape pair is written after a test for one byte only, so that
      the call may need it (see Utf7EncoderOverrun). While a call is under way `s` and `d` are its
      two cursors, `before` is what `dest` held when it began and `bytes` what it wrote since. */
  class Encoder {
    const scheme: Scheme
    var mEncoding: int
    var mEncBits: nat
    var mEncStep: nat

    ghost function State(): Utf7EncoderSpec.State
      reads this
    {
      Utf7EncoderSpec.State(mEncoding == ENC_BASE64, mEncStep, mEncBits)
    }

    ghost predicate Valid()
      reads this
    {
      (mEncoding == ENC_DIRECT || mEncoding == ENC_BASE64) && State().Valid()
    }

    /** The call that is to end as `goal` has got as far as `s` and `bytes`. */
    ghost predicate Underway(goal: Fed, src: seq<Unit>, s: nat, bytes: seq<Byte>, room: int)
      requires Valid() && s <= |src|
      reads this
    {
      goal == After(s, bytes, Feed(scheme, State(), src[s..], room))
    }

    constructor (scheme: Scheme)
      ensures Valid() && State() == INITIAL && this.scheme == scheme
    {
      this.scheme := scheme;
      mEncoding, mEncBits, mEncStep := ENC_DIRECT, 0, 0;
    }

    method Reset()
      modifies this
      ensures Valid() && State() == INITIAL
    {
      mEncoding, mEncBits, mEncStep := ENC_DIRECT, 0, 0;
    }

    method ShiftEncoding(encoding: int, dest: array<Byte>, at: nat, hi: nat,
                         ghost before: seq<Byte>, ghost lo: nat, ghost bytes: seq<Byte>)
      returns (res: Status, d: nat)
      requires Valid() && (encoding == ENC_DIRECT || encoding == ENC_BASE64)
      requires Written(dest, before, lo, bytes, at) && hi <= dest.Length
      modifies this, dest
      ensures Valid()
      ensures var f := Shift(scheme, old(State()), encoding == ENC_BASE64, hi - at);
        State() == f.state && res == f.status && Written(dest, before, lo, bytes + f.bytes, d)
    {
      hide Scheme.DirectEncodable, Splice;
      ghost var t := ShiftBytes(scheme, State(), encoding == ENC_BASE64);
      assert bytes + t[..0] == bytes;
      if encoding == mEncoding {
        assert t == [];
        return Ok, at;
      }

      d := at;
      if mEncStep != 0 {
        if d >= hi {
          return MoreOutput, d;
        }
        Put(dest, before, lo, bytes, d, scheme.Digit(mEncBits));
        assert t[..1] == [scheme.Digit(mEncBits)];
        d := d + 1;
        mEncStep, mEncBits := 0, 0;
      }

      ghost var flushed := bytes + t[..d - at];
      if d >= hi {
        return MoreOutput, d;
      }
      if encoding == ENC_DIRECT {
        Put(dest, before, lo, flushed, d, DASH);
        mEncStep, mEncBits := 0, 0;
      } else {
        Put(dest, before, lo, flushed, d, scheme.Escape());
      }
      assert flushed + [t[|t| - 1]] == bytes + t;
      d := d + 1;
      mEncoding := encoding;
      res := Ok;
    }

    method EncodeDirect(src: seq<Unit>, from: nat, dest: array<Byte>, at: nat, hi: nat,
                        ghost before: seq<Byte>, ghost lo: nat, ghost bytes: seq<Byte>, ghost goal: Fed)
      returns (res: Status, s: nat, d: nat, ghost bytes': seq<Byte>)
      requires Valid() && mEncoding == ENC_DIRECT
      requires from < |src| && scheme.DirectEncodable(src[from])
      requires Written(dest, before, lo, bytes, at) && Underway(goal, src, from, bytes, hi - at)
      requires hi <= dest.Length && lo + |goal.bytes| <= dest.Length
      modifies dest
      ensures from <= s <= |src| && Written(dest, before, lo, bytes', d)
      ensures match res
        case Ok =>
          && s > from && (s == |src| || !scheme.DirectEncodable(src[s]))
          && Underway(goal, src, s, bytes', hi - d)
        case MoreOutput => goal == After(s, bytes', Stuck(State()))
        case IllegalInput => false
    {
      hide Scheme.DirectEncodable, Feed, Group, Splice;
      res, s, d, bytes' := Ok, from, at, bytes;
      while s < |src|
        invariant from <= s <= |src| && Written(dest, before, lo, bytes', d)
        invariant Underway(goal, src, s, bytes', hi - d)
        invariant s == from ==> scheme.DirectEncodable(src[s])
      {
        var ch := src[s];
        if !scheme.DirectEncodable(ch) {
          break;
        }
        FeedStep(scheme, State(), src, s, bytes', hi - d);
        if ch == scheme.Escape() {
          if hi - d < 1 {
            res := MoreOutput;
            break;
          }
          Put2(dest, before, lo, bytes', d, ch, DASH);
          bytes' := bytes' + [ch, DASH];
          d := d + 2;
          s := s + 1;
        } else {
          if d >= hi {
            res := MoreOutput;
            break;
          }
          Put(dest, before, lo, bytes', d, ch);
          bytes' := bytes' + [ch];
          d := d + 1;
          s := s + 1;
        }
      }
    }

    /** The switch on the phase: the digits a unit completes, if there is room for all of them. */
    method EncodeUnit(ch: Unit, dest: array<Byte>, at: nat, hi: nat,
                      ghost before: seq<Byte>, ghost lo: nat, ghost bytes: seq<Byte>)
      returns (res: Status, d: nat)
      requires Valid() && mEncoding == ENC_BASE64 && !scheme.DirectEncodable(ch)
      requires Written(dest, before, lo, bytes, at) && hi <= dest.Length
      modifies this, dest
      ensures Valid() && mEncoding == ENC_BASE64
      ensures var m := NextMove(scheme, old(State()), ch);
        if |m.bytes| > hi - at then
          res == MoreOutput && State() == old(State()) && Written(dest, before, lo, bytes, d)
        else
          res == Ok && State() == m.next && Written(dest, before, lo, bytes + m.bytes, d)
    {
      hide Scheme.DirectEncodable, Scheme.ValueToChar, Splice;
      ghost var m := NextMove(scheme, State(), ch);
      res, d := Ok, at;
      match mEncStep {
        case 0 =>
          if hi - d < 2 {
            return MoreOutput, d;
          }
          Put2(dest, before, lo, bytes, d, scheme.Digit(ch / 1024), scheme.Digit(ch / 16 % 64));
          assert m.bytes == [scheme.Digit(ch / 1024), scheme.Digit(ch / 16 % 64)];
          d := d + 2;
          mEncBits := ch % 16 * 4;
        case 1 =>
          if hi - d < 3 {
            return MoreOutput, d;
          }
          Put3(dest, before, lo, bytes, d,
               scheme.Digit(mEncBits + ch / 16384), scheme.Digit(ch / 256 % 64), scheme.Digit(ch / 4 % 64));
          assert m.bytes == [scheme.Digit(mEncBits + ch / 16384), scheme.Digit(ch / 256 % 64), scheme.Digit(ch / 4 % 64)];
          d := d + 3;
          mEncBits := ch % 4 * 16;
        case _ =>
          if hi - d < 3 {
            return MoreOutput, d;
          }
          Put3(dest, before, lo, bytes, d,
               scheme.Digit(mEncBits + ch / 4096), scheme.Digit(ch / 64 % 64), scheme.Digit(ch % 64));
          assert m.bytes == [scheme.Digit(mEncBits + ch / 4096), scheme.Digit(ch / 64 % 64), scheme.Digit(ch % 64)];
          d := d + 3;
          mEncBits := 0;
      }
      mEncStep := (mEncStep + 1) % 3;
    }

    method EncodeBase64(src: seq<Unit>, from: nat, dest: array<Byte>, at: nat, hi: nat,
                        ghost before: seq<Byte>, ghost lo: nat, ghost bytes: seq<Byte>, ghost goal: Fed)
      returns (res: Status, s: nat, d: nat, ghost bytes': seq<Byte>)
      requires Valid() && mEncoding == ENC_BASE64
      requires from < |src| && !scheme.DirectEncodable(src[from])
      requires Written(dest, before, lo, bytes, at) && hi <= dest.Length && Underway(goal, src, from, bytes, hi - at)
      modifies this, dest
      ensures Valid() && from <= s <= |src| && Written(dest, before, lo, bytes', d)
      ensures match res
        case Ok =>
          && s > from && (s == |src| || scheme.DirectEncodable(src[s]))
          && Underway(goal, src, s, bytes', hi - d)
        case MoreOutput => goal == After(s, bytes', Stuck(State()))
        case IllegalInput => false
    {
      hide Scheme.DirectEncodable, Feed, Group, Splice, Utf7EncoderSpec.State.Valid;
      res, s, d, bytes' := Ok, from, at, bytes;
      while s < |src|
        invariant Valid() && mEncoding == ENC_BASE64
        invariant from <= s <= |src| && Written(dest, before, lo, bytes', d)
        invariant Underway(goal, src, s, bytes', hi - d)
        invariant res == Ok
        invariant s == from ==> !scheme.DirectEncodable(src[s])
      {
        var ch := src[s];
        if scheme.DirectEncodable(ch) {
          break;
        }
        FeedStep(scheme, State(), src, s, bytes', hi - d);
        ghost var m := NextMove(scheme, State(), ch);
        res, d := EncodeUnit(ch, dest, d, hi, before, lo, bytes');
        if res != Ok {
          break;
        }
        s := s + 1;
        bytes' := bytes' + m.bytes;
      }
    }

    /** One call: exactly the moves of `Feed`. */
    method ConvertNoBuffNoErr(src: seq<Unit>, dest: array<Byte>, lo: nat, hi: nat)
      returns (res: Status, read: nat, written: nat)
      requires Valid() && lo <= hi <= dest.Length
      requires lo + |Feed(scheme, State(), src, hi - lo).bytes| <= dest.Length
      modifies this, dest
      ensures Valid()
      ensures var f := Feed(scheme, old(State()), src, hi - lo);
        && State() == f.state && read == f.read && written == |f.bytes| && res == f.status
        && dest[..] == Splice(old(dest[..]), lo, f.bytes)
    {
      hide Scheme.DirectEncodable, Feed, Shift, Splice, Utf7EncoderSpec.State.Valid;
      res := Ok;
      var s: nat, d: nat := 0, lo;
      ghost var before, bytes, goal := dest[..], [], Feed(scheme, State(), src, hi - lo);
      SpliceNothing(dest[..], lo);
      assert src[0..] == src;
      while s < |src|
        invariant Valid() && s <= |src| && Written(dest, before, lo, bytes, d)
        invariant Underway(goal, src, s, bytes, hi - d)
        invariant res == Ok
      {
        var encoding := if scheme.DirectEncodable(src[s]) then ENC_DIRECT else ENC_BASE64;
        ShiftThenFeed(scheme, State(), src, s, bytes, hi - d);
        ghost var f := Shift(scheme, State(), encoding == ENC_BASE64, hi - d);
        res, d := ShiftEncoding(encoding, dest, d, hi, before, lo, bytes);
        bytes := bytes + f.bytes;
        if res != Ok {
          break;
        }
        if encoding == ENC_DIRECT {
          res, s, d, bytes := EncodeDirect(src, s, dest, d, hi, before, lo, bytes, goal);
        } else {
          res, s, d, bytes := EncodeBase64(src, s, dest, d, hi, before, lo, bytes, goal);
        }
        if res != Ok {
          break;
        }
      }
      if res == Ok {
        FeedNothing(scheme, State(), src, bytes, hi - d);
      }
      assert bytes + [] == bytes;
      read, written := s, d - lo;
    }

    method FinishNoBuff(dest: array<Byte>, lo: nat, hi: nat)
      returns (res: Status, written: nat)
      requires Valid() && lo <= hi <= dest.Length
      modifies this, dest
      ensures Valid()
      ensures var f := Shift(scheme, old(State()), false, hi - lo);
        && State() == f.state && written == |f.bytes| && res == f.status
        && dest[..] == Splice(old(dest[..]), lo, f.bytes)
    {
      hide Shift, Splice;
      SpliceNothing(dest[..], lo);
      ghost var f := Shift(scheme, State(), false, hi - lo);
      assert [] + f.bytes == f.bytes;
      var d;
      res, d := ShiftEncoding(ENC_DIRECT, dest, lo, hi, dest[..], lo, []);
      written := d - lo;
    }
  }
}
