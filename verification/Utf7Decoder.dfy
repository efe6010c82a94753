/** The resumable decoder object: four fields and a bounded output buffer. */
module Utf7Decoder {
  import opened Utf7Scheme
  import opened Utf7DecoderSpec
  import opened OutputBuffer

  /** A call has `src` to read and `dest[lo..hi]` to write. What lies in `dest` from `hi` on is not
      the call's to write, but the decoded escape unit is written without a test, so that the call
      may need it (see Utf7DecoderOverrun).
      While a call is under way `s` and `d` are its two cursors, `before` is what `dest` held when
      it began and `units` what it wrote since. */
  class Decoder {
    const scheme: Scheme
    var mEncoding: int
    var mEncBits: nat
    var mEncStep: nat
    var mFreshBase64: bool

    ghost function State(): Utf7DecoderSpec.State
      reads this
    {
      Utf7DecoderSpec.State(mEncoding == ENC_BASE64, mEncStep, mEncBits, mFreshBase64)
    }

    ghost predicate Valid()
      reads this
    {
      (mEncoding == ENC_DIRECT || mEncoding == ENC_BASE64) && State().Valid()
    }

    /** The call that is to end as `goal` has got as far as `s` and `units`. */
    ghost predicate Underway(goal: Fed, src: seq<Byte>, s: nat, units: seq<Unit>, room: int)
      requires Valid() && s <= |src|
      reads this
    {
      goal == After(s, units, Feed(scheme, State(), src[s..], room))
    }

    /** The flag is not initialised: it starts with whatever `unset` is. */
    constructor (scheme: Scheme, unset: bool)
      ensures Valid() && State() == Initial(unset) && this.scheme == scheme
    {
      this.scheme := scheme;
      mEncoding, mEncBits, mEncStep := ENC_DIRECT, 0, 0;
      mFreshBase64 := unset;
    }

    method Reset()
      modifies this
      ensures Valid() && State() == Initial(old(mFreshBase64))
    {
      mEncoding, mEncBits, mEncStep := ENC_DIRECT, 0, 0;
    }

    /** Everything up to the escape byte is passed through. */
    method DecodeDirect(src: seq<Byte>, from: nat, dest: array<Unit>, at: nat, hi: nat,
                        ghost before: seq<Unit>, ghost lo: nat, ghost units: seq<Unit>, ghost goal: Fed)
      returns (res: Status, s: nat, d: nat, ghost units': seq<Unit>)
      requires Valid() && mEncoding == ENC_DIRECT && from < |src| && hi <= dest.Length
      requires Written(dest, before, lo, units, at) && Underway(goal, src, from, units, hi - at)
      modifies dest
      ensures from <= s <= |src| && Written(dest, before, lo, units', d)
      ensures match res
        case Ok => s == |src| && Underway(goal, src, s, units', hi - d)
        case MoreOutput => goal == After(s, units', Stuck(State()))
        case IllegalInput => s < |src| && src[s] == scheme.Escape() && Underway(goal, src, s, units', hi - d)
    {
      hide Feed, Splice, Utf7DecoderSpec.State.Valid, DigitMove;
      res, s, d, units' := Ok, from, at, units;
      while s < |src|
        invariant from <= s <= |src| && Written(dest, before, lo, units', d)
        invariant Underway(goal, src, s, units', hi - d)
      {
        var ch := src[s];
        if ch == scheme.Escape() {
          res := IllegalInput;
          break;
        }
        FeedStep(scheme, State(), src, s, units', hi - d);
        if d >= hi {
          res := MoreOutput;
          break;
        }
        Put(dest, before, lo, units', d, ch);
        units' := units' + [ch];
        d := d + 1;
        s := s + 1;
      }
    }

    /** The switch on the phase. */
    method DecodeDigit(value: Sextet, dest: array<Unit>, at: nat, hi: nat,
                       ghost before: seq<Unit>, ghost lo: nat, ghost units: seq<Unit>)
      returns (res: Status, d: nat)
      requires Valid() && mEncoding == ENC_BASE64 && !mFreshBase64
      requires Written(dest, before, lo, units, at) && hi <= dest.Length
      modifies this, dest
      ensures Valid() && mEncoding == ENC_BASE64 && !mFreshBase64
      ensures var m := DigitMove(old(State()), value);
        if m.asks && hi - at < 1 then
          res == MoreOutput && State() == old(State()) && Written(dest, before, lo, units, d)
        else
          res == Ok && State() == m.next && Written(dest, before, lo, units + m.units, d)
    {
      hide Splice, Utf7DecoderSpec.State.Valid, DigitMove;
      DigitMoves(State(), value);
      ghost var m := DigitMove(State(), value);
      res, d := Ok, at;
      assert |m.units| == 0 ==> units + m.units == units;
      match mEncStep {
        case 0 => mEncBits := value * 1024;
        case 1 => mEncBits := mEncBits + value * 16;
        case 2 =>
          if d >= hi {
            return MoreOutput, d;
          }
          mEncBits := mEncBits + value / 4;
          var unit := mEncBits % 0x1_0000;
          assert m.units == [unit];
          Put(dest, before, lo, units, d, unit);
          d := d + 1;
          mEncBits := value % 4 * 16384;
        case 3 => mEncBits := mEncBits + value * 256;
        case 4 => mEncBits := mEncBits + value * 4;
        case 5 =>
          if d >= hi {
            return MoreOutput, d;
          }
          mEncBits := mEncBits + value / 16;
          var unit := mEncBits % 0x1_0000;
          assert m.units == [unit];
          Put(dest, before, lo, units, d, unit);
          d := d + 1;
          mEncBits := value % 16 * 4096;
        case 6 => mEncBits := mEncBits + value * 64;
        case _ =>
          if d >= hi {
            return MoreOutput, d;
          }
          mEncBits := mEncBits + value;
          var unit := mEncBits % 0x1_0000;
          assert m.units == [unit];
          Put(dest, before, lo, units, d, unit);
          d := d + 1;
          mEncBits := 0;
      }
      mEncStep := (mEncStep + 1) % 8;
    }

    method DecodeBase64(src: seq<Byte>, from: nat, dest: array<Unit>, at: nat, hi: nat,
                        ghost before: seq<Unit>, ghost lo: nat, ghost units: seq<Unit>, ghost goal: Fed)
      returns (res: Status, s: nat, d: nat, ghost units': seq<Unit>)
      requires Valid() && mEncoding == ENC_BASE64 && !mFreshBase64 && from < |src| && hi <= dest.Length
      requires Written(dest, before, lo, units, at) && Underway(goal, src, from, units, hi - at)
      modifies this, dest
      ensures Valid() && mEncoding == ENC_BASE64 && !mFreshBase64
      ensures from <= s <= |src| && Written(dest, before, lo, units', d)
      ensures match res
        case Ok => s == |src| && Underway(goal, src, s, units', hi - d)
        case MoreOutput => goal == After(s, units', Stuck(State()))
        case IllegalInput => s < |src| && !scheme.IsDigit(src[s]) && Underway(goal, src, s, units', hi - d)
    {
      hide Feed, Splice, Utf7DecoderSpec.State.Valid, DigitMove;
      res, s, d, units' := Ok, from, at, units;
      while s < |src|
        invariant Valid() && mEncoding == ENC_BASE64 && !mFreshBase64
        invariant from <= s <= |src| && Written(dest, before, lo, units', d)
        invariant Underway(goal, src, s, units', hi - d)
        invariant res == Ok
      {
        var value := scheme.CharToValue(src[s]);
        if value > 0xff {
          res := IllegalInput;
          break;
        }
        FeedStep(scheme, State(), src, s, units', hi - d);
        ghost var m := NextMove(scheme, State(), src[s]);
        res, d := DecodeDigit(value, dest, d, hi, before, lo, units');
        if res != Ok {
          break;
        }
        s := s + 1;
        units' := units' + m.units;
      }
    }

    /** The byte at `s` cannot be decoded in the current mode: it starts or ends a run. In a run
        that it ends, `late` is what it has written already. */
    ghost predicate Blocked(src: seq<Byte>, s: nat, late: seq<Unit>)
      reads this
    {
      && s < |src|
      && if mEncoding == ENC_DIRECT then src[s] == scheme.Escape() && late == []
         else if mFreshBase64 then src[s] == DASH && late == [scheme.Escape()]
         else !scheme.IsDigit(src[s]) && late == []
    }

    /** The attempt to decode in the current mode. */
    method Attempt(src: seq<Byte>, from: nat, dest: array<Unit>, at: nat, hi: nat,
                   ghost before: seq<Unit>, ghost lo: nat, ghost units: seq<Unit>, ghost goal: Fed)
      returns (res: Status, s: nat, d: nat, ghost units': seq<Unit>, ghost late: seq<Unit>)
      requires Valid() && from < |src| && hi <= dest.Length && lo + |goal.units| <= dest.Length
      requires Written(dest, before, lo, units, at) && Underway(goal, src, from, units, hi - at)
      modifies this, dest
      ensures Valid() && mEncoding == old(mEncoding) && from <= s <= |src|
      ensures Written(dest, before, lo, units' + late, d)
      ensures match res
        case Ok => late == [] && s == |src| && Underway(goal, src, s, units', hi - d)
        case MoreOutput => late == [] && goal == After(s, units', Stuck(State()))
        case IllegalInput => s < |src| && Blocked(src, s, late) && Underway(goal, src, s, units', hi - d + |late|)
    {
      hide Feed, Splice, Utf7DecoderSpec.State.Valid, DigitMove;
      late := [];
      if mEncoding == ENC_DIRECT {
        res, s, d, units' := DecodeDirect(src, from, dest, at, hi, before, lo, units, goal);
      } else if mFreshBase64 && src[from] == DASH {
        s, d, units' := from, at, units;
        FeedStep(scheme, State(), src, s, units, hi - d);
        Put(dest, before, lo, units, d, scheme.Escape());
        late := [scheme.Escape()];
        d := d + 1;
        res := IllegalInput;
      } else {
        ClearFresh(scheme, State(), src[from..], hi - at);
        mFreshBase64 := false;
        res, s, d, units' := DecodeBase64(src, from, dest, at, hi, before, lo, units, goal);
      }
      assert late == [] ==> units' + late == units';
    }

    /** The byte that the attempt ended at is looked at again: it opens a run, or the run is over
        and a '-' is absorbed. */
    method Switch(src: seq<Byte>, at: nat, ghost late: seq<Unit>) returns (s: nat)
      requires Valid() && Blocked(src, at, late)
      modifies this
      ensures Valid()
      ensures var m := NextMove(scheme, old(State()), src[at]);
        State() == m.next && s == at + m.read && late == m.units && !m.asks
    {
      hide DigitMove;
      s := at;
      if mEncoding == ENC_DIRECT {
        mEncoding, mFreshBase64, mEncBits, mEncStep := ENC_BASE64, true, 0, 0;
        s := s + 1;
      } else {
        mEncoding := ENC_DIRECT;
        if src[s] == DASH {
          s := s + 1;
        }
      }
    }

    /** One call: exactly the moves of `Feed`. IllegalInput never gets out. */
    method ConvertNoBuff(src: seq<Byte>, dest: array<Unit>, lo: nat, hi: nat)
      returns (res: Status, read: nat, written: nat)
      requires Valid() && lo <= hi <= dest.Length
      requires lo + |Feed(scheme, State(), src, hi - lo).units| <= dest.Length
      modifies this, dest
      ensures Valid() && res != IllegalInput
      ensures var f := Feed(scheme, old(State()), src, hi - lo);
        && State() == f.state && read == f.read && written == |f.units| && res == f.status
        && dest[..] == Splice(old(dest[..]), lo, f.units)
    {
      hide Feed, Splice, Utf7DecoderSpec.State.Valid, NextMove, Blocked, DigitMove;
      res := Ok;
      var s: nat, d: nat := 0, lo;
      ghost var before, units, goal := dest[..], [], Feed(scheme, State(), src, hi - lo);
      SpliceNothing(dest[..], lo);
      assert src[0..] == src;
      while s < |src|
        invariant Valid() && s <= |src| && Written(dest, before, lo, units, d)
        invariant Underway(goal, src, s, units, hi - d)
        invariant res == Ok
        decreases |src| - s, mEncoding
      {
        ghost var late;
        res, s, d, units, late := Attempt(src, s, dest, d, hi, before, lo, units, goal);
        assert late == [] ==> units + late == units;

        // see whether the byte is part of an escape sequence
        if res == IllegalInput {
          FeedStep(scheme, State(), src, s, units, hi - d + |late|);
          units := units + late;
          res := Ok;
          s := Switch(src, s, late);
        } else if res != Ok {
          break;
        }
      }
      if res == Ok {
        FeedNothing(scheme, State(), src, units, hi - d);
      }
      assert units + [] == units;
      read, written := s, d - lo;
    }
  }
}
