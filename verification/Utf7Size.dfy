/** How long encoded text is. */
module Utf7Size {
  import opened Utf7Scheme
  import opened Utf7Refinement
  import opened Utf7Text

  /** The bytes of the direct units: two for the escape byte, one for any other. */
  function DirectSize(sc: Scheme, u: seq<Unit>): nat {
    if u == [] then 0
    else (if !sc.DirectEncodable(u[0]) then 0 else if u[0] == sc.Escape() then 2 else 1)
         + DirectSize(sc, u[1..])
  }

  /** The lengths of the maximal runs of other units; `open` of them stand just before `u`. */
  function RunLengths(sc: Scheme, u: seq<Unit>, open: nat): seq<nat> {
    if u == [] then if open > 0 then [open] else []
    else if sc.DirectEncodable(u[0]) then
      if open > 0 then [open] + RunLengths(sc, u[1..], 0) else RunLengths(sc, u[1..], 0)
    else RunLengths(sc, u[1..], open + 1)
  }

  /** Shift bytes and digits for runs of these lengths. */
  function RunsSize(ks: seq<nat>): nat {
    if ks == [] then 0 else 2 + (8 * ks[0] + 2) / 3 + RunsSize(ks[1..])
  }

  lemma {:induction false} RunLengthsOfRun(sc: Scheme, run: seq<Unit>, rest: seq<Unit>, open: nat)
    requires NoneDirect(sc, run) && Breaks(sc, rest) && open + |run| > 0
    ensures RunLengths(sc, run + rest, open) == [open + |run|] + RunLengths(sc, rest, 0)
    ensures DirectSize(sc, run + rest) == DirectSize(sc, rest)
    decreases |run|
  {
    hide Scheme.DirectEncodable;
    if run == [] {
      assert run + rest == rest;
    } else {
      assert run[0] in run && forall u :: u in run[1..] ==> u in run;
      assert (run + rest)[1..] == run[1..] + rest;
      RunLengthsOfRun(sc, run[1..], rest, open + 1);
    }
  }

  /** Exact size: direct units as above, and 2 + ceil(8k / 3) for each maximal run of length k. */
  lemma {:induction false} ExactSize(sc: Scheme, u: seq<Unit>)
    ensures |EncodeText(sc, u)| == DirectSize(sc, u) + RunsSize(RunLengths(sc, u, 0))
    decreases |u|
  {
    hide Scheme.DirectEncodable;
    if u == [] {
    } else if sc.DirectEncodable(u[0]) {
      ExactSize(sc, u[1..]);
    } else {
      var run, rest := FirstRun(sc, u);
      ExactSize(sc, rest);
      RunLengthsOfRun(sc, run, rest, 0);
      RunBytesSize(sc, run);
    }
  }

  lemma RunBytesSize(sc: Scheme, run: seq<Unit>)
    ensures |RunBytes(sc, run)| == 2 + (8 * |run| + 2) / 3
  {
    RunDigitsBits(run);
  }

  /** At most 3.5 bytes a unit and 1.5 more; a text that does not begin with a run is within 3.5.
      Without the two-byte escape pair, 3 bytes a unit and 2 more. */
  lemma {:induction false} SizeBound(sc: Scheme, u: seq<Unit>)
    ensures 2 * |EncodeText(sc, u)| <= 7 * |u| + if Breaks(sc, u) then 0 else 3
    ensures sc.UTF7? ==> |EncodeText(sc, u)| <= 3 * |u| + if Breaks(sc, u) then 0 else 2
    decreases |u|
  {
    if u == [] {
    } else if sc.DirectEncodable(u[0]) {
      SizeBound(sc, u[1..]);
    } else {
      hide Scheme.DirectEncodable;
      var run, rest := FirstRun(sc, u);
      SizeBound(sc, rest);
      RunBytesSize(sc, run);
      assert |u| == |run| + |rest|;
    }
  }

  /** NUL, c, NUL, c, ..., NUL with m copies of c. */
  function Alternating(c: Unit, m: nat): (u: seq<Unit>)
    ensures |u| == 2 * m + 1 && u[0] == 0
  {
    if m == 0 then [0] else [0, c] + Alternating(c, m - 1)
  }

  /** The bounds are attained at every odd length. */
  lemma {:induction false} BoundIsTight(m: nat)
    ensures 2 * |EncodeText(ModifiedUTF7, Alternating('&' as int, m))| == 7 * |Alternating('&' as int, m)| + 3
    ensures |EncodeText(UTF7, Alternating('A' as int, m))| == 3 * |Alternating('A' as int, m)| + 2
  {
    hide EncodeText, Alternating;
    if m > 0 {
      BoundIsTight(m - 1);
    }
    AlternatingStep(ModifiedUTF7, '&' as int, m);
    AlternatingStep(UTF7, 'A' as int, m);
  }

  lemma AlternatingStep(sc: Scheme, c: Unit, m: nat)
    requires sc.DirectEncodable(c)
    ensures
      var n := |EncodeText(sc, Alternating(c, m))|;
      if m == 0 then n == 5
      else n == 5 + |DirectBytes(sc, c)| + |EncodeText(sc, Alternating(c, m - 1))|
  {
    var run := [0];
    var rest := if m == 0 then [] else [c] + Alternating(c, m - 1);
    assert Alternating(c, m) == run + rest;
    EncodeTextRun(sc, run, rest);
    RunBytesSize(sc, run);
    if m > 0 {
      assert rest[1..] == Alternating(c, m - 1);
    }
  }
}
