/** Big-endian bit sequences: the reading under which a base64 run is one long
    string of bits, cut into 16-bit units on one side and 6-bit digits on the other. */
module Bits {

  function Pow2(w: nat): (p: nat)
    ensures p > 0
  {
    if w == 0 then 1 else 2 * Pow2(w - 1)
  }

  /** The `w` low bits of `n`, most significant first. */
  function ToBits(n: nat, w: nat): (b: seq<bool>)
    ensures |b| == w
  {
    if w == 0 then [] else ToBits(n / 2, w - 1) + [n % 2 == 1]
  }

  function FromBits(b: seq<bool>): (n: nat)
    ensures n < Pow2(|b|)
  {
    if b == [] then 0
    else 2 * FromBits(b[..|b| - 1]) + if b[|b| - 1] then 1 else 0
  }

  function Zeros(w: nat): (b: seq<bool>)
    ensures |b| == w
    ensures forall i :: 0 <= i < w ==> !b[i]
  {
    seq(w, _ => false)
  }

  /** The values in `xs`, each written with `w` bits, one after the other. */
  function BitsOf(xs: seq<nat>, w: nat): (b: seq<bool>)
    ensures |b| == w * |xs|
  {
    if xs == [] then [] else ToBits(xs[0], w) + BitsOf(xs[1..], w)
  }

  /** The complete `w`-bit groups at the front of `b`; a shorter remainder is dropped. */
  function Chunks(b: seq<bool>, w: nat): (xs: seq<nat>)
    requires w > 0
    ensures |xs| == |b| / w
    ensures forall x :: x in xs ==> x < Pow2(w)
    decreases |b|
  {
    if |b| < w then []
    else
      ChunkCount(|b|, w);
      [FromBits(b[..w])] + Chunks(b[w..], w)
  }

  /** What `Chunks` drops. */
  function Remainder(b: seq<bool>, w: nat): (r: seq<bool>)
    requires w > 0
    ensures |r| == |b| % w
    decreases |b|
  {
    if |b| < w then b
    else
      ChunkCount(|b|, w);
      Remainder(b[w..], w)
  }

  lemma ChunkCount(n: nat, w: nat)
    requires 0 < w <= n
    ensures n / w == (n - w) / w + 1 && n % w == (n - w) % w
  {
    var q, r := n / w, n % w;
    var q', r' := (n - w) / w, (n - w) % w;
    assert n == q * w + r && n == q' * w + w + r';
    assert (q' + 1) * w == q' * w + w;
    QuotientUnique(q, r, q' + 1, r', w);
  }

  lemma QuotientUnique(q: nat, r: nat, q': nat, r': nat, w: nat)
    requires r < w && r' < w && q * w + r == q' * w + r'
    ensures q == q' && r == r'
  {
    assert (q + 1) * w == q * w + w;
    assert (q' + 1) * w == q' * w + w;
    if q < q' {
      MulMonotone(q + 1, q', w);
    } else if q > q' {
      MulMonotone(q' + 1, q, w);
    }
  }

  lemma {:induction false} MulMonotone(a: nat, b: nat, w: nat)
    requires a <= b
    ensures a * w <= b * w
  {
    assert b * w == a * w + (b - a) * w;
  }

  /** Writing `a` in front of `b` is the same as writing `a * 2^wb + b` at once. */
  lemma {:induction false} JoinBits(a: nat, wa: nat, b: nat, wb: nat)
    requires b < Pow2(wb)
    ensures ToBits(a * Pow2(wb) + b, wa + wb) == ToBits(a, wa) + ToBits(b, wb)
  {
    if wb == 0 {
      assert a * Pow2(0) + b == a;
      assert ToBits(a, wa) + ToBits(b, 0) == ToBits(a, wa);
    } else {
      var n := a * Pow2(wb) + b;
      assert n == 2 * (a * Pow2(wb - 1)) + b;
      assert n / 2 == a * Pow2(wb - 1) + b / 2 && n % 2 == b % 2;
      JoinBits(a, wa, b / 2, wb - 1);
      assert wa + wb - 1 == wa + (wb - 1);
      assert ToBits(n, wa + wb) == ToBits(n / 2, wa + wb - 1) + [n % 2 == 1];
      assert ToBits(a, wa) + (ToBits(b / 2, wb - 1) + [b % 2 == 1])
          == (ToBits(a, wa) + ToBits(b / 2, wb - 1)) + [b % 2 == 1];
    }
  }

  lemma {:induction false} FromToBits(n: nat, w: nat)
    requires n < Pow2(w)
    ensures FromBits(ToBits(n, w)) == n
  {
    if w > 0 {
      FromToBits(n / 2, w - 1);
      var b := ToBits(n, w);
      assert b[..|b| - 1] == ToBits(n / 2, w - 1);
    }
  }

  lemma {:induction false} ToFromBits(b: seq<bool>)
    ensures ToBits(FromBits(b), |b|) == b
  {
    if b != [] {
      ToFromBits(b[..|b| - 1]);
      assert b == b[..|b| - 1] + [b[|b| - 1]];
    }
  }

  lemma {:induction false} ZeroBits(w: nat)
    ensures ToBits(0, w) == Zeros(w)
  {
    if w > 0 {
      ZeroBits(w - 1);
    }
  }

  lemma {:induction false} BitsOfConcat(xs: seq<nat>, ys: seq<nat>, w: nat)
    ensures BitsOf(xs + ys, w) == BitsOf(xs, w) + BitsOf(ys, w)
  {
    if xs == [] {
      assert xs + ys == ys;
    } else {
      assert (xs + ys)[1..] == xs[1..] + ys;
      BitsOfConcat(xs[1..], ys, w);
    }
  }

  lemma BitsOfOne(x: nat, w: nat)
    ensures BitsOf([x], w) == ToBits(x, w)
  {
    assert [x][1..] == [];
  }

  /** Reading back what was written: the groups come out, the short tail is left over. */
  lemma {:induction false} ChunksOfBits(xs: seq<nat>, tail: seq<bool>, w: nat)
    requires w > 0 && |tail| < w
    requires forall x :: x in xs ==> x < Pow2(w)
    ensures Chunks(BitsOf(xs, w) + tail, w) == xs
    ensures Remainder(BitsOf(xs, w) + tail, w) == tail
  {
    var b := BitsOf(xs, w) + tail;
    if xs == [] {
      assert b == tail;
    } else {
      assert b[..w] == ToBits(xs[0], w);
      assert b[w..] == BitsOf(xs[1..], w) + tail;
      assert xs[0] in xs && forall x :: x in xs[1..] ==> x in xs;
      FromToBits(xs[0], w);
      ChunksOfBits(xs[1..], tail, w);
    }
  }

  /** Writing out the groups again restores the bits, up to the dropped remainder. */
  lemma {:induction false} BitsOfChunks(b: seq<bool>, w: nat)
    requires w > 0
    ensures BitsOf(Chunks(b, w), w) + Remainder(b, w) == b
    decreases |b|
  {
    if |b| >= w {
      BitsOfChunks(b[w..], w);
      ToFromBits(b[..w]);
      assert Chunks(b, w)[1..] == Chunks(b[w..], w);
      assert b == b[..w] + b[w..];
    }
  }
}
