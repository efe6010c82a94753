/** The caller's output buffer: `dest` from `lo` on, as both converters fill it. */
module OutputBuffer {

  /** `buffer` with `bytes` written over it from `lo` on. */
  ghost function Splice<T>(buffer: seq<T>, lo: nat, bytes: seq<T>): (r: seq<T>)
    requires lo + |bytes| <= |buffer|
    ensures |r| == |buffer|
    ensures r[lo..lo + |bytes|] == bytes
  {
    buffer[..lo] + bytes + buffer[lo + |bytes|..]
  }

  lemma SpliceNothing<T>(buffer: seq<T>, lo: nat)
    requires lo <= |buffer|
    ensures Splice(buffer, lo, []) == buffer
  {
  }

  /** A call under way has written `bytes` from `lo` up to `d`, and nothing else. */
  ghost predicate Written<T>(dest: array<T>, before: seq<T>, lo: nat, bytes: seq<T>, d: nat)
    reads dest
  {
    d == lo + |bytes| <= dest.Length == |before| && dest[..] == Splice(before, lo, bytes)
  }

  method Put<T>(dest: array<T>, ghost before: seq<T>, ghost lo: nat, ghost bytes: seq<T>, at: nat, x: T)
    requires at == lo + |bytes| < dest.Length == |before|
    requires dest[..] == Splice(before, lo, bytes)
    modifies dest
    ensures dest[..] == Splice(before, lo, bytes + [x])
  {
    dest[at] := x;
  }

  method Put2<T>(dest: array<T>, ghost before: seq<T>, ghost lo: nat, ghost bytes: seq<T>, at: nat, x: T, y: T)
    requires at == lo + |bytes| < dest.Length - 1 && dest.Length == |before|
    requires dest[..] == Splice(before, lo, bytes)
    modifies dest
    ensures dest[..] == Splice(before, lo, bytes + [x, y])
  {
    Put(dest, before, lo, bytes, at, x);
    Put(dest, before, lo, bytes + [x], at + 1, y);
    assert bytes + [x] + [y] == bytes + [x, y];
  }

  method Put3<T>(dest: array<T>, ghost before: seq<T>, ghost lo: nat, ghost bytes: seq<T>, at: nat, x: T, y: T, z: T)
    requires at == lo + |bytes| < dest.Length - 2 && dest.Length == |before|
    requires dest[..] == Splice(before, lo, bytes)
    modifies dest
    ensures dest[..] == Splice(before, lo, bytes + [x, y, z])
  {
    Put2(dest, before, lo, bytes, at, x, y);
    Put(dest, before, lo, bytes + [x, y], at + 2, z);
    assert bytes + [x, y] + [z] == bytes + [x, y, z];
  }
}
