/** Comma-separated lists of ids, as the `currentset` attribute holds them. */
module IdList {

  const EMPTY := "__empty"

  function Split(s: string): (xs: seq<string>)
    ensures xs != []
    decreases |s|
  {
    var i := Comma(s);
    if i == |s| then [s] else [s[..i]] + Split(s[i + 1..])
  }

  /** The position of the first comma, or the length. */
  function Comma(s: string): (i: nat)
    ensures i <= |s|
    ensures forall j :: 0 <= j < i ==> s[j] != ','
    ensures i < |s| ==> s[i] == ','
  {
    if s == "" || s[0] == ',' then 0 else 1 + Comma(s[1..])
  }

  function Join(xs: seq<string>): string {
    if xs == [] then "" else if |xs| == 1 then xs[0] else xs[0] + "," + Join(xs[1..])
  }

  /** What reading a toolbar with these ids gives. */
  function Render(xs: seq<string>): string {
    if Join(xs) == "" then EMPTY else Join(xs)
  }

  /** The ids a value asks for. */
  function Parse(val: string): seq<string> {
    if val == EMPTY then [] else Split(val)
  }

  /** An id that survives being written into a list. */
  predicate Writable(id: string) {
    id != "" && id != EMPTY && ',' !in id
  }

  lemma CommaAt(x: string, rest: string)
    requires ',' !in x && (rest == "" || rest[0] == ',')
    ensures Comma(x + rest) == |x|
  {
    if x == "" {
      assert x + rest == rest;
    } else {
      assert x[0] in x && forall c :: c in x[1..] ==> c in x;
      assert (x + rest)[1..] == x[1..] + rest;
      CommaAt(x[1..], rest);
    }
  }

  lemma SplitFirst(x: string, rest: string)
    requires ',' !in x
    ensures Split(x + "," + rest) == [x] + Split(rest)
  {
    var s := x + "," + rest;
    assert s == x + ("," + rest);
    CommaAt(x, "," + rest);
    assert s[..|x|] == x && s[|x| + 1..] == rest;
  }

  lemma {:induction false} SplitJoin(xs: seq<string>)
    requires xs != [] && forall x :: x in xs ==> ',' !in x
    ensures Split(Join(xs)) == xs
  {
    assert xs[0] in xs && forall x :: x in xs[1..] ==> x in xs;
    if |xs| == 1 {
      CommaAt(xs[0], "");
      assert xs[0] + "" == xs[0];
    } else {
      hide Split;
      SplitJoin(xs[1..]);
      SplitFirst(xs[0], Join(xs[1..]));
      assert xs == [xs[0]] + xs[1..];
    }
  }

  /** Reading back what was rendered. */
  lemma ParseRender(xs: seq<string>)
    requires forall x :: x in xs ==> Writable(x)
    ensures Parse(Render(xs)) == xs
  {
    if xs != [] {
      SplitJoin(xs);
      assert xs[0] in xs;
      if |xs| > 1 {
        assert ',' in Join(xs) by { assert Join(xs)[|xs[0]|] == ','; }
      }
    }
  }

  lemma {:induction false} JoinSplit(s: string)
    ensures Join(Split(s)) == s
    ensures forall x :: x in Split(s) ==> ',' !in x
    decreases |s|
  {
    var i := Comma(s);
    if i < |s| {
      JoinSplit(s[i + 1..]);
      assert s == s[..i] + "," + s[i + 1..];
      assert Split(s)[1..] == Split(s[i + 1..]);
    }
  }

  /** Any value at all is its parts between commas, written out again. */
  lemma RenderParse(val: string)
    ensures Render(Parse(val)) == if val == "" then "__empty" else val
    ensures val != "__empty" ==> forall id :: id in Parse(val) ==> ',' !in id
  {
    JoinSplit(val);
  }
}
