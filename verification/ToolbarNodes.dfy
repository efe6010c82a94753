/** Where the nodes are: every node is in one place, and placing an item moves at most one. */
module ToolbarNodes {
  import opened ToolbarSpec

  function KeysOf(nodes: seq<Node>): multiset<nat> {
    if nodes == [] then multiset{} else multiset{nodes[0].key} + KeysOf(nodes[1..])
  }

  /** All nodes but those placed. */
  function Elsewhere(b: Bar): multiset<nat> {
    KeysOf(b.rest) + KeysOf(b.palette) + KeysOf(b.earlier) + KeysOf(b.later)
  }

  function Keys(b: Bar): multiset<nat> {
    KeysOf(b.placed) + Elsewhere(b)
  }

  /** An element is in the document, or in the palette, at one place only. */
  ghost predicate Distinct(b: Bar) {
    forall k :: Keys(b)[k] <= 1
  }

  ghost predicate AddedCovers(b: Bar) {
    forall n :: n in b.placed ==> n.id in b.added
  }

  lemma {:induction false} KeysConcat(a: seq<Node>, c: seq<Node>)
    ensures KeysOf(a + c) == KeysOf(a) + KeysOf(c)
  {
    if a == [] {
      assert a + c == c;
    } else {
      assert (a + c)[1..] == a[1..] + c;
      KeysConcat(a[1..], c);
    }
  }

  lemma {:induction false} KeyIn(nodes: seq<Node>, n: Node)
    requires n in nodes
    ensures n.key in KeysOf(nodes)
  {
    if nodes[0] != n {
      KeyIn(nodes[1..], n);
    }
  }

  lemma {:induction false} KeyOfSome(nodes: seq<Node>, key: nat) returns (n: Node)
    requires key in KeysOf(nodes)
    ensures n in nodes && n.key == key
  {
    if nodes[0].key == key {
      n := nodes[0];
    } else {
      n := KeyOfSome(nodes[1..], key);
    }
  }

  lemma {:induction false} KeysWithout(nodes: seq<Node>, key: nat)
    ensures KeysOf(Without(nodes, key)) == KeysOf(nodes)[key := 0]
  {
    if nodes != [] {
      KeysWithout(nodes[1..], key);
      KeysConcat(if nodes[0].key == key then [] else [nodes[0]], Without(nodes[1..], key));
    }
  }

  lemma {:induction false} WithoutNone(nodes: seq<Node>, key: nat)
    requires key !in KeysOf(nodes)
    ensures Without(nodes, key) == nodes
  {
    if nodes != [] {
      WithoutNone(nodes[1..], key);
    }
  }

  lemma KeysTake(nodes: seq<Node>, i: nat)
    requires i < |nodes|
    ensures KeysOf(nodes) == KeysOf(nodes[..i]) + multiset{nodes[i].key} + KeysOf(nodes[i + 1..])
    ensures KeysOf(nodes) == KeysOf(nodes[..i] + nodes[i + 1..]) + multiset{nodes[i].key}
  {
    assert nodes[i..][1..] == nodes[i + 1..];
    assert KeysOf(nodes[i..]) == multiset{nodes[i].key} + KeysOf(nodes[i + 1..]);
    hide KeysOf;
    assert nodes == nodes[..i] + nodes[i..];
    KeysConcat(nodes[..i], nodes[i..]);
    KeysConcat(nodes[..i], nodes[i + 1..]);
    Regroup(KeysOf(nodes[..i]), multiset{nodes[i].key}, KeysOf(nodes[i + 1..]));
  }

  lemma Regroup(a: multiset<nat>, k: multiset<nat>, c: multiset<nat>)
    ensures a + (k + c) == a + k + c && a + (k + c) == (a + c) + k
  {
  }

  lemma {:induction false} WithoutOne(nodes: seq<Node>, i: nat)
    requires i < |nodes| && KeysOf(nodes)[nodes[i].key] <= 1
    ensures Without(nodes, nodes[i].key) == nodes[..i] + nodes[i + 1..]
  {
    var key, rest := nodes[i].key, nodes[1..];
    if i == 0 {
      WithoutNone(rest, key);
    } else {
      assert rest[i - 1] == nodes[i];
      KeyIn(rest, nodes[i]);
      WithoutOne(rest, i - 1);
      CutFirst(nodes, i);
    }
  }

  lemma CutFirst<T>(xs: seq<T>, i: nat)
    requires 0 < i < |xs|
    ensures xs[..i] + xs[i + 1..] == [xs[0]] + (xs[1..][..i - 1] + xs[1..][i..])
  {
  }

  /** Moving the i-th of the rest to the cut. */
  lemma MoveFound(b: Bar, i: nat)
    requires Distinct(b) && i < |b.rest|
    ensures
      var key := b.rest[i].key;
      && Without(b.placed, key) == b.placed
      && Without(b.rest, key) == b.rest[..i] + b.rest[i + 1..]
      && Without(b.palette, key) == b.palette
      && Without(b.earlier, key) == b.earlier && Without(b.later, key) == b.later
  {
    var key := b.rest[i].key;
    KeyIn(b.rest, b.rest[i]);
    assert Keys(b)[key] <= 1;
    WithoutNone(b.placed, key);
    WithoutOne(b.rest, i);
    WithoutNone(b.palette, key);
    WithoutNone(b.earlier, key);
    WithoutNone(b.later, key);
  }

  lemma FoundKeys(b: Bar, i: nat, b': Bar)
    requires Distinct(b) && i < |b.rest|
    requires b'.placed == b.placed + [b.rest[i]] && b'.rest == b.rest[..i] + b.rest[i + 1..]
    requires b'.palette == b.palette && b'.earlier == b.earlier && b'.later == b.later
    ensures Keys(b') == Keys(b)
  {
    var key := b.rest[i].key;
    KeyIn(b.rest, b.rest[i]);
    assert Keys(b)[key] <= 1;
    KeysTake(b.rest, i);
    KeysConcat(b.placed, [b.rest[i]]);
    assert KeysOf([b.rest[i]]) == multiset{key};
  }

  /** The palette's cache: what it holds is still in the palette, or its id has been added. */
  ghost predicate CacheLive(b: Bar, cache: map<string, Node>) {
    forall id :: id in cache ==> cache[id].id == id && (cache[id] in b.palette || id in b.added)
  }

  ghost predicate Bounded(b: Bar) {
    forall k :: k in Keys(b) ==> k < b.nextKey
  }

  /** What holds from one id of the list to the next. */
  ghost predicate Sound(b: Bar, cache: map<string, Node>) {
    Distinct(b) && AddedCovers(b) && CacheLive(b, cache) && Bounded(b)
  }

  lemma {:induction false} SameKey(nodes: seq<Node>, m: Node, n: Node)
    requires m in nodes && n in nodes && m.key == n.key && KeysOf(nodes)[m.key] <= 1
    ensures m == n
  {
    if m != n {
      if nodes[0] == m {
        KeyIn(nodes[1..], n);
      } else if nodes[0] == n {
        KeyIn(nodes[1..], m);
      } else {
        SameKey(nodes[1..], m, n);
      }
    }
  }

  /** An item about to be inserted: a node that is elsewhere, or a new one. */
  ghost predicate Insertable(b: Bar, n: Node) {
    && n.key < b.nextKey && n.key !in KeysOf(b.placed)
    && forall m :: m in b.palette && m.key == n.key ==> m == n
  }

  function Fetch(b: Bar, env: Env, cache: map<string, Node>, id: string): (Option<Node>, Bar) {
    if id in cache then (Some(cache[id]), b) else GetToolbarItem(b, env, id)
  }

  lemma NewKeyInsertable(b: Bar, n: Node, nextKey: nat)
    requires Bounded(b) && n.key == b.nextKey < nextKey
    ensures Insertable(b.(nextKey := nextKey), n)
  {
    assert n.key !in Keys(b);
    forall m | m in b.palette ensures m.key != n.key {
      KeyIn(b.palette, m);
      assert m.key in Keys(b);
    }
  }

  lemma ElsewhereInsertable(b: Bar, n: Node)
    requires Distinct(b) && Bounded(b)
    requires n in b.rest || n in b.palette || n in b.earlier || n in b.later
    ensures Insertable(b, n)
  {
    if n in b.rest { KeyIn(b.rest, n); }
    if n in b.palette { KeyIn(b.palette, n); }
    if n in b.earlier { KeyIn(b.earlier, n); }
    if n in b.later { KeyIn(b.later, n); }
    assert n.key in Keys(b) && Keys(b)[n.key] <= 1;
    forall m | m in b.palette && m.key == n.key ensures m == n {
      KeyIn(b.palette, m);
      assert n in b.palette;
      SameKey(b.palette, m, n);
    }
  }

  /** Where a fetched item comes from. */
  lemma Fetched(b: Bar, env: Env, cache: map<string, Node>, id: string)
    requires Sound(b, cache)
    ensures
      var (item, c) := Fetch(b, env, cache, id);
      && c == b.(made := c.made, nextKey := c.nextKey)
      && Bounded(c)
      && (item.Some? && item.value.id !in b.added ==> Insertable(c, item.value))
  {
    var (item, c) := Fetch(b, env, cache, id);
    assert Keys(c) == Keys(b);
    if item.Some? && item.value.id !in b.added {
      var n := item.value;
      if id !in cache && KindOf(id) != Ordinary {
        NewKeyInsertable(b, n, c.nextKey);
        assert c.(made := b.made) == b.(nextKey := c.nextKey);
      } else {
        assert n !in b.placed;
        ElsewhereInsertable(b, n);
      }
    }
  }

  lemma InsertKeys(b: Bar, n: Node)
    requires Insertable(b, n)
    ensures Keys(Insert(b, n)) == Keys(b)[n.key := 1]
  {
    var b' := Insert(b, n);
    ElsewhereWithout(b, b', n.key);
    var n' := n.(removable := true);
    KeysConcat(b.placed, [n']);
    assert KeysOf([n']) == multiset{n.key};
    OneMore(KeysOf(b.placed), Elsewhere(b), n.key);
    hide Elsewhere, Without, KeysOf;
  }

  lemma OneMore(placed: multiset<nat>, others: multiset<nat>, key: nat)
    requires key !in placed
    ensures (placed + multiset{key}) + others[key := 0] == (placed + others)[key := 1]
  {
  }

  lemma ElsewhereWithout(b: Bar, b': Bar, key: nat)
    requires b'.rest == Without(b.rest, key) && b'.palette == Without(b.palette, key)
    requires b'.earlier == Without(b.earlier, key) && b'.later == Without(b.later, key)
    ensures Elsewhere(b') == Elsewhere(b)[key := 0]
  {
    hide KeysOf, Without;
    KeysWithout(b.rest, key);
    KeysWithout(b.palette, key);
    KeysWithout(b.earlier, key);
    KeysWithout(b.later, key);
    ZeroSum(KeysOf(b.rest), KeysOf(b.palette), key);
    ZeroSum(KeysOf(b.rest) + KeysOf(b.palette), KeysOf(b.earlier), key);
    ZeroSum(KeysOf(b.rest) + KeysOf(b.palette) + KeysOf(b.earlier), KeysOf(b.later), key);
  }

  lemma ZeroSum(a: multiset<nat>, c: multiset<nat>, key: nat)
    ensures (a + c)[key := 0] == a[key := 0] + c[key := 0]
  {
  }

  lemma InsertSound(b: Bar, n: Node, cache: map<string, Node>)
    requires Sound(b, cache) && Insertable(b, n)
    ensures Sound(Insert(b, n), cache)
  {
    InsertKeys(b, n);
    InsertCacheLive(b, n, cache);
    hide Keys, CacheLive;
  }

  lemma InsertCacheLive(b: Bar, n: Node, cache: map<string, Node>)
    requires CacheLive(b, cache) && Insertable(b, n)
    ensures CacheLive(Insert(b, n), cache)
  {
    hide Keys, KeysOf;
    var b' := Insert(b, n);
    forall id | id in cache ensures cache[id].id == id && (cache[id] in b'.palette || id in b'.added) {
      if cache[id] in b.palette && cache[id].key == n.key {
        assert cache[id] == n;
      }
    }
  }

  lemma FoundSound(b: Bar, i: nat, b': Bar, cache: map<string, Node>)
    requires Sound(b, cache) && i < |b.rest|
    requires b' == b.(placed := b.placed + [b.rest[i]], rest := b.rest[..i] + b.rest[i + 1..],
                      added := b.added + {b.rest[i].id})
    ensures Sound(b', cache)
  {
    FoundKeys(b, i, b');
    hide Keys;
  }

  lemma PlaceIdSound(b: Bar, env: Env, cache: map<string, Node>, id: string)
    requires Sound(b, cache)
    ensures Sound(PlaceId(b, env, cache, id), cache)
  {
    hide Distinct, AddedCovers, Bounded, CacheLive, Insert, Insertable, GetToolbarItem, IndexOf;
    var b' := PlaceId(b, env, cache, id);
    var i := IndexOf(b.rest, id);
    if i < |b.rest| {
      FoundSound(b, i, b', cache);
    } else {
      Fetched(b, env, cache, id);
      var (item, c) := Fetch(b, env, cache, id);
      CountersSound(b, c, cache);
      if item.Some? && item.value.id !in c.added {
        InsertSound(c, item.value, cache);
      }
    }
  }

  lemma CountersSound(b: Bar, c: Bar, cache: map<string, Node>)
    requires Sound(b, cache) && c == b.(made := c.made, nextKey := c.nextKey) && Bounded(c)
    ensures Sound(c, cache)
  {
    assert Keys(c) == Keys(b);
  }

  /** At the start nothing is placed and the cache is the palette. */
  lemma StartSound(b: Bar)
    requires b.placed == [] && Distinct(b) && Bounded(b)
    ensures Sound(b, Cache(b.palette))
  {
  }
}
