/** What a toolbar user relies on: no node is lost, fixed items stay, and what was set is read back. */
module ToolbarLaws {
  import opened ToolbarSpec
  import opened ToolbarNodes

  // ---- conservation ------------------------------------------------------------------------

  /** The nodes there were are still there, each once; any others were created meanwhile. */
  ghost predicate Conserved(b: Bar, c: Bar) {
    && b.nextKey <= c.nextKey
    && (forall k :: k < b.nextKey ==> Keys(c)[k] == Keys(b)[k])
    && (forall k :: k >= b.nextKey ==> Keys(c)[k] <= 1)
    && Bounded(c)
  }

  /** Placing an id leaves the keys alone or puts one, old or just created, at one place. */
  ghost predicate OneMoved(c: Bar, d: Bar, key: nat) {
    && c.nextKey <= d.nextKey
    && (key in Keys(c) || c.nextKey <= key < d.nextKey)
    && Keys(d) == Keys(c)[key := 1]
  }

  lemma PlaceIdKeys(c: Bar, env: Env, cache: map<string, Node>, id: string) returns (key: nat)
    requires Sound(c, cache)
    ensures
      var d := PlaceId(c, env, cache, id);
      OneMoved(c, d, key) || (Keys(d) == Keys(c) && c.nextKey <= d.nextKey)
  {
    hide AddedCovers, CacheLive, IndexOf, Bounded;
    var d := PlaceId(c, env, cache, id);
    var i := IndexOf(c.rest, id);
    key := 0;
    if i < |c.rest| {
      FoundKeys(c, i, d);
    } else {
      Fetched(c, env, cache, id);
      FetchedKey(c, env, cache, id);
      var (item, e) := Fetch(c, env, cache, id);
      assert Keys(e) == Keys(c);
      hide Insert, GetToolbarItem, Keys;
      if item.Some? && item.value.id !in e.added {
        key := item.value.key;
        InsertKeys(e, item.value);
        InsertCounters(e, item.value);
      }
    }
  }

  lemma InsertCounters(b: Bar, n: Node)
    ensures Insert(b, n).nextKey == b.nextKey && Insert(b, n).made == b.made
  {
  }

  lemma PlaceIdConserves(b: Bar, c: Bar, env: Env, cache: map<string, Node>, id: string)
    requires Sound(c, cache) && Conserved(b, c)
    ensures Conserved(b, PlaceId(c, env, cache, id))
  {
    PlaceIdSound(c, env, cache, id);
    var key := PlaceIdKeys(c, env, cache, id);
    var d := PlaceId(c, env, cache, id);
    hide Keys, PlaceId, AddedCovers, CacheLive, OneMoved;
    if OneMoved(c, d, key) {
      MovedConserved(b, c, d, key);
    }
  }

  lemma MovedConserved(b: Bar, c: Bar, d: Bar, key: nat)
    requires Conserved(b, c) && Distinct(c) && OneMoved(c, d, key) && Bounded(d)
    ensures Conserved(b, d)
  {
    hide Keys;
    assert key in Keys(c) ==> Keys(c)[key] == 1;
    if key !in Keys(c) {
      assert key >= b.nextKey;
    }
  }

  /** A fetched item is a node there was, or one just created. */
  lemma FetchedKey(c: Bar, env: Env, cache: map<string, Node>, id: string)
    requires Sound(c, cache)
    ensures
      var (item, e) := Fetch(c, env, cache, id);
      && e.nextKey >= c.nextKey
      && (item.Some? && item.value.id !in c.added ==>
            item.value.key in Keys(c) || c.nextKey <= item.value.key < e.nextKey)
  {
    var (item, e) := Fetch(c, env, cache, id);
    if item.Some? && item.value.id !in c.added {
      var n := item.value;
      if n in c.rest { KeyIn(c.rest, n); }
      else if n in c.palette { KeyIn(c.palette, n); }
      else if n in c.earlier { KeyIn(c.earlier, n); }
      else if n in c.later { KeyIn(c.later, n); }
    }
  }

  lemma {:induction false} PlaceAllConserves(b: Bar, env: Env, cache: map<string, Node>, ids: seq<string>)
    requires Sound(b, cache)
    ensures Sound(PlaceAll(b, env, cache, ids), cache)
    ensures Conserved(b, PlaceAll(b, env, cache, ids))
  {
    hide PlaceId, CacheLive, AddedCovers;
    if ids != [] {
      PlaceAllConserves(b, env, cache, ids[..|ids| - 1]);
      var c := PlaceAll(b, env, cache, ids[..|ids| - 1]);
      PlaceIdSound(c, env, cache, ids[|ids| - 1]);
      PlaceIdConserves(b, c, env, cache, ids[|ids| - 1]);
    }
  }

  /** The first node goes to one of the two halves. */
  lemma FilterHead(n: Node, rest: seq<Node>)
    ensures
      var nodes := [n] + rest;
      && Filter(nodes, Loose(n)) == [n] + Filter(rest, Loose(n))
      && Filter(nodes, !Loose(n)) == Filter(rest, !Loose(n))
      && KeysOf(nodes) == multiset{n.key} + KeysOf(rest)
  {
    hide Loose;
    assert ([n] + rest)[1..] == rest;
  }

  lemma FilterKeysStep(n: Node, rest: seq<Node>)
    requires KeysOf(Filter(rest, false)) + KeysOf(Filter(rest, true)) == KeysOf(rest)
    ensures KeysOf(Filter([n] + rest, false)) + KeysOf(Filter([n] + rest, true)) == KeysOf([n] + rest)
  {
    hide KeysOf, Filter, Loose;
    FilterHead(n, rest);
    KeysHead(n, Filter(rest, Loose(n)));
    var f, t := KeysOf(Filter(rest, false)), KeysOf(Filter(rest, true));
    assert (multiset{n.key} + f) + t == multiset{n.key} + (f + t) == f + (multiset{n.key} + t);
  }

  lemma {:induction false} FilterKeys(nodes: seq<Node>)
    ensures KeysOf(Filter(nodes, false)) + KeysOf(Filter(nodes, true)) == KeysOf(nodes)
  {
    if nodes != [] {
      FilterKeys(nodes[1..]);
      FilterKeysStep(nodes[0], nodes[1..]);
      assert nodes == [nodes[0]] + nodes[1..];
    }
  }

  lemma KeysHead(n: Node, rest: seq<Node>)
    ensures KeysOf([n] + rest) == multiset{n.key} + KeysOf(rest)
  {
    assert ([n] + rest)[1..] == rest;
  }

  lemma {:induction false} ReverseKeys(nodes: seq<Node>)
    ensures KeysOf(Reverse(nodes)) == KeysOf(nodes)
  {
    if nodes != [] {
      ReverseKeys(nodes[1..]);
      KeysConcat(Reverse(nodes[1..]), [nodes[0]]);
      assert KeysOf([nodes[0]]) == multiset{nodes[0].key};
    }
  }

  /** What clearing drops: the loose leftovers, when there is no palette. */
  function Dropped(b: Bar, env: Env): multiset<nat> {
    if env.hasPalette then multiset{} else KeysOf(Filter(b.rest, true))
  }

  lemma ClearKeys(b: Bar, env: Env)
    ensures Keys(Clear(b, env)) + Dropped(b, env) == Keys(b)
  {
    FilterKeys(b.rest);
    ReverseKeys(Filter(b.rest, true));
    KeysConcat(b.palette, Reverse(Filter(b.rest, true)));
    var c := Clear(b, env);
    assert KeysOf(c.palette) == KeysOf(b.palette) + if env.hasPalette then KeysOf(Filter(b.rest, true)) else multiset{};
    hide KeysOf, Filter, Reverse;
  }

  /** Conservation: over toolbar, palette and sibling toolbars together, setting the list keeps
      every node exactly once and adds only new ones. Without a palette the loose leftovers, and
      nothing else, are dropped. */
  lemma Conservation(b: Bar, env: Env, ids: seq<string>)
    requires b.placed == [] && Distinct(b) && Bounded(b)
    ensures
      var c, placed := Reconcile(b, env, ids), PlaceAll(b, env, Cache(b.palette), ids);
      && Distinct(c) && Bounded(c) && b.nextKey <= c.nextKey
      && (forall k :: k < b.nextKey ==> Keys(c)[k] + Dropped(placed, env)[k] == Keys(b)[k])
      && (env.hasPalette ==> Conserved(b, c))
  {
    StartSound(b);
    PlaceAllConserves(b, env, Cache(b.palette), ids);
    var placed := PlaceAll(b, env, Cache(b.palette), ids);
    ClearKeys(placed, env);
    hide Keys, Dropped, Clear, PlaceAll, CacheLive, AddedCovers;
    var c := Reconcile(b, env, ids);
    assert forall k :: Keys(c)[k] + Dropped(placed, env)[k] == Keys(placed)[k];
    assert c.nextKey == placed.nextKey by { ClearCounters(placed, env); }
  }

  lemma ClearCounters(b: Bar, env: Env)
    ensures Clear(b, env).nextKey == b.nextKey
    ensures !env.hasPalette || Dropped(b, env) == multiset{}
  {
  }

  /** A child is still on the toolbar when the list has been gone through. */
  lemma {:induction false} FixedStay(b: Bar, env: Env, cache: map<string, Node>, ids: seq<string>, n: Node)
    requires Sound(b, cache) && n in b.rest
    ensures
      var c := PlaceAll(b, env, cache, ids);
      n in c.rest || n.key in KeysOf(c.placed)
  {
    if ids != [] {
      var before, id := ids[..|ids| - 1], ids[|ids| - 1];
      FixedStay(b, env, cache, before, n);
      PlaceAllConserves(b, env, cache, before);
      StaysAtPlaceId(PlaceAll(b, env, cache, before), env, cache, id, n);
    }
  }

  lemma StaysAtPlaceId(c: Bar, env: Env, cache: map<string, Node>, id: string, n: Node)
    requires n in c.rest || n.key in KeysOf(c.placed)
    ensures
      var d := PlaceId(c, env, cache, id);
      n in d.rest || n.key in KeysOf(d.placed)
  {
    hide KeysOf;
    var d := PlaceId(c, env, cache, id);
    if |d.placed| > |c.placed| {
      var last := d.placed[|c.placed|];
      assert d.placed == c.placed + [last];
      KeysConcat(c.placed, [last]);
      KeyIn([last], last);
    }
  }

  /** Nodes that go by no name or are not removable stay on the toolbar. */
  lemma FixedItemsStay(b: Bar, env: Env, ids: seq<string>, n: Node)
    requires b.placed == [] && Distinct(b) && Bounded(b)
    requires n in b.rest && (IdFromNode(n) == "" || !n.removable)
    ensures
      var c := Reconcile(b, env, ids);
      n.key in KeysOf(c.placed + c.rest)
  {
    StartSound(b);
    FixedStay(b, env, Cache(b.palette), ids, n);
    var placed := PlaceAll(b, env, Cache(b.palette), ids);
    var c := Reconcile(b, env, ids);
    KeysConcat(c.placed, c.rest);
    if n in placed.rest {
      assert n in c.rest;
      KeyIn(c.rest, n);
    }
  }
}
