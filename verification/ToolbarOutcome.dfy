/** Where everything is once a list has been set: which nodes are removable, in what order they
    stand, and which of several nodes by an id is taken. */
module ToolbarOutcome {
  import opened ToolbarSpec
  import opened ToolbarNodes
  import opened ToolbarLaws
  import opened ToolbarReading

  /** What the elements are called in a list, whatever their ids are. */
  lemma ElementNames(n: Node)
    ensures n.skip ==> IdFromNode(n) == ""
    ensures !n.skip && n.kind == Separator ==> IdFromNode(n) == "separator"
    ensures !n.skip && n.kind == Spring ==> IdFromNode(n) == "spring"
    ensures !n.skip && n.kind == Spacer ==> IdFromNode(n) == "spacer"
    ensures !n.skip && n.kind == Ordinary ==> IdFromNode(n) == n.id
    ensures KindOf("separator") == Separator && KindOf("spring") == Spring && KindOf("spacer") == Spacer
  {
  }

  // ---- the `removable` attribute ---------------------------------------------------------------

  /** A node on the toolbar that was no child before is removable. A child is as it was, unless the
      list has its id while it goes by another name or none: then it is removable, too. */
  ghost predicate Attribute(b: Bar, ids: seq<string>, n: Node) {
    if n.key in KeysOf(b.rest) then n in b.rest || (n.removable && IdFromNode(n) != n.id && n.id in ids)
    else n.removable
  }

  /** Where an item about to be placed is: elsewhere, nowhere yet, or among the children, where no
      node goes by the id. */
  lemma FetchedFrom(b: Bar, c: Bar, env: Env, id: string)
    requires Origins(b, env, c) && AddedCovers(c) && IndexOf(c.rest, id) == |c.rest|
    ensures
      var item := Fetch(c, env, Cache(b.palette), id).0;
      item.Some? && item.value.id !in c.added ==>
        var n := item.value;
        || n.key >= b.nextKey || n in b.palette || n in b.earlier || n in b.later
        || (n in b.rest && n.id == id != IdFromNode(n))
  {
    hide StampedId, Origin;
  }

  lemma NotAChild(b: Bar, n: Node)
    requires Distinct(b) && Bounded(b)
    requires n.key >= b.nextKey || n in b.palette || n in b.earlier || n in b.later
    ensures n.key !in KeysOf(b.rest)
  {
    if n.key in KeysOf(b.rest) {
      assert n.key in Keys(b) && Keys(b)[n.key] <= 1;
      if n in b.palette { KeyIn(b.palette, n); }
      if n in b.earlier { KeyIn(b.earlier, n); }
      if n in b.later { KeyIn(b.later, n); }
    }
  }

  /** A node that an id has brought to the toolbar is the item it fetches. */
  lemma PlacedItem(c: Bar, env: Env, cache: map<string, Node>, id: string, n: Node)
    requires IndexOf(c.rest, id) == |c.rest|
    requires n in PlaceId(c, env, cache, id).placed && n !in c.placed
    ensures
      var item := Fetch(c, env, cache, id).0;
      item.Some? && item.value.id !in c.added && n == item.value.(removable := true)
  {
    hide Without, IndexOf, FirstWithId, Fresh;
  }

  lemma PlaceIdAttribute(b: Bar, p: seq<string>, c: Bar, env: Env, id: string)
    requires Distinct(b) && Bounded(b) && Origins(b, env, c) && AddedCovers(c)
    requires forall n :: n in c.placed ==> Attribute(b, p, n)
    ensures forall n :: n in PlaceId(c, env, Cache(b.palette), id).placed ==> Attribute(b, p + [id], n)
  {
    hide Distinct, Bounded, AddedCovers, Cache, Origin, KeysOf, Fetch;
    var d := PlaceId(c, env, Cache(b.palette), id);
    forall n | n in d.placed ensures Attribute(b, p + [id], n) {
      if n !in c.placed {
        if IndexOf(c.rest, id) < |c.rest| {
          KeyIn(b.rest, n);
        } else {
          FetchedFrom(b, c, env, id);
          PlacedItem(c, env, Cache(b.palette), id, n);
          var m := Fetch(c, env, Cache(b.palette), id).0.value;
          if !(m in b.rest && m.id == id != IdFromNode(m)) {
            NotAChild(b, m);
          }
        }
      }
    }
  }

  lemma {:induction false} PlaceAllAttribute(b: Bar, env: Env, ids: seq<string>)
    requires b.placed == [] && Distinct(b) && Bounded(b)
    ensures forall n :: n in PlaceAll(b, env, Cache(b.palette), ids).placed ==> Attribute(b, ids, n)
  {
    hide Attribute, PlaceId, Distinct, Bounded, CacheLive, Origins;
    StartSound(b);
    if ids != [] {
      var before, id := ids[..|ids| - 1], ids[|ids| - 1];
      assert ids == before + [id];
      PlaceAllAttribute(b, env, before);
      PlaceAllOrigins(b, env, before);
      PlaceAllConserves(b, env, Cache(b.palette), before);
      PlaceIdAttribute(b, before, PlaceAll(b, env, Cache(b.palette), before), env, id);
    }
  }

  /** Setting a list makes the nodes that come to the toolbar removable, and changes the attribute
      of no other node, wherever it is. */
  lemma RemovableAfter(b: Bar, env: Env, ids: seq<string>)
    requires b.placed == [] && Distinct(b) && Bounded(b)
    ensures
      var c := Reconcile(b, env, ids);
      && (forall n :: n in c.placed + c.rest ==> Attribute(b, ids, n))
      && (forall n :: n in c.palette + c.earlier + c.later ==> n in Everything(b))
  {
    hide Attribute, Loose, Distinct, Bounded, Origin;
    StartSound(b);
    PlaceAllAttribute(b, env, ids);
    PlaceAllOrigins(b, env, ids);
    var placed, c := PlaceAll(b, env, Cache(b.palette), ids), Reconcile(b, env, ids);
    forall n | n in c.rest ensures Attribute(b, ids, n) {
      ChildAttribute(b, ids, n);
    }
    forall n | n in c.palette ensures n in Everything(b) {
      InReverse(Filter(placed.rest, true), n);
    }
  }

  lemma ChildAttribute(b: Bar, ids: seq<string>, n: Node)
    requires n in b.rest
    ensures Attribute(b, ids, n)
  {
    KeyIn(b.rest, n);
  }

  /** What a toolbar is once it has been set: its nodes are the children. */
  function Settled(c: Bar): Bar {
    c.(placed := [], rest := c.placed + c.rest, added := {})
  }

  /** Whatever list is set, the empty list then takes everything off the toolbar again that goes by
      a name, but for the children that were fixed at the start. */
  lemma SetThenEmpty(b: Bar, env: Env, ids: seq<string>, env': Env, n: Node)
    requires b.placed == [] && Distinct(b) && Bounded(b)
    ensures
      var c := Reconcile(Settled(Reconcile(b, env, ids)), env', []);
      && c.placed == []
      && (n in c.rest && IdFromNode(n) != "" ==> n in b.rest && !n.removable)
      && (ListsItems(b, env, ids) && n in b.rest && IdFromNode(n) != "" && !n.removable ==> n in c.rest)
  {
    hide Distinct, Bounded, KeysOf, PlaceAll;
    RemovableAfter(b, env, ids);
    EmptyList(Settled(Reconcile(b, env, ids)), env');
    if ListsItems(b, env, ids) && n in b.rest && !n.removable {
      FixedAsItWas(b, env, ids, n);
    }
  }

  lemma EmptyList(b: Bar, env: Env)
    requires b.placed == []
    ensures Reconcile(b, env, []).placed == []
    ensures forall n :: n in Reconcile(b, env, []).rest <==> n in b.rest && !Loose(n)
  {
  }

  /** A fixed child is still the same child. */
  lemma FixedAsItWas(b: Bar, env: Env, ids: seq<string>, n: Node)
    requires b.placed == [] && Distinct(b) && Bounded(b) && ListsItems(b, env, ids)
    requires n in b.rest && !n.removable
    ensures var c := Reconcile(b, env, ids); n in c.placed + c.rest
  {
    hide Reconcile;
    FixedItemsStay(b, env, ids, n);
    RemovableAfter(b, env, ids);
    var c := Reconcile(b, env, ids);
    var m := KeyOfSome(c.placed + c.rest, n.key);
    KeyIn(b.rest, n);
    ReconcileOrigins(b, env, ids);
    assert m in Everything(c);
    OldChild(b, env, c.made, m, n);
    assert n in Everything(b) && (n.id in ids ==> Item(n));
    assert m in b.rest;
    KeyInEverything(b, m, n);
  }

  lemma OldChild(b: Bar, env: Env, made: nat, m: Node, n: Node)
    requires Distinct(b) && Bounded(b) && Origin(b, env, made, m) && n in b.rest && m.key == n.key
    ensures Same(n, m)
  {
    KeyOfEverything(b, n);
    hide StampedId;
    var m' :| m' in Everything(b) && Same(m', m);
    KeyInEverything(b, m', n);
  }

  // ---- order -----------------------------------------------------------------------------------

  /** The nodes with the given keys, in the order they stand in. */
  function Pick(nodes: seq<Node>, keys: set<nat>): (r: seq<Node>)
    ensures forall n :: n in r <==> n in nodes && n.key in keys
  {
    if nodes == [] then []
    else (if nodes[0].key in keys then [nodes[0]] else []) + Pick(nodes[1..], keys)
  }

  function KeySet(nodes: seq<Node>): set<nat> {
    set n | n in nodes :: n.key
  }

  /** Some of the nodes of `all`, in the same order. */
  ghost predicate PartOf(part: seq<Node>, all: seq<Node>) {
    part == Pick(all, KeySet(part))
  }

  function Flip(nodes: seq<Node>): (r: seq<Node>)
    ensures |r| == |nodes|
    ensures forall i :: 0 <= i < |nodes| ==> r[i] == nodes[|nodes| - 1 - i]
  {
    seq(|nodes|, i requires 0 <= i < |nodes| => nodes[|nodes| - 1 - i])
  }

  lemma {:induction false} PickSame(nodes: seq<Node>, keys: set<nat>, keys': set<nat>)
    requires forall n :: n in nodes ==> (n.key in keys <==> n.key in keys')
    ensures Pick(nodes, keys) == Pick(nodes, keys')
  {
    if nodes != [] {
      assert nodes[0] in nodes && forall n :: n in nodes[1..] ==> n in nodes;
      PickSame(nodes[1..], keys, keys');
    }
  }

  lemma {:induction false} PickAll(nodes: seq<Node>, keys: set<nat>)
    requires forall n :: n in nodes ==> n.key in keys
    ensures Pick(nodes, keys) == nodes
  {
    if nodes != [] {
      assert nodes[0] in nodes && forall n :: n in nodes[1..] ==> n in nodes;
      PickAll(nodes[1..], keys);
    }
  }

  lemma {:induction false} PickPick(nodes: seq<Node>, keys: set<nat>, keys': set<nat>)
    ensures Pick(Pick(nodes, keys), keys') == Pick(nodes, keys * keys')
  {
    if nodes != [] {
      var head, rest := nodes[0], nodes[1..];
      PickPick(rest, keys, keys');
      assert nodes == [head] + rest;
      PickHead(head, rest, keys);
      PickHead(head, rest, keys * keys');
      PickHead(head, Pick(rest, keys), keys');
      hide Pick;
    }
  }

  lemma PickHead(head: Node, rest: seq<Node>, keys: set<nat>)
    ensures Pick([head] + rest, keys) == if head.key in keys then [head] + Pick(rest, keys) else Pick(rest, keys)
  {
    assert ([head] + rest)[1..] == rest;
  }

  lemma {:induction false} WithoutIsPick(nodes: seq<Node>, key: nat, keys: set<nat>)
    requires forall n :: n in nodes ==> (n.key in keys <==> n.key != key)
    ensures Without(nodes, key) == Pick(nodes, keys)
  {
    if nodes != [] {
      assert nodes[0] in nodes && forall n :: n in nodes[1..] ==> n in nodes;
      WithoutIsPick(nodes[1..], key, keys);
    }
  }

  lemma PartOfPart(part: seq<Node>, mid: seq<Node>, all: seq<Node>)
    requires PartOf(part, mid) && PartOf(mid, all)
    ensures PartOf(part, all)
  {
    PickPick(all, KeySet(mid), KeySet(part));
    assert KeySet(mid) * KeySet(part) == KeySet(part);
  }

  lemma WithoutPart(nodes: seq<Node>, key: nat)
    ensures PartOf(Without(nodes, key), nodes)
  {
    WithoutIsPick(nodes, key, KeySet(Without(nodes, key)));
  }

  lemma {:induction false} FilterPart(nodes: seq<Node>, loose: bool)
    requires forall k :: KeysOf(nodes)[k] <= 1
    ensures PartOf(Filter(nodes, loose), nodes)
  {
    if nodes != [] {
      var head, rest := nodes[0], nodes[1..];
      forall k ensures KeysOf(rest)[k] <= 1 {
        assert KeysOf(nodes)[k] <= 1;
      }
      FilterPart(rest, loose);
      forall n | n in rest ensures n.key != head.key {
        KeyIn(rest, n);
        assert KeysOf(nodes)[n.key] <= 1;
      }
      hide KeysOf, Loose;
      var f := Filter(rest, loose);
      assert forall n :: n in f ==> n in rest;
      assert Filter(nodes, loose) == (if Loose(head) == loose then [head] else []) + f;
      PickSame(rest, KeySet(f), KeySet(Filter(nodes, loose)));
    }
  }

  lemma FlipHead(nodes: seq<Node>)
    requires nodes != []
    ensures Flip(nodes) == Flip(nodes[1..]) + [nodes[0]]
  {
  }

  lemma {:induction false} ReverseIsFlip(nodes: seq<Node>)
    ensures Reverse(nodes) == Flip(nodes)
  {
    if nodes != [] {
      ReverseIsFlip(nodes[1..]);
      FlipHead(nodes);
      hide Flip;
    }
  }

  /** What is left of every list stands as it stood. */
  ghost predicate Parts(b: Bar, c: Bar) {
    PartOf(c.rest, b.rest) && PartOf(c.palette, b.palette) && PartOf(c.earlier, b.earlier) && PartOf(c.later, b.later)
  }

  lemma PartsWithout(b: Bar, c: Bar, d: Bar, key: nat)
    requires Parts(b, c)
    requires d.rest == Without(c.rest, key) && d.palette == Without(c.palette, key)
    requires d.earlier == Without(c.earlier, key) && d.later == Without(c.later, key)
    ensures Parts(b, d)
  {
    hide Without, PartOf;
    WithoutPart(c.rest, key);
    WithoutPart(c.palette, key);
    WithoutPart(c.earlier, key);
    WithoutPart(c.later, key);
    PartOfPart(d.rest, c.rest, b.rest);
    PartOfPart(d.palette, c.palette, b.palette);
    PartOfPart(d.earlier, c.earlier, b.earlier);
    PartOfPart(d.later, c.later, b.later);
  }

  lemma PlaceIdParts(b: Bar, c: Bar, env: Env, cache: map<string, Node>, id: string)
    requires Distinct(c) && Parts(b, c)
    ensures Parts(b, PlaceId(c, env, cache, id))
  {
    hide Distinct, Without, IndexOf, FirstWithId, Fresh, PartOf;
    var d, i := PlaceId(c, env, cache, id), IndexOf(c.rest, id);
    if i < |c.rest| {
      MoveFound(c, i);
      PartsWithout(b, c, d, c.rest[i].key);
    } else {
      var item := Fetch(c, env, cache, id).0;
      if item.Some? && item.value.id !in c.added {
        PartsWithout(b, c, d, item.value.key);
      }
    }
  }

  lemma {:induction false} PlaceAllParts(b: Bar, env: Env, cache: map<string, Node>, ids: seq<string>)
    requires Sound(b, cache)
    ensures Parts(b, PlaceAll(b, env, cache, ids))
  {
    hide PlaceId, CacheLive, AddedCovers, Distinct, Bounded, Parts;
    if ids == [] {
      PartsOfItself(b);
    } else {
      var before := ids[..|ids| - 1];
      PlaceAllParts(b, env, cache, before);
      PlaceAllConserves(b, env, cache, before);
      PlaceIdParts(b, PlaceAll(b, env, cache, before), env, cache, ids[|ids| - 1]);
    }
  }

  lemma PartsOfItself(b: Bar)
    ensures Parts(b, b)
  {
    PickAll(b.rest, KeySet(b.rest));
    PickAll(b.palette, KeySet(b.palette));
    PickAll(b.earlier, KeySet(b.earlier));
    PickAll(b.later, KeySet(b.later));
  }

  /** Nothing is reordered but by the list: the leftover children, the palette and the other toolbars
      stand as they stood, and the children that go to the palette go behind it, last one first. */
  lemma OrderAfter(b: Bar, env: Env, ids: seq<string>) returns (front: seq<Node>, gone: seq<Node>)
    requires b.placed == [] && Distinct(b) && Bounded(b)
    ensures
      var c := Reconcile(b, env, ids);
      && PartOf(c.rest, b.rest) && PartOf(c.earlier, b.earlier) && PartOf(c.later, b.later)
      && PartOf(front, b.palette) && PartOf(gone, b.rest)
      && c.palette == front + Flip(gone) && (!env.hasPalette ==> gone == [])
  {
    hide PartOf, Distinct, Bounded, PlaceAll, CacheLive, AddedCovers, Clear;
    StartSound(b);
    PlaceAllParts(b, env, Cache(b.palette), ids);
    PlaceAllConserves(b, env, Cache(b.palette), ids);
    front, gone := ClearOrder(b, env, PlaceAll(b, env, Cache(b.palette), ids));
  }

  lemma ClearOrder(b: Bar, env: Env, placed: Bar) returns (front: seq<Node>, gone: seq<Node>)
    requires Parts(b, placed) && Distinct(placed)
    ensures
      var c := Clear(placed, env);
      && PartOf(c.rest, b.rest) && PartOf(c.earlier, b.earlier) && PartOf(c.later, b.later)
      && PartOf(front, b.palette) && PartOf(gone, b.rest)
      && c.palette == front + Flip(gone) && (!env.hasPalette ==> gone == [])
  {
    RestDistinct(placed);
    hide PartOf, Filter, Distinct, KeysOf;
    var loose := Filter(placed.rest, true);
    FilterPart(placed.rest, true);
    FilterPart(placed.rest, false);
    PartOfPart(loose, placed.rest, b.rest);
    PartOfPart(Filter(placed.rest, false), placed.rest, b.rest);
    ReverseIsFlip(loose);
    front, gone := placed.palette, if env.hasPalette then loose else [];
    NothingPart(b.rest);
    assert front + Flip([]) == front;
  }

  lemma NothingPart(all: seq<Node>)
    ensures PartOf([], all)
  {
    PickSame(all, {}, KeySet([]));
    PickPick(all, {}, {});
    assert forall n :: n !in Pick(all, {});
  }

  // ---- which node is taken ---------------------------------------------------------------------

  /** An ordinary node on the toolbar was a child if some child went by its id, and otherwise was in
      the palette if some node there had it. */
  ghost predicate BestSource(b: Bar, n: Node) {
    n.kind == Ordinary ==>
      if exists m :: m in b.rest && IdFromNode(m) == n.id then n.key in KeysOf(b.rest)
      else (exists m :: m in b.palette && m.id == n.id) ==> n.key in KeysOf(b.palette)
  }

  lemma {:induction false} BestPlaced(b: Bar, env: Env, ids: seq<string>, p: seq<string>)
    requires Tidy(b, env, ids) && forall id :: id in p ==> id in ids
    ensures forall n :: n in PlaceAll(b, env, Cache(b.palette), p).placed ==> BestSource(b, n)
  {
    if p != [] {
      var before, id := p[..|p| - 1], p[|p| - 1];
      assert id in p && forall y :: y in before ==> y in p;
      var c := PlaceAll(b, env, Cache(b.palette), before);
      BestPlaced(b, env, ids, before);
      AllPlaced(b, env, ids, before);
      hide BestSource, PlaceAll, Placing, Tidy;
      BestNext(b, env, before, c, ids, id);
    }
  }

  lemma BestNext(b: Bar, env: Env, p: seq<string>, c: Bar, ids: seq<string>, id: string)
    requires Tidy(b, env, ids) && Placing(b, env, p, c) && id in ids
    requires forall n :: n in c.placed ==> BestSource(b, n)
    ensures forall n :: n in PlaceId(c, env, Cache(b.palette), id).placed ==> BestSource(b, n)
  {
    hide Tidy, Sound, Origin, Reads, AddedIs, OthersStay, BestSource, IdFromNode, GetToolbarItem;
    forall n | n in PlaceId(c, env, Cache(b.palette), id).placed ensures BestSource(b, n) {
      if n !in c.placed {
        if IndexOf(c.rest, id) < |c.rest| {
          ChildListed(b, env, ids, id, n);
          WasChild(b, n);
        } else {
          PlacedItem(c, env, Cache(b.palette), id, n);
          FetchedBest(b, env, p, c, ids, id);
        }
      }
    }
  }

  lemma WasChild(b: Bar, n: Node)
    requires n in b.rest && IdFromNode(n) != "" && !n.skip
    ensures BestSource(b, n)
  {
    KeyIn(b.rest, n);
    assert n.kind == Ordinary ==> IdFromNode(n) == n.id;
  }

  lemma FetchedBest(b: Bar, env: Env, p: seq<string>, c: Bar, ids: seq<string>, id: string)
    requires Tidy(b, env, ids) && Placing(b, env, p, c) && id in ids && IndexOf(c.rest, id) == |c.rest|
    ensures
      var item := Fetch(c, env, Cache(b.palette), id).0;
      item.Some? && item.value.id !in c.added ==> BestSource(b, item.value.(removable := true))
  {
    if KindOf(id) == Ordinary {
      var item := Fetch(c, env, Cache(b.palette), id).0;
      FetchedOrigin(b, c, env, id);
      hide Tidy, Sound, Origin, Reads, OthersStay, KeysOf, Unlisted, Fetch, BestSource, Cache;
      if item.Some? && item.value.id !in c.added {
        assert Known(b, id);
        NoChildBy(b, p, c, id);
        PaletteFirst(b, c, env, id);
      }
    } else {
      SpecialNotCached(b, env, ids, id);
    }
  }

  lemma PaletteFirst(b: Bar, c: Bar, env: Env, id: string)
    requires forall m :: m in b.rest ==> IdFromNode(m) != id
    requires var item := Fetch(c, env, Cache(b.palette), id).0; item.Some? && item.value.id == id
    ensures BestSource(b, Fetch(c, env, Cache(b.palette), id).0.value.(removable := true))
  {
    var n := Fetch(c, env, Cache(b.palette), id).0.value;
    if id in Cache(b.palette) {
      KeyIn(b.palette, n);
    }
    hide GetToolbarItem, KeysOf;
  }

  lemma NoChildBy(b: Bar, p: seq<string>, c: Bar, id: string)
    requires Reads(b, p, c) && IndexOf(c.rest, id) == |c.rest| && id !in p
    ensures forall m :: m in b.rest ==> IdFromNode(m) != id
  {
    hide IdFromNode;
    assert id !in multiset(p);
    assert forall m :: m in b.rest && IdFromNode(m) == id ==> m in c.rest;
  }

  /** Of several palette items with one id the last is taken. */
  lemma {:induction false} CacheIsLast(palette: seq<Node>, i: nat)
    requires i < |palette| && forall j :: i < j < |palette| ==> palette[j].id != palette[i].id
    ensures palette[i].id in Cache(palette) && Cache(palette)[palette[i].id] == palette[i]
  {
    if i < |palette| - 1 {
      CacheIsLast(palette[..|palette| - 1], i);
    }
  }

  /** Of several elements of the document with one id the first is found. */
  lemma {:induction false} FirstIsFirst(nodes: seq<Node>, i: nat)
    requires i < |nodes| && forall j :: 0 <= j < i ==> nodes[j].id != nodes[i].id
    ensures FirstWithId(nodes, nodes[i].id) == Some(nodes[i])
  {
    if i > 0 {
      FirstIsFirst(nodes[1..], i - 1);
    }
  }

  /** Which nodes an orderly list takes. Each id takes the leftmost child by that name that is left,
      and then the palette's item before one of another toolbar's; the children that are not taken
      stay behind the others if they are fixed, and leave otherwise. */
  lemma TakenNodes(b: Bar, env: Env, ids: seq<string>)
    requires Tidy(b, env, ids)
    ensures
      var c, untaken := Reconcile(b, env, ids), Unlisted(b.rest, multiset(ids));
      && c.rest == Filter(untaken, false)
      && (forall n :: n in b.rest && n !in untaken ==> n in c.placed)
      && (forall n :: n in c.placed ==> BestSource(b, n))
  {
    AllPlaced(b, env, ids, ids);
    BestPlaced(b, env, ids, ids);
    hide BestSource, Unlisted, Filter, Origins, OthersStay, AddedIs, Distinct, Bounded;
    var placed := PlaceAll(b, env, Cache(b.palette), ids);
    forall n | n in b.rest && n !in placed.rest ensures n in placed.placed {
      TakenChild(b, env, ids, n);
    }
  }

  lemma TakenChild(b: Bar, env: Env, ids: seq<string>, n: Node)
    requires Tidy(b, env, ids) && n in b.rest
    ensures
      var c := PlaceAll(b, env, Cache(b.palette), ids);
      n !in c.rest ==> n in c.placed
  {
    hide NewStamps;
    StartSound(b);
    var c := PlaceAll(b, env, Cache(b.palette), ids);
    FixedStay(b, env, Cache(b.palette), ids, n);
    PlaceAllOrigins(b, env, ids);
    PlaceAllAttribute(b, env, ids);
    if n !in c.rest {
      var m := KeyOfSome(c.placed, n.key);
      KeyIn(b.rest, n);
      OldChild(b, env, c.made, m, n);
      assert n in Everything(b) && (n.id in ids ==> Item(n));
      assert m in b.rest;
      KeyInEverything(b, m, n);
    }
  }
}
