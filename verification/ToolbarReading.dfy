/** Set, then get: what a toolbar reads as after its list has been set. */
module ToolbarReading {
  import opened ToolbarSpec
  import opened ToolbarNodes
  import opened ToolbarLaws
  import opened IdList

  function Everything(b: Bar): seq<Node> {
    b.placed + b.rest + b.palette + b.earlier + b.later
  }

  /** The same element, whatever its `removable` attribute has become. */
  predicate Same(m: Node, n: Node) {
    m.key == n.key && m.id == n.id && m.kind == n.kind && m.skip == n.skip
  }

  /** An id that an element created here gets. */
  ghost predicate StampedId(env: Env, from: nat, upto: nat, id: string) {
    exists k, kind :: from < k <= upto && kind != Ordinary && id == KindName(kind) + env.stamp(k)
  }

  /** An element that was there, or a separator, spring or spacer created since, with a new key. */
  ghost predicate Origin(b: Bar, env: Env, made: nat, n: Node) {
    || (exists m :: m in Everything(b) && Same(m, n))
    || (n.key >= b.nextKey && n.kind != Ordinary && !n.skip && StampedId(env, b.made, made, n.id))
  }

  ghost predicate Origins(b: Bar, env: Env, c: Bar) {
    && b.made <= c.made && b.nextKey <= c.nextKey
    && (forall n :: n in c.placed ==> Origin(b, env, c.made, n))
    && (forall n :: n in c.rest ==> n in b.rest)
    && (forall n :: n in c.palette ==> n in b.palette)
    && (forall n :: n in c.earlier ==> n in b.earlier)
    && (forall n :: n in c.later ==> n in b.later)
  }

  lemma OriginLater(b: Bar, env: Env, made: nat, made': nat, n: Node)
    requires Origin(b, env, made, n) && made <= made'
    ensures Origin(b, env, made', n)
  {
    if !(exists m :: m in Everything(b) && Same(m, n)) {
      var k, kind :| b.made < k <= made && kind != Ordinary && n.id == KindName(kind) + env.stamp(k);
      assert b.made < k <= made' && n.id == KindName(kind) + env.stamp(k);
    }
  }

  /** The item an id fetches that is not on the toolbar yet: an old node by that id, or a new one. */
  lemma FetchedOrigin(b: Bar, c: Bar, env: Env, id: string)
    requires Origins(b, env, c) && AddedCovers(c)
    ensures
      var (item, e) := Fetch(c, env, Cache(b.palette), id);
      && e == c.(made := e.made, nextKey := e.nextKey) && c.made <= e.made && c.nextKey <= e.nextKey
      && (item.Some? && item.value.id !in c.added ==>
            && Origin(b, env, e.made, item.value)
            && ((item.value in Everything(b) && item.value.id == id)
                || (KindOf(id) != Ordinary && IdFromNode(item.value) == id)))
  {
    var (item, e) := Fetch(c, env, Cache(b.palette), id);
    if item.Some? && item.value.id !in c.added {
      var n := item.value;
      assert n !in c.placed;
      if id !in Cache(b.palette) && KindOf(id) != Ordinary {
        assert n.id == KindName(KindOf(id)) + env.stamp(e.made);
      } else {
        assert n in Everything(b) && Same(n, n);
      }
    }
  }

  lemma PlaceIdOrigins(b: Bar, c: Bar, env: Env, id: string)
    requires Origins(b, env, c) && AddedCovers(c)
    ensures Origins(b, env, PlaceId(c, env, Cache(b.palette), id))
  {
    hide AddedCovers, Cache, StampedId;
    var d := PlaceId(c, env, Cache(b.palette), id);
    FetchedOrigin(b, c, env, id);
    hide GetToolbarItem;
    assert c.made <= d.made && c.nextKey <= d.nextKey;
    forall n | n in d.placed ensures Origin(b, env, d.made, n) {
      if n in c.placed {
        OriginLater(b, env, c.made, d.made, n);
      } else if IndexOf(c.rest, id) < |c.rest| {
        assert n in b.rest && Same(n, n);
      }
    }
  }

  lemma {:induction false} PlaceAllOrigins(b: Bar, env: Env, ids: seq<string>)
    requires Sound(b, Cache(b.palette)) && b.placed == []
    ensures Origins(b, env, PlaceAll(b, env, Cache(b.palette), ids))
  {
    if ids != [] {
      var before := ids[..|ids| - 1];
      PlaceAllOrigins(b, env, before);
      PlaceAllConserves(b, env, Cache(b.palette), before);
      hide Origins, Cache, Distinct, CacheLive, Bounded;
      PlaceIdOrigins(b, PlaceAll(b, env, Cache(b.palette), before), env, ids[|ids| - 1]);
    }
  }

  /** Every node there is, is an old one or was created here. */
  ghost predicate AllOrigins(b: Bar, env: Env, c: Bar) {
    forall n :: n in Everything(c) ==> Origin(b, env, c.made, n)
  }

  /** Setting the list changes no node's id, kind or skipping, and brings in no nodes but new
      separators, springs and spacers. */
  lemma ReconcileOrigins(b: Bar, env: Env, ids: seq<string>)
    requires b.placed == [] && Distinct(b) && Bounded(b)
    ensures AllOrigins(b, env, Reconcile(b, env, ids))
  {
    StartSound(b);
    PlaceAllOrigins(b, env, ids);
    var placed := PlaceAll(b, env, Cache(b.palette), ids);
    ClearOrigins(b, env, placed);
  }

  lemma ClearOrigins(b: Bar, env: Env, placed: Bar)
    requires Origins(b, env, placed)
    ensures AllOrigins(b, env, Clear(placed, env))
  {
    hide StampedId, Loose;
    var c := Clear(placed, env);
    forall n | n in Everything(c) ensures Origin(b, env, c.made, n) {
      InReverse(Filter(placed.rest, true), n);
      if n !in placed.placed {
        assert n in Everything(b) && Same(n, n);
      }
    }
  }

  lemma {:induction false} InReverse(nodes: seq<Node>, n: Node)
    ensures n in Reverse(nodes) <==> n in nodes
  {
    if nodes != [] {
      InReverse(nodes[1..], n);
    }
  }

  /** When nothing is dropped, each old node is still there as it was, up to `removable`. */
  lemma NodesKept(b: Bar, env: Env, c: Bar)
    requires Distinct(b) && Bounded(b) && Conserved(b, c) && AllOrigins(b, env, c)
    ensures forall m :: m in Everything(b) ==> exists n :: n in Everything(c) && Same(m, n)
  {
    hide StampedId, Everything;
    forall m | m in Everything(b) ensures exists n :: n in Everything(c) && Same(m, n) {
      KeyOfEverything(b, m);
      assert m.key in Keys(b) && m.key < b.nextKey;
      var n := EverythingByKey(c, m.key);
      var m' :| m' in Everything(b) && Same(m', n);
      KeyInEverything(b, m, m');
    }
  }

  lemma KeysOfEverything(b: Bar)
    ensures KeysOf(Everything(b)) == Keys(b)
  {
    KeysConcat(b.placed, b.rest);
    KeysConcat(b.placed + b.rest, b.palette);
    KeysConcat(b.placed + b.rest + b.palette, b.earlier);
    KeysConcat(b.placed + b.rest + b.palette + b.earlier, b.later);
  }

  lemma KeyOfEverything(b: Bar, m: Node)
    requires m in Everything(b)
    ensures m.key in Keys(b)
  {
    KeysOfEverything(b);
    KeyIn(Everything(b), m);
  }

  lemma EverythingByKey(b: Bar, key: nat) returns (n: Node)
    requires key in Keys(b)
    ensures n in Everything(b) && n.key == key
  {
    KeysOfEverything(b);
    n := KeyOfSome(Everything(b), key);
  }

  lemma KeyInEverything(b: Bar, m: Node, n: Node)
    requires Distinct(b) && m in Everything(b) && n in Everything(b) && m.key == n.key
    ensures m == n
  {
    KeysOfEverything(b);
    SameKey(Everything(b), m, n);
  }

  /** Nothing turns up in a palette or on another toolbar where there was nothing. */
  lemma StillEmpty(b: Bar, env: Env, ids: seq<string>)
    requires b.placed == [] && Distinct(b) && Bounded(b)
    ensures
      var c := Reconcile(b, env, ids);
      && (!env.hasPalette && b.palette == [] ==> c.palette == [])
      && (b.earlier + b.later == [] ==> c.earlier + c.later == [])
  {
    StartSound(b);
    PlaceAllOrigins(b, env, ids);
    var c := PlaceAll(b, env, Cache(b.palette), ids);
    hide PlaceAll, Cache, Distinct, Bounded;
    assert c.palette != [] ==> c.palette[0] in c.palette;
    assert c.earlier != [] ==> c.earlier[0] in c.earlier;
    assert c.later != [] ==> c.later[0] in c.later;
    assert b.earlier + b.later == [] ==> b.earlier == [] && b.later == [];
  }

  // ---- the list that is read back -----------------------------------------------------------

  ghost predicate Known(b: Bar, id: string) {
    exists n :: n in Everything(b) && n.id == id
  }

  /** The listed ids that show: separators, springs and spacers every time, others once and only
      if there is such an item. */
  ghost function Kept(b: Bar, ids: seq<string>): seq<string> {
    if ids == [] then []
    else
      var before, id := ids[..|ids| - 1], ids[|ids| - 1];
      Kept(b, before) + if KindOf(id) != Ordinary || (Known(b, id) && id !in before) then [id] else []
  }

  /** The nodes no id claims, when each listed id claims the leftmost unclaimed node by that name. */
  function Unlisted(nodes: seq<Node>, ids: multiset<string>): (r: seq<Node>)
    ensures forall n :: n in r ==> n in nodes
    ensures forall n :: n in nodes && IdFromNode(n) !in ids ==> n in r
  {
    if nodes == [] then []
    else
      var id := IdFromNode(nodes[0]);
      if id in ids then Unlisted(nodes[1..], ids - multiset{id})
      else [nodes[0]] + Unlisted(nodes[1..], ids)
  }

  /** What the toolbar is to read as: the listed ids, then the fixed items nobody listed. */
  ghost function Expected(b: Bar, ids: seq<string>): seq<string> {
    Kept(b, ids) + Names(Filter(Unlisted(b.rest, multiset(ids)), false))
  }

  /** A node that goes by its own id. */
  predicate Item(n: Node) {
    n.kind == Ordinary && !n.skip && n.id != ""
  }

  /** The children that go by their ids have different ones, which can be written into a list and
      are not the name of a special item. */
  ghost predicate TidyNodes(b: Bar, env: Env) {
    && b.placed == [] && b.added == {} && Distinct(b) && Bounded(b)
    && (forall m, n :: m in b.rest && n in b.rest && Item(m) && Item(n) && m.id == n.id ==> m == n)
    && (forall n :: n in b.rest && Item(n) ==> Writable(n.id) && KindOf(n.id) == Ordinary)
    && (env.hasToolbox || b.earlier + b.later == [])
  }

  /** The ids put on new elements are new. */
  ghost predicate NewStamps(b: Bar, env: Env) {
    && (forall k, kind, n :: k > b.made && kind != Ordinary && n in Everything(b)
          ==> n.id != KindName(kind) + env.stamp(k))
    && (forall k, k', kind, kind' :: b.made < k < k' && kind != Ordinary && kind' != Ordinary
          ==> KindName(kind) + env.stamp(k) != KindName(kind') + env.stamp(k'))
  }

  /** The list names no skipped node, no separator, spring or spacer by its own id, and no nameless
      node; a special name in it is not the id of a palette item; and the document finds the
      listed items of the other toolbars by their ids. */
  ghost predicate ListsItems(b: Bar, env: Env, ids: seq<string>) {
    && (forall n :: n in Everything(b) && n.id in ids ==> Item(n))
    && (forall n :: n in b.palette && n.id in ids ==> KindOf(n.id) == Ordinary)
    && (forall n :: (n in b.earlier || n in b.later) && n.id in ids ==> n.id !in env.foreign)
    && ("" in ids ==> forall n :: n in b.rest ==> IdFromNode(n) != "")
  }

  ghost predicate Tidy(b: Bar, env: Env, ids: seq<string>) {
    TidyNodes(b, env) && NewStamps(b, env) && ListsItems(b, env, ids)
  }

  lemma {:induction false} NamesConcat(a: seq<Node>, c: seq<Node>)
    ensures Names(a + c) == Names(a) + Names(c)
  {
    if a == [] {
      assert a + c == c;
    } else {
      assert (a + c)[1..] == a[1..] + c;
      NamesConcat(a[1..], c);
    }
  }

  function RemoveFirst(nodes: seq<Node>, id: string): seq<Node> {
    if nodes == [] then []
    else if IdFromNode(nodes[0]) == id then nodes[1..]
    else [nodes[0]] + RemoveFirst(nodes[1..], id)
  }

  lemma HeadStep(nodes: seq<Node>, id: string)
    requires nodes != []
    ensures IndexOf(nodes, id) == if IdFromNode(nodes[0]) == id then 0 else 1 + IndexOf(nodes[1..], id)
    ensures RemoveFirst(nodes, id)
         == if IdFromNode(nodes[0]) == id then nodes[1..] else [nodes[0]] + RemoveFirst(nodes[1..], id)
  {
  }

  lemma {:induction false} RemoveFirstIs(nodes: seq<Node>, id: string)
    ensures
      var i := IndexOf(nodes, id);
      RemoveFirst(nodes, id) == if i < |nodes| then nodes[..i] + nodes[i + 1..] else nodes
  {
    if nodes != [] {
      var head, rest := nodes[0], nodes[1..];
      HeadStep(nodes, id);
      hide IndexOf, RemoveFirst, IdFromNode;
      assert nodes == [head] + rest;
      if IdFromNode(head) == id {
        assert nodes[..0] + nodes[1..] == nodes[1..];
      } else {
        RemoveFirstIs(rest, id);
        var i := IndexOf(rest, id);
        if i < |rest| {
          WithoutAt(head, rest, i);
        }
      }
    }
  }

  lemma WithoutAt<T>(head: T, rest: seq<T>, i: nat)
    requires i < |rest|
    ensures ([head] + rest)[..i + 1] + ([head] + rest)[i + 2..] == [head] + (rest[..i] + rest[i + 1..])
  {
  }

  /** One more id in the list strikes out the leftmost unclaimed node by that name. */
  lemma {:induction false} Strike(nodes: seq<Node>, ids: multiset<string>, id: string)
    ensures Unlisted(nodes, ids + multiset{id}) == RemoveFirst(Unlisted(nodes, ids), id)
  {
    if nodes != [] {
      var name, rest := IdFromNode(nodes[0]), nodes[1..];
      if name in ids {
        assert (ids + multiset{id}) - multiset{name} == (ids - multiset{name}) + multiset{id};
        Strike(rest, ids - multiset{name}, id);
      } else if name == id {
        assert (ids + multiset{id}) - multiset{id} == ids;
      } else {
        Strike(rest, ids, id);
      }
    }
  }

  /** A name that only one node goes by is not left over once it is listed. */
  lemma {:induction false} UnlistedOnce(nodes: seq<Node>, ids: multiset<string>, id: string, n: Node)
    requires id in ids && n in Unlisted(nodes, ids) && IdFromNode(n) == id
    requires forall m :: m in nodes && IdFromNode(m) == id ==> m == n
    requires KeysOf(nodes)[n.key] <= 1
    ensures false
  {
    var name, rest := IdFromNode(nodes[0]), nodes[1..];
    if nodes[0] == n {
      KeyIn(rest, n);
    } else {
      UnlistedOnce(rest, if name in ids then ids - multiset{name} else ids, id, n);
    }
  }

  // ---- the invariant from one id to the next -------------------------------------------------

  /** What is read so far, and what is left to claim. */
  ghost predicate Reads(b: Bar, p: seq<string>, c: Bar) {
    Names(c.placed) == Kept(b, p) && c.rest == Unlisted(b.rest, multiset(p))
  }

  /** Only listed items have left the other toolbars. */
  ghost predicate OthersStay(b: Bar, p: seq<string>, c: Bar) {
    && (forall n :: n in b.earlier ==> n in c.earlier || n.id in p)
    && (forall n :: n in b.later ==> n in c.later || n.id in p)
  }

  /** What has been added: the ids of the nodes placed, among them every listed item there is. */
  ghost predicate AddedIs(b: Bar, p: seq<string>, c: Bar) {
    && (forall n :: n in c.placed && n.kind == Ordinary ==> n.id in p)
    && (forall id :: id in c.added ==> exists n :: n in c.placed && n.id == id)
    && (forall id :: id in p && KindOf(id) == Ordinary && Known(b, id) ==> id in c.added)
  }

  /** After the ids in `p` have been placed. */
  ghost predicate Placing(b: Bar, env: Env, p: seq<string>, c: Bar) {
    && Sound(c, Cache(b.palette)) && Origins(b, env, c)
    && Reads(b, p, c) && OthersStay(b, p, c) && AddedIs(b, p, c)
  }

  /** A node that has an old node's id is an old node. */
  lemma OldId(b: Bar, env: Env, ids: seq<string>, made: nat, n: Node, m: Node)
    requires Tidy(b, env, ids) && Origin(b, env, made, n) && m in Everything(b)
    ensures n.id == m.id ==> exists m' :: m' in Everything(b) && Same(m', n)
  {
    hide TidyNodes, ListsItems, Distinct, Bounded, Everything;
    if StampedId(env, b.made, made, n.id) {
      var k, kind :| b.made < k <= made && kind != Ordinary && n.id == KindName(kind) + env.stamp(k);
      assert m.id != KindName(kind) + env.stamp(k);
    }
  }

  /** The id put on the next element is new. */
  lemma NewId(b: Bar, env: Env, ids: seq<string>, made: nat, n: Node, kind: Kind)
    requires Tidy(b, env, ids) && Origin(b, env, made, n) && b.made <= made && kind != Ordinary
    ensures n.id != KindName(kind) + env.stamp(made + 1)
  {
    hide TidyNodes, ListsItems, Distinct, Bounded, Everything;
    if StampedId(env, b.made, made, n.id) {
      var k, kind' :| b.made < k <= made && kind' != Ordinary && n.id == KindName(kind') + env.stamp(k);
      assert KindName(kind') + env.stamp(k) != KindName(kind) + env.stamp(made + 1);
    } else {
      var m :| m in Everything(b) && Same(m, n);
      assert m.id != KindName(kind) + env.stamp(made + 1);
    }
  }

  /** A listed id of an old item that is on the toolbar by now was listed before. */
  lemma AddedWasListed(b: Bar, env: Env, p: seq<string>, c: Bar, ids: seq<string>, id: string)
    requires Tidy(b, env, ids) && Placing(b, env, p, c)
    requires id in ids && id in c.added && Known(b, id)
    ensures id in p
  {
    hide Unlisted, Kept, Names, Distinct, Bounded, CacheLive, AddedCovers, Cache, Everything;
    var n :| n in c.placed && n.id == id;
    var m :| m in Everything(b) && m.id == id;
    OldId(b, env, ids, c.made, n, m);
  }

  lemma NewIdNotAdded(b: Bar, env: Env, p: seq<string>, c: Bar, ids: seq<string>, kind: Kind)
    requires Tidy(b, env, ids) && Placing(b, env, p, c) && kind != Ordinary
    ensures KindName(kind) + env.stamp(c.made + 1) !in c.added
  {
    hide Unlisted, Kept, Names, Distinct, Bounded, CacheLive, AddedCovers, Cache, Everything, Tidy;
    forall n | n in c.placed ensures n.id != KindName(kind) + env.stamp(c.made + 1) {
      NewId(b, env, ids, c.made, n, kind);
    }
  }

  lemma KeptNext(b: Bar, p: seq<string>, id: string)
    ensures Kept(b, p + [id])
         == Kept(b, p) + if KindOf(id) != Ordinary || (Known(b, id) && id !in p) then [id] else []
    ensures multiset(p + [id]) == multiset(p) + multiset{id}
  {
    assert (p + [id])[..|p|] == p;
  }

  /** The child that goes by a listed id. */
  lemma FoundIsListed(b: Bar, env: Env, p: seq<string>, c: Bar, ids: seq<string>, id: string, n: Node)
    requires Tidy(b, env, ids) && Placing(b, env, p, c) && id in ids
    requires n in c.rest && IdFromNode(n) == id
    ensures id != ""
    ensures if KindOf(id) == Ordinary then n.kind == Ordinary && n.id == id && Known(b, id) && id !in p
            else n.kind == KindOf(id)
  {
    assert n in b.rest && n in Unlisted(b.rest, multiset(p));
    hide Tidy, Placing, Unlisted;
    ChildListed(b, env, ids, id, n);
    if n.kind == Ordinary && id in p {
      ListedNotLeft(b, env, p, ids, id, n);
    }
  }

  lemma ChildListed(b: Bar, env: Env, ids: seq<string>, id: string, n: Node)
    requires Tidy(b, env, ids) && id in ids
    requires n in b.rest && IdFromNode(n) == id
    ensures id != "" && !n.skip
    ensures if KindOf(id) == Ordinary then n.kind == Ordinary && n.id == id && Known(b, id)
            else n.kind == KindOf(id)
  {
    hide NewStamps, Distinct, Bounded;
    assert n in Everything(b) && id != "" && Item(n) == (n.kind == Ordinary);
    hide TidyNodes, Everything;
  }

  lemma ListedNotLeft(b: Bar, env: Env, p: seq<string>, ids: seq<string>, id: string, n: Node)
    requires Tidy(b, env, ids) && n in b.rest && n.kind == Ordinary && !n.skip && n.id == id && id in p && id in ids
    ensures n !in Unlisted(b.rest, multiset(p))
  {
    hide NewStamps, Bounded, Unlisted;
    assert n in Everything(b) && Item(n) && KindOf(id) == Ordinary;
    forall m | m in b.rest && IdFromNode(m) == id ensures m == n {
      assert m.kind == Ordinary;
    }
    KeyIn(b.rest, n);
    assert Keys(b)[n.key] <= 1;
    assert id in multiset(p);
    if n in Unlisted(b.rest, multiset(p)) {
      UnlistedOnce(b.rest, multiset(p), id, n);
    }
  }

  /** One more node placed, by an id of the list. */
  lemma AddedNext(b: Bar, p: seq<string>, c: Bar, id: string, n: Node, d: Bar)
    requires AddedIs(b, p, c)
    requires d.placed == c.placed + [n] && d.added == c.added + {n.id}
    requires KindOf(id) == Ordinary ==> n.kind == Ordinary && n.id == id
    requires KindOf(id) != Ordinary ==> n.kind != Ordinary
    ensures AddedIs(b, p + [id], d)
  {
    hide Known;
    forall y | y in d.added ensures exists m :: m in d.placed && m.id == y {
      if y == n.id {
        assert n in d.placed;
      } else {
        var m :| m in c.placed && m.id == y;
        assert m in d.placed;
      }
    }
  }

  lemma ReadsNext(b: Bar, p: seq<string>, c: Bar, id: string, n: Node, d: Bar)
    requires Reads(b, p, c)
    requires KindOf(id) != Ordinary || (Known(b, id) && id !in p)
    requires d.placed == c.placed + [n] && IdFromNode(n) == id != ""
    requires d.rest == RemoveFirst(c.rest, id)
    ensures Reads(b, p + [id], d)
  {
    KeptNext(b, p, id);
    NamesConcat(c.placed, [n]);
    assert [n][1..] == [] && Names([n]) == [id] + [] == [id];
    Strike(b.rest, multiset(p), id);
  }

  lemma PlaceIdFound(c: Bar, env: Env, cache: map<string, Node>, id: string)
    requires IndexOf(c.rest, id) < |c.rest|
    ensures
      var n := c.rest[IndexOf(c.rest, id)];
      PlaceId(c, env, cache, id)
      == c.(placed := c.placed + [n], rest := RemoveFirst(c.rest, id), added := c.added + {n.id})
  {
    RemoveFirstIs(c.rest, id);
  }

  lemma StepFound(b: Bar, env: Env, p: seq<string>, c: Bar, ids: seq<string>, id: string)
    requires Tidy(b, env, ids) && Placing(b, env, p, c) && id in ids
    requires IndexOf(c.rest, id) < |c.rest|
    ensures Placing(b, env, p + [id], PlaceId(c, env, Cache(b.palette), id))
  {
    hide Sound, Origins, Reads, AddedIs, Tidy, Cache, Known, PlaceId, IdFromNode, RemoveFirst;
    var n, d := c.rest[IndexOf(c.rest, id)], PlaceId(c, env, Cache(b.palette), id);
    FoundIsListed(b, env, p, c, ids, id, n);
    PlaceIdFound(c, env, Cache(b.palette), id);
    StepSound(b, env, p, c, id);
    ReadsNext(b, p, c, id, n, d);
    AddedNext(b, p, c, id, n, d);
  }

  lemma StepSound(b: Bar, env: Env, p: seq<string>, c: Bar, id: string)
    requires Placing(b, env, p, c)
    ensures
      var d := PlaceId(c, env, Cache(b.palette), id);
      Sound(d, Cache(b.palette)) && Origins(b, env, d)
  {
    hide Origins, Reads, OthersStay, AddedIs, Distinct, CacheLive, Bounded, PlaceId;
    PlaceIdSound(c, env, Cache(b.palette), id);
    PlaceIdOrigins(b, c, env, id);
  }

  // ---- an id that no child goes by ------------------------------------------------------------

  lemma PlaceIdNew(c: Bar, env: Env, cache: map<string, Node>, id: string)
    requires Bounded(c) && IndexOf(c.rest, id) == |c.rest| && KindOf(id) != Ordinary && id !in cache
    requires Fresh(c, env, KindOf(id)).id !in c.added
    ensures
      var n := Fresh(c, env, KindOf(id)).(removable := true);
      && IdFromNode(n) == id
      && PlaceId(c, env, cache, id)
         == c.(placed := c.placed + [n], added := c.added + {n.id}, made := c.made + 1, nextKey := c.nextKey + 1)
  {
    NewKeyWithout(c, c.nextKey);
  }

  /** A new separator, spring or spacer. */
  lemma StepNew(b: Bar, env: Env, p: seq<string>, c: Bar, ids: seq<string>, id: string)
    requires Tidy(b, env, ids) && Placing(b, env, p, c) && id in ids
    requires IndexOf(c.rest, id) == |c.rest| && KindOf(id) != Ordinary
    ensures Placing(b, env, p + [id], PlaceId(c, env, Cache(b.palette), id))
  {
    hide Origins, Reads, AddedIs, Tidy, Cache, Known, PlaceId, IdFromNode, RemoveFirst, Distinct, Bounded, CacheLive;
    var n, d := Fresh(c, env, KindOf(id)).(removable := true), PlaceId(c, env, Cache(b.palette), id);
    SpecialNotCached(b, env, ids, id);
    NewIdNotAdded(b, env, p, c, ids, KindOf(id));
    PlaceIdNew(c, env, Cache(b.palette), id);
    StepSound(b, env, p, c, id);
    RemoveFirstIs(c.rest, id);
    ReadsNext(b, p, c, id, n, d);
    AddedNext(b, p, c, id, n, d);
  }

  lemma SpecialNotCached(b: Bar, env: Env, ids: seq<string>, id: string)
    requires Tidy(b, env, ids) && id in ids && KindOf(id) != Ordinary
    ensures id !in Cache(b.palette)
  {
    hide NewStamps, TidyNodes;
  }

  lemma NewKeyWithout(c: Bar, key: nat)
    requires Bounded(c) && key >= c.nextKey
    ensures Without(c.rest, key) == c.rest && Without(c.palette, key) == c.palette
    ensures Without(c.earlier, key) == c.earlier && Without(c.later, key) == c.later
  {
    assert key !in Keys(c);
    WithoutNone(c.rest, key);
    WithoutNone(c.palette, key);
    WithoutNone(c.earlier, key);
    WithoutNone(c.later, key);
  }

  /** A listed item that exists and has not been listed before is found: in the palette or on
      another toolbar. */
  lemma FetchedItem(b: Bar, env: Env, p: seq<string>, c: Bar, ids: seq<string>, id: string)
    requires Tidy(b, env, ids) && Placing(b, env, p, c) && id in ids
    requires IndexOf(c.rest, id) == |c.rest| && KindOf(id) == Ordinary && Known(b, id) && id !in p
    ensures
      var (item, e) := Fetch(c, env, Cache(b.palette), id);
      && e == c && item.Some? && item.value.id == id && id !in c.added
      && item.value in Everything(b) && item.value.kind == Ordinary && !item.value.skip
  {
    if id in c.added {
      AddedWasListed(b, env, p, c, ids, id);
    }
    var m :| m in Everything(b) && m.id == id;
    ListedItemIs(b, env, c, ids, m);
    hide TidyNodes, NewStamps, ListsItems, Distinct, Bounded, Sound, Origin, Cache;
    ItemNotPlaced(b, p, c, id, m);
    SomeFetched(b, c, env, id, m);
    FetchedOrigin(b, c, env, id);
    hide Everything;
    ListedItemIs(b, env, c, ids, Fetch(c, env, Cache(b.palette), id).0.value);
  }

  lemma ListedItemIs(b: Bar, env: Env, c: Bar, ids: seq<string>, m: Node)
    requires Tidy(b, env, ids) && Origins(b, env, c)
    requires m in Everything(b) && m.id in ids
    ensures Item(m) && b.placed == []
    ensures m in c.earlier || m in c.later ==> env.hasToolbox && m.id !in env.foreign
  {
    hide NewStamps, Distinct, Bounded;
  }

  /** A listed item that is not on the toolbar, and was not listed before, is where it was. */
  lemma ItemNotPlaced(b: Bar, p: seq<string>, c: Bar, id: string, m: Node)
    requires b.placed == [] && Reads(b, p, c) && OthersStay(b, p, c)
    requires m in Everything(b) && m.id == id && Item(m)
    requires id !in p && IndexOf(c.rest, id) == |c.rest|
    ensures m in b.palette || m in c.earlier || m in c.later
  {
    hide Kept, Names;
    assert IdFromNode(m) == id && id !in multiset(p) && m !in c.rest;
  }

  lemma SomeFetched(b: Bar, c: Bar, env: Env, id: string, m: Node)
    requires m.id == id && id != "" && KindOf(id) == Ordinary && id !in c.added
    requires m in b.palette || m in c.earlier || m in c.later
    requires m in c.earlier || m in c.later ==> env.hasToolbox && id !in env.foreign
    ensures var (item, e) := Fetch(c, env, Cache(b.palette), id);
      item.Some? && item.value.id == id && e == c
  {
  }

  /** An item fetched from the palette or from another toolbar. */
  lemma StepFetched(b: Bar, env: Env, p: seq<string>, c: Bar, ids: seq<string>, id: string)
    requires Tidy(b, env, ids) && Placing(b, env, p, c) && id in ids
    requires IndexOf(c.rest, id) == |c.rest| && KindOf(id) == Ordinary && Known(b, id) && id !in p
    ensures Placing(b, env, p + [id], PlaceId(c, env, Cache(b.palette), id))
  {
    var d := PlaceId(c, env, Cache(b.palette), id);
    FetchedItem(b, env, p, c, ids, id);
    var n := Fetch(c, env, Cache(b.palette), id).0.value;
    StepSound(b, env, p, c, id);
    assert d == Insert(c, n);
    RestWithoutFetched(b, env, p, c, ids, id, n);
    OthersNext(b, p, c, id, n);
    hide Sound, Origins, Reads, AddedIs, OthersStay, Tidy, Cache, Known, Without, GetToolbarItem, PlaceId;
    RemoveFirstIs(c.rest, id);
    ReadsNext(b, p, c, id, n.(removable := true), d);
    AddedNext(b, p, c, id, n.(removable := true), d);
  }

  lemma RestWithoutFetched(b: Bar, env: Env, p: seq<string>, c: Bar, ids: seq<string>, id: string, n: Node)
    requires Tidy(b, env, ids) && Origins(b, env, c)
    requires n in Everything(b) && IdFromNode(n) == id && IndexOf(c.rest, id) == |c.rest|
    ensures Without(c.rest, n.key) == c.rest
  {
    hide NewStamps, ListsItems, Bounded;
    if n.key in KeysOf(c.rest) {
      var m := KeyOfSome(c.rest, n.key);
      assert m in Everything(b);
      KeyInEverything(b, m, n);
    }
    WithoutNone(c.rest, n.key);
  }

  lemma OthersNext(b: Bar, p: seq<string>, c: Bar, id: string, n: Node)
    requires Distinct(b) && OthersStay(b, p, c) && n in Everything(b) && n.id == id
    ensures OthersStay(b, p + [id], Insert(c, n))
  {
    hide Distinct;
    var d := Insert(c, n);
    forall m | m in b.earlier || m in b.later
      ensures m.key == n.key ==> m == n
    {
      if m.key == n.key {
        assert m in Everything(b);
        KeyInEverything(b, m, n);
      }
    }
  }

  /** An id that is listed again, or that nothing has. */
  lemma StepNothing(b: Bar, env: Env, p: seq<string>, c: Bar, ids: seq<string>, id: string)
    requires Tidy(b, env, ids) && Placing(b, env, p, c) && id in ids
    requires IndexOf(c.rest, id) == |c.rest| && KindOf(id) == Ordinary && !(Known(b, id) && id !in p)
    ensures Placing(b, env, p + [id], PlaceId(c, env, Cache(b.palette), id))
  {
    hide Origins, Reads, Tidy, Cache, PlaceId, Distinct, Bounded, CacheLive, RemoveFirst;
    PlaceIdNothing(b, env, p, c, id);
    StepSound(b, env, p, c, id);
    ReadsSame(b, p, c, id);
  }

  lemma PlaceIdNothing(b: Bar, env: Env, p: seq<string>, c: Bar, id: string)
    requires Origins(b, env, c) && AddedCovers(c) && AddedIs(b, p, c)
    requires IndexOf(c.rest, id) == |c.rest| && KindOf(id) == Ordinary && !(Known(b, id) && id !in p)
    ensures PlaceId(c, env, Cache(b.palette), id) == c
  {
    hide Everything, AddedCovers, Cache, Origin, Insert;
    FetchedOrigin(b, c, env, id);
  }

  lemma ReadsSame(b: Bar, p: seq<string>, c: Bar, id: string)
    requires Reads(b, p, c)
    requires IndexOf(c.rest, id) == |c.rest| && KindOf(id) == Ordinary && !(Known(b, id) && id !in p)
    ensures Reads(b, p + [id], c)
  {
    KeptNext(b, p, id);
    assert Kept(b, p) + [] == Kept(b, p);
    hide Kept, Names, Known;
    Strike(b.rest, multiset(p), id);
    RemoveFirstIs(c.rest, id);
  }

  lemma {:induction false} AllPlaced(b: Bar, env: Env, ids: seq<string>, p: seq<string>)
    requires Tidy(b, env, ids) && forall id :: id in p ==> id in ids
    ensures Placing(b, env, p, PlaceAll(b, env, Cache(b.palette), p))
  {
    var cache := Cache(b.palette);
    if p == [] {
      StartSound(b);
      NothingListed(b.rest);
      hide Distinct, Bounded;
    } else {
      var before, id := p[..|p| - 1], p[|p| - 1];
      assert id in p && forall y :: y in before ==> y in p;
      assert p == before + [id];
      AllPlaced(b, env, ids, before);
      var c := PlaceAll(b, env, cache, before);
      hide Placing, Tidy, PlaceId, Cache, Known;
      if IndexOf(c.rest, id) < |c.rest| {
        StepFound(b, env, before, c, ids, id);
      } else if KindOf(id) != Ordinary {
        StepNew(b, env, before, c, ids, id);
      } else if Known(b, id) && id !in before {
        StepFetched(b, env, before, c, ids, id);
      } else {
        StepNothing(b, env, before, c, ids, id);
      }
    }
  }

  lemma {:induction false} NothingListed(nodes: seq<Node>)
    ensures Unlisted(nodes, multiset{}) == nodes
  {
    if nodes != [] {
      NothingListed(nodes[1..]);
    }
  }

  /** Set, then get: the toolbar reads as the listed ids that show, then the fixed items that
      were not listed, in their old order. */
  lemma SetThenGet(b: Bar, env: Env, ids: seq<string>)
    requires Tidy(b, env, ids)
    ensures
      var c := Reconcile(b, env, ids);
      Names(c.placed + c.rest) == Expected(b, ids)
  {
    AllPlaced(b, env, ids, ids);
    var c := Reconcile(b, env, ids);
    NamesConcat(c.placed, c.rest);
  }

  // ---- a value that is already the current one ------------------------------------------------

  lemma {:induction false} NameFrom(nodes: seq<Node>, id: string) returns (n: Node)
    requires id in Names(nodes)
    ensures n in nodes && IdFromNode(n) == id && id != ""
  {
    if IdFromNode(nodes[0]) == id && id != "" {
      n := nodes[0];
    } else {
      n := NameFrom(nodes[1..], id);
    }
  }

  /** Ordinary names do not repeat. */
  ghost predicate Once(ids: seq<string>) {
    forall i, j :: 0 <= i < j < |ids| && ids[i] == ids[j] ==> KindOf(ids[i]) != Ordinary
  }

  lemma {:induction false} NamesOnce(nodes: seq<Node>)
    requires forall m, n :: m in nodes && n in nodes && Item(m) && Item(n) && m.id == n.id ==> m == n
    requires forall k :: KeysOf(nodes)[k] <= 1
    ensures Once(Names(nodes))
  {
    if nodes != [] {
      var head, rest := nodes[0], nodes[1..];
      HeadOnce(nodes);
      hide Item, KindOf, IdFromNode;
      forall k ensures KeysOf(rest)[k] <= 1 {
        assert KeysOf(nodes)[k] <= 1;
      }
      NamesOnce(rest);
      var name := IdFromNode(head);
      assert Names(nodes) == if name == "" then Names(rest) else [name] + Names(rest);
    }
  }

  lemma HeadOnce(nodes: seq<Node>)
    requires forall m, n :: m in nodes && n in nodes && Item(m) && Item(n) && m.id == n.id ==> m == n
    requires forall k :: KeysOf(nodes)[k] <= 1
    ensures nodes != [] && IdFromNode(nodes[0]) in Names(nodes[1..]) ==> KindOf(IdFromNode(nodes[0])) != Ordinary
  {
    if nodes != [] && IdFromNode(nodes[0]) in Names(nodes[1..]) && KindOf(IdFromNode(nodes[0])) == Ordinary {
      var name := IdFromNode(nodes[0]);
      var n := NameFrom(nodes[1..], name);
      assert n in nodes && KeysOf(nodes)[nodes[0].key] <= 1;
      KeyIn(nodes[1..], n);
      OneByName(nodes, nodes[0], n, name);
      assert false;
    }
  }

  lemma OneByName(nodes: seq<Node>, m: Node, n: Node, name: string)
    requires forall m, n :: m in nodes && n in nodes && Item(m) && Item(n) && m.id == n.id ==> m == n
    requires m in nodes && n in nodes && IdFromNode(m) == name && IdFromNode(n) == name
    requires name != "" && KindOf(name) == Ordinary
    ensures m == n
  {
  }

  lemma OnceBefore(before: seq<string>, id: string)
    requires Once(before + [id])
    ensures Once(before) && (KindOf(id) != Ordinary || id !in before)
  {
    hide KindOf;
    var ids := before + [id];
    assert forall i :: 0 <= i < |before| ==> ids[i] == before[i];
    assert ids[|before|] == id;
  }

  lemma {:induction false} KeptAll(b: Bar, ids: seq<string>)
    requires Once(ids) && forall id :: id in ids && KindOf(id) == Ordinary ==> Known(b, id)
    ensures Kept(b, ids) == ids
  {
    hide Known, KindOf, Once;
    if ids != [] {
      var before, id := ids[..|ids| - 1], ids[|ids| - 1];
      assert ids == before + [id];
      assert id in ids && forall y :: y in before ==> y in ids;
      OnceBefore(before, id);
      KeptAll(b, before);
    }
  }

  lemma {:induction false} AllClaimed(nodes: seq<Node>, ids: multiset<string>)
    requires multiset(Names(nodes)) <= ids && "" !in ids
    ensures Names(Unlisted(nodes, ids)) == []
    ensures forall n :: n in Unlisted(nodes, ids) ==> IdFromNode(n) == ""
  {
    if nodes != [] {
      var name, rest := IdFromNode(nodes[0]), nodes[1..];
      assert Names(nodes) == if name == "" then Names(rest) else [name] + Names(rest);
      if name != "" {
        assert name in multiset(Names(nodes));
        assert multiset(Names(nodes)) == multiset{name} + multiset(Names(rest));
        AllClaimed(rest, ids - multiset{name});
      } else {
        AllClaimed(rest, ids);
      }
    }
  }

  lemma {:induction false} Nameless(nodes: seq<Node>)
    requires forall n :: n in nodes ==> IdFromNode(n) == ""
    ensures Names(nodes) == []
  {
    if nodes != [] {
      Nameless(nodes[1..]);
    }
  }

  lemma NamesWritable(b: Bar, env: Env, ids: seq<string>)
    requires Tidy(b, env, ids)
    ensures forall id :: id in Names(b.rest) ==> Writable(id) && (KindOf(id) == Ordinary ==> Known(b, id))
  {
    hide NewStamps, ListsItems, Distinct, Bounded, Names, Writable;
    forall id | id in Names(b.rest) ensures Writable(id) && (KindOf(id) == Ordinary ==> Known(b, id)) {
      var n := NameFrom(b.rest, id);
      assert n in Everything(b);
      if n.kind != Ordinary {
        SpecialWritable(n.kind);
      }
    }
  }

  lemma SpecialWritable(kind: Kind)
    requires kind != Ordinary
    ensures Writable(KindName(kind))
  {
    var name := KindName(kind);
    forall i | 0 <= i < |name| ensures name[i] != ',' {
      assert 0 <= i < 9;
    }
  }

  lemma RestDistinct(b: Bar)
    requires Distinct(b)
    ensures forall k :: KeysOf(b.rest)[k] <= 1
  {
    forall k ensures KeysOf(b.rest)[k] <= 1 {
      assert Keys(b)[k] <= 1;
    }
  }

  /** Setting what is there already asks for what is there already. */
  lemma SetSame(b: Bar, env: Env, val: string)
    requires val == Render(Names(b.rest)) && Tidy(b, env, Parse(val))
    ensures Expected(b, Parse(val)) == Names(b.rest)
  {
    hide Known, Parse, Render, Kept, Unlisted, Filter;
    var names := Names(b.rest);
    NamesWritable(b, env, Parse(val));
    ParseRender(names);
    RestOnce(b, env, Parse(val));
    KeptAll(b, names);
    assert "" !in names;
    AllClaimed(b.rest, multiset(names));
    Nameless(Filter(Unlisted(b.rest, multiset(names)), false));
    assert names + [] == names;
  }

  lemma RestOnce(b: Bar, env: Env, ids: seq<string>)
    requires Tidy(b, env, ids)
    ensures Once(Names(b.rest))
  {
    hide NewStamps, ListsItems, Bounded, Names, Once;
    RestDistinct(b);
    NamesOnce(b.rest);
  }
}
