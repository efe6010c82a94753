/** The toolbar element: its live list of children, the palette of its toolbox, and the items of
    the toolbars before and after it. */
module CustomizableToolbar {
  import opened ToolbarSpec
  import opened ToolbarNodes
  import opened ToolbarLaws
  import opened ToolbarReading
  import opened ToolbarOutcome
  import opened IdList

  class Toolbar {
    const hasToolbox: bool
    const hasPalette: bool
    var children: seq<Node>
    var palette: seq<Node>
    var earlier: seq<Node>
    var later: seq<Node>
    var foreign: set<string>
    var newElementCount: nat
    var nextKey: nat

    ghost function AsEnv(stamp: nat -> string): Env
      reads this
    {
      Env(hasToolbox, hasPalette, foreign, stamp)
    }

    ghost function At(nodeidx: nat, added: set<string>): Bar
      requires nodeidx <= |children|
      reads this
    {
      Bar(children[..nodeidx], children[nodeidx..], palette, earlier, later, added, newElementCount, nextKey)
    }

    /** An element is at one place only; there is no palette without a toolbox. */
    ghost predicate Valid()
      reads this
    {
      && Distinct(At(0, {})) && Bounded(At(0, {}))
      && (hasPalette ==> hasToolbox)
      && (hasPalette || palette == [])
      && (hasToolbox || earlier + later == [])
    }

    ghost function CurrentSet(): string
      reads this
    {
      Render(Names(children))
    }

    method GetCurrentSet() returns (val: string)
      ensures val == CurrentSet()
    {
      var currentSet: seq<string> := [];
      var i := 0;
      while i < |children|
        invariant i <= |children|
        invariant Names(children) == currentSet + Names(children[i..])
      {
        var id := IdFromNode(children[i]);
        assert children[i..][1..] == children[i + 1..];
        if id != "" {
          assert currentSet + ([id] + Names(children[i + 1..])) == (currentSet + [id]) + Names(children[i + 1..]);
          currentSet := currentSet + [id];
        }
        i := i + 1;
      }
      assert children[i..] == [] && currentSet + [] == currentSet;
      val := Join(currentSet);
      if val == "" {
        val := EMPTY;
      }
    }

    method GetItem(id: string, stamp: nat -> string, ghost nodeidx: nat, ghost added: set<string>)
      returns (item: Option<Node>)
      requires nodeidx <= |children|
      modifies this`newElementCount, this`nextKey
      ensures (item, At(nodeidx, added)) == GetToolbarItem(old(At(nodeidx, added)), AsEnv(stamp), id)
    {
      if id == "separator" || id == "spring" || id == "spacer" {
        newElementCount := newElementCount + 1;
        item := Some(Node(nextKey, id + stamp(newElementCount), KindOf(id), false, false));
        nextKey := nextKey + 1;
        return;
      }
      if !hasToolbox {
        return None;
      }
      assert children == children[..nodeidx] + children[nodeidx..];
      if id != "" && id !in foreign {
        item := FirstWithId(earlier + children + later, id);
        if item.Some? {
          return;
        }
      }
      if hasPalette {
        var i := 0;
        assert palette[0..] == palette;
        while i < |palette|
          invariant i <= |palette|
          invariant FirstWithId(palette, id) == FirstWithId(palette[i..], id)
        {
          if palette[i].id == id {
            return Some(palette[i]);
          }
          assert palette[i..][1..] == palette[i + 1..];
          i := i + 1;
        }
      }
      item := None;
    }

    /** The element moves: it leaves the list it is in and goes in front of what was at `at`. */
    method InsertBefore(n: Node, at: nat)
      requires at <= |children|
      modifies this`children, this`palette, this`earlier, this`later
      ensures children == Without(old(children)[..at], n.key) + [n] + Without(old(children)[at..], n.key)
      ensures palette == Without(old(palette), n.key)
      ensures earlier == Without(old(earlier), n.key) && later == Without(old(later), n.key)
    {
      children := Without(children[..at], n.key) + [n] + Without(children[at..], n.key);
      palette, earlier, later := Without(palette, n.key), Without(earlier, n.key), Without(later, n.key);
    }

    /** The index of the child from `nodeidx` on that goes by `id`. */
    method FindChild(id: string, nodeidx: nat) returns (i: nat)
      requires nodeidx <= |children|
      ensures i == nodeidx + IndexOf(children[nodeidx..], id)
    {
      i := nodeidx;
      while i < |children|
        invariant nodeidx <= i <= |children|
        invariant nodeidx + IndexOf(children[nodeidx..], id) == i + IndexOf(children[i..], id)
      {
        if IdFromNode(children[i]) == id {
          return;
        }
        assert children[i..][1..] == children[i + 1..];
        i := i + 1;
      }
    }

    method CachePalette() returns (paletteItems: map<string, Node>)
      ensures paletteItems == Cache(palette)
    {
      paletteItems := map[];
      for i := 0 to |palette|
        invariant paletteItems == Cache(palette[..i])
      {
        assert palette[..i + 1][..i] == palette[..i];
        paletteItems := paletteItems[palette[i].id := palette[i]];
      }
      assert palette[..|palette|] == palette;
    }

    /** A child found at `i` is put at the cut. */
    method MoveChild(i: nat, nodeidx: nat, added: set<string>) returns (added': set<string>)
      requires nodeidx <= i < |children| && Distinct(At(nodeidx, added))
      modifies this`children, this`palette, this`earlier, this`later
      ensures nodeidx < |children|
      ensures var b := old(At(nodeidx, added));
        At(nodeidx + 1, added') ==
        b.(placed := b.placed + [b.rest[i - nodeidx]],
           rest := b.rest[..i - nodeidx] + b.rest[i - nodeidx + 1..],
           added := b.added + {b.rest[i - nodeidx].id})
    {
      hide Without, Distinct;
      ghost var b := At(nodeidx, added);
      var curNode := children[i];
      MoveFound(b, i - nodeidx);
      if i != nodeidx {
        InsertBefore(curNode, nodeidx);
      }
      added' := added + {curNode.id};
      assert children[..nodeidx + 1] == b.placed + [curNode];
      assert children[nodeidx + 1..] == b.rest[..i - nodeidx] + b.rest[i - nodeidx + 1..];
    }

    /** A node that is not among those placed is put at the cut and made removable. */
    method AddNode(n: Node, nodeidx: nat, added: set<string>) returns (added': set<string>)
      requires nodeidx <= |children| && n.key !in KeysOf(children[..nodeidx])
      modifies this`children, this`palette, this`earlier, this`later
      ensures nodeidx < |children|
      ensures At(nodeidx + 1, added') == Insert(old(At(nodeidx, added)), n)
    {
      ghost var b := At(nodeidx, added);
      WithoutNone(b.placed, n.key);
      hide Without, KeysOf;
      added' := added + {n.id};
      InsertBefore(n, nodeidx);
      children := children[nodeidx := n.(removable := true)];
      assert children[..nodeidx + 1] == b.placed + [n.(removable := true)];
      assert children[nodeidx + 1..] == Without(b.rest, n.key);
    }

    /** One id of the list: the child that goes by it is moved to the cut, or an item is fetched. */
    method PlaceItem(id: string, paletteItems: map<string, Node>, stamp: nat -> string, nodeidx: nat, added: set<string>)
      returns (nodeidx': nat, added': set<string>)
      requires nodeidx <= |children| && Sound(At(nodeidx, added), paletteItems)
      modifies this`children, this`palette, this`earlier, this`later, this`newElementCount, this`nextKey
      ensures nodeidx' <= |children|
      ensures At(nodeidx', added') == PlaceId(old(At(nodeidx, added)), AsEnv(stamp), paletteItems, id)
    {
      hide Insert, IndexOf, GetToolbarItem, AddedCovers, CacheLive, Bounded, Distinct, KeysOf;
      ghost var b := At(nodeidx, added);
      nodeidx', added' := nodeidx, added;
      var i := FindChild(id, nodeidx);
      if i < |children| {
        added' := MoveChild(i, nodeidx, added);
        nodeidx' := nodeidx + 1;
        return;
      }

      var nodeToAdd: Option<Node>;
      if id in paletteItems {
        nodeToAdd := Some(paletteItems[id]);
      } else {
        nodeToAdd := GetItem(id, stamp, nodeidx, added);
      }
      if nodeToAdd.Some? && nodeToAdd.value.id !in added {
        Fetched(b, AsEnv(stamp), paletteItems, id);
        added' := AddNode(nodeToAdd.value, nodeidx, added);
        nodeidx' := nodeidx + 1;
      }
    }

    /** The leftovers, from the last one back to the cut. */
    method ClearLeftovers(nodeidx: nat)
      requires nodeidx <= |children|
      modifies this`children, this`palette
      ensures children == old(children[..nodeidx]) + Filter(old(children[nodeidx..]), false)
      ensures palette == if hasPalette then old(palette) + Reverse(Filter(old(children[nodeidx..]), true))
                         else old(palette)
    {
      hide Filter, Reverse, Loose, IdFromNode;
      ghost var was, rest, pal := children, children[nodeidx..], palette;
      ghost var kept: seq<Node>, gone: seq<Node> := [], [];
      var i := |children|;
      LeftoversNone(was, nodeidx, pal);
      while i > nodeidx
        invariant nodeidx <= i <= |was| && children == was[..i] + kept
        invariant kept == Filter(rest[i - nodeidx..], false)
        invariant gone == Reverse(Filter(rest[i - nodeidx..], true))
        invariant palette == if hasPalette then pal + gone else pal
      {
        i := i - 1;
        FilterStep(rest, i - nodeidx);
        LeftoverAt(was, i, kept, pal, gone);
        var curNode := children[i];
        var curNodeId := IdFromNode(curNode);
        if curNodeId != "" && curNode.removable {
          if hasPalette {
            palette := palette + [curNode];
          }
          children := children[..i] + children[i + 1..];
          gone := gone + [curNode];
        } else {
          kept := [curNode] + kept;
        }
      }
      assert rest[0..] == rest;
    }

    static lemma LeftoversNone(was: seq<Node>, nodeidx: nat, pal: seq<Node>)
      requires nodeidx <= |was|
      ensures was == was[..|was|] + [] && pal + [] == pal
      ensures Filter(was[nodeidx..][|was| - nodeidx..], false) == []
      ensures Reverse(Filter(was[nodeidx..][|was| - nodeidx..], true)) == []
    {
    }

    static lemma LeftoverAt(was: seq<Node>, i: nat, kept: seq<Node>, pal: seq<Node>, gone: seq<Node>)
      requires i < |was|
      ensures var c := was[..i + 1] + kept;
        && c[i] == was[i]
        && c[..i] + c[i + 1..] == was[..i] + kept
        && c == was[..i] + ([c[i]] + kept)
      ensures pal + (gone + [was[i]]) == pal + gone + [was[i]]
      ensures Loose(was[i]) <==> IdFromNode(was[i]) != "" && was[i].removable
    {
    }

    static lemma FilterStep(rest: seq<Node>, j: nat)
      requires j < |rest|
      ensures Loose(rest[j]) ==>
        && Filter(rest[j..], false) == Filter(rest[j + 1..], false)
        && Reverse(Filter(rest[j..], true)) == Reverse(Filter(rest[j + 1..], true)) + [rest[j]]
      ensures !Loose(rest[j]) ==>
        && Filter(rest[j..], false) == [rest[j]] + Filter(rest[j + 1..], false)
        && Filter(rest[j..], true) == Filter(rest[j + 1..], true)
    {
      assert rest[j..] == [rest[j]] + rest[j + 1..];
      var f := Filter(rest[j + 1..], true);
      assert Loose(rest[j]) ==> Filter(rest[j..], true) == [rest[j]] + f;
    }

    /** Setting the list, as the source does it. */
    method Reconciled(val: string, stamp: nat -> string)
      requires Valid()
      modifies this
      ensures foreign == old(foreign)
      ensures
        var b := Reconcile(old(At(0, {})), AsEnv(stamp), Parse(val));
        && children == b.placed + b.rest && palette == b.palette
        && earlier == b.earlier && later == b.later
        && newElementCount == b.made && nextKey == b.nextKey
    {
      hide Distinct, Bounded, CacheLive, PlaceId, Cache, Split, Names;
      var paletteItems := CachePalette();
      StartSound(At(0, {}));
      var ids := Parse(val);
      var nodeidx: nat, added: set<string> := 0, {};
      ghost var b, env := At(0, {}), AsEnv(stamp);
      for j := 0 to |ids|
        invariant nodeidx <= |children| && AsEnv(stamp) == env
        invariant Sound(At(nodeidx, added), paletteItems)
        invariant At(nodeidx, added) == PlaceAll(b, env, paletteItems, ids[..j])
      {
        assert ids[..j + 1][..j] == ids[..j];
        PlaceIdSound(At(nodeidx, added), env, paletteItems, ids[j]);
        nodeidx, added := PlaceItem(ids[j], paletteItems, stamp, nodeidx, added);
      }
      assert ids[..|ids|] == ids;
      ClearLeftovers(nodeidx);
    }

    /** The setter. What the source does is the first two clauses; the others are what it is for:
        no node is lost, fixed items stay, and the toolbar reads as it was set. */
    method SetCurrentSet(val: string, stamp: nat -> string)
      requires Valid()
      modifies this
      ensures Valid() && foreign == old(foreign)
      ensures val == old(CurrentSet()) ==>
        children == old(children) && palette == old(palette) && earlier == old(earlier) && later == old(later)
      ensures val != old(CurrentSet()) ==>
        var b := Reconcile(old(At(0, {})), AsEnv(stamp), Parse(val));
        children == b.placed + b.rest && palette == b.palette && earlier == b.earlier && later == b.later
      ensures AllOrigins(old(At(0, {})), AsEnv(stamp), At(0, {}))
      ensures forall n :: n in children ==> Attribute(old(At(0, {})), Parse(val), n)
      ensures forall n :: n in palette + earlier + later ==> n in old(Everything(At(0, {})))
      ensures hasPalette ==> Conserved(old(At(0, {})), At(0, {}))
      ensures hasPalette ==>
        forall m :: m in old(Everything(At(0, {}))) ==> exists n :: n in Everything(At(0, {})) && Same(m, n)
      ensures forall n :: n in old(children) && (IdFromNode(n) == "" || !n.removable) ==> n.key in KeysOf(children)
      ensures Tidy(old(At(0, {})), AsEnv(stamp), Parse(val)) ==>
        CurrentSet() == Render(Expected(old(At(0, {})), Parse(val)))
    {
      hide Distinct, Bounded, CacheLive, Reconcile, Tidy, Conserved, AllOrigins, Everything, Attribute, Expected, Names, Render, Parse, KeysOf, Keys;
      ghost var b, env := At(0, {}), AsEnv(stamp);
      var current := GetCurrentSet();
      if val == current {
        NothingMoved(b, env);
        NodesKept(b, env, b);
        AttributesKept(b, Parse(val));
        forall n | n in children ensures n.key in KeysOf(children) {
          KeyIn(children, n);
        }
        if Tidy(b, env, Parse(val)) {
          SetSame(b, env, val);
        }
        return;
      }
      Reconciled(val, stamp);
      ghost var c := Reconcile(b, env, Parse(val));
      RemovableAfter(b, env, Parse(val));
      SettledState(b, c, At(0, {}), env, Parse(val));
      if hasPalette {
        NodesKept(b, env, At(0, {}));
      }
      forall n | n in b.rest && (IdFromNode(n) == "" || !n.removable) ensures n.key in KeysOf(children) {
        FixedItemsStay(b, env, Parse(val), n);
      }
      if Tidy(b, env, Parse(val)) {
        SetThenGet(b, env, Parse(val));
      }
    }

    static lemma NothingMoved(b: Bar, env: Env)
      requires Distinct(b) && Bounded(b)
      ensures Conserved(b, b) && AllOrigins(b, env, b)
    {
      hide StampedId, Everything;
      assert forall n :: n in Everything(b) ==> Same(n, n);
    }

    static lemma AttributesKept(b: Bar, ids: seq<string>)
      ensures forall n :: n in b.rest ==> Attribute(b, ids, n)
      ensures forall n :: n in b.palette + b.earlier + b.later ==> n in Everything(b)
    {
      forall n | n in b.rest ensures Attribute(b, ids, n) {
        ChildAttribute(b, ids, n);
      }
    }

    /** The state after setting, cut at 0 again. */
    static lemma SettledState(b: Bar, c: Bar, d: Bar, env: Env, ids: seq<string>)
      requires b.placed == [] && Distinct(b) && Bounded(b) && c == Reconcile(b, env, ids)
      requires d.placed == [] && d.rest == c.placed + c.rest && d.palette == c.palette
      requires d.earlier == c.earlier && d.later == c.later && d.nextKey == c.nextKey && d.made == c.made
      ensures AllOrigins(b, env, d)
      ensures Distinct(d) && Bounded(d) && (env.hasPalette ==> Conserved(b, d))
      ensures b.palette == [] && !env.hasPalette ==> d.palette == []
      ensures b.earlier + b.later == [] ==> d.earlier + d.later == []
    {
      StillEmpty(b, env, ids);
      Conservation(b, env, ids);
      SameKeys(c, d);
      ReconcileOrigins(b, env, ids);
      SameOrigins(b, env, c, d);
      hide Reconcile, Keys, PlaceAll, Dropped;
    }

    static lemma SameOrigins(b: Bar, env: Env, c: Bar, d: Bar)
      requires AllOrigins(b, env, c) && d.made == c.made
      requires d.placed == [] && d.rest == c.placed + c.rest && d.palette == c.palette
      requires d.earlier == c.earlier && d.later == c.later
      ensures AllOrigins(b, env, d)
    {
      hide Origin;
      assert forall n :: n in Everything(d) ==> n in Everything(c);
    }

    static lemma SameKeys(c: Bar, d: Bar)
      requires d.placed == [] && d.rest == c.placed + c.rest && d.palette == c.palette
      requires d.earlier == c.earlier && d.later == c.later
      ensures Keys(d) == Keys(c)
    {
      KeysConcat(c.placed, c.rest);
    }
  }
}
