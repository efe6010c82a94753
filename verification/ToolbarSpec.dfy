/** Toolbar reconciliation: what setting the list of item ids does to the toolbar, the palette
    and the other toolbars of the toolbox. */
module ToolbarSpec {

  datatype Option<T> = None | Some(value: T)

  datatype Kind = Ordinary | Separator | Spring | Spacer

  /** An element. `key` is its identity; `id` is its attribute, and need not be unique. */
  datatype Node = Node(key: nat, id: string, kind: Kind, skip: bool, removable: bool)

  function KindName(kind: Kind): string
    requires kind != Ordinary
  {
    match kind
    case Separator => "separator"
    case Spring => "spring"
    case Spacer => "spacer"
  }

  function KindOf(id: string): (kind: Kind)
    ensures kind != Ordinary ==> KindName(kind) == id
    ensures kind == Ordinary ==> forall k :: k != Ordinary ==> KindName(k) != id
  {
    if id == "separator" then Separator
    else if id == "spring" then Spring
    else if id == "spacer" then Spacer
    else Ordinary
  }

  function IdFromNode(n: Node): string {
    if n.skip then ""
    else if n.kind != Ordinary then KindName(n.kind)
    else n.id
  }

  /** What does not change while an item is being placed. `foreign` are the ids that the document
      finds on an element which is not an item of this toolbox; `stamp(i)` is the time and counter
      put into the id of the i-th element ever created here. */
  datatype Env = Env(hasToolbox: bool, hasPalette: bool, foreign: set<string>, stamp: nat -> string)

  /** The toolbar, cut at the place where the next item goes, and the nodes elsewhere: the palette
      and the items of the toolbars before and after this one in the document. */
  datatype Bar = Bar(placed: seq<Node>, rest: seq<Node>, palette: seq<Node>,
                     earlier: seq<Node>, later: seq<Node>,
                     added: set<string>, made: nat, nextKey: nat)

  function Without(nodes: seq<Node>, key: nat): (r: seq<Node>)
    ensures forall n :: n in r <==> n in nodes && n.key != key
  {
    if nodes == [] then []
    else (if nodes[0].key == key then [] else [nodes[0]]) + Without(nodes[1..], key)
  }

  /** The first node that goes by `id`, or the length. */
  function IndexOf(nodes: seq<Node>, id: string): (i: nat)
    ensures i <= |nodes|
    ensures i < |nodes| ==> IdFromNode(nodes[i]) == id
    ensures forall j :: 0 <= j < i ==> IdFromNode(nodes[j]) != id
  {
    if nodes == [] || IdFromNode(nodes[0]) == id then 0 else 1 + IndexOf(nodes[1..], id)
  }

  /** The first node whose attribute is `id`. */
  function FirstWithId(nodes: seq<Node>, id: string): (n: Option<Node>)
    ensures n.Some? ==> n.value in nodes && n.value.id == id
    ensures n.None? ==> forall m :: m in nodes ==> m.id != id
  {
    if nodes == [] then None
    else if nodes[0].id == id then Some(nodes[0])
    else FirstWithId(nodes[1..], id)
  }

  /** The palette by id, as it is when the setting begins. */
  function Cache(palette: seq<Node>): (c: map<string, Node>)
    ensures forall id :: id in c ==> c[id] in palette && c[id].id == id
    ensures forall n :: n in palette ==> n.id in c
  {
    if palette == [] then map[]
    else
      var n := palette[|palette| - 1];
      Cache(palette[..|palette| - 1])[n.id := n]
  }

  function Fresh(b: Bar, env: Env, kind: Kind): Node
    requires kind != Ordinary
  {
    Node(b.nextKey, KindName(kind) + env.stamp(b.made + 1), kind, false, false)
  }

  function GetToolbarItem(b: Bar, env: Env, id: string): (Option<Node>, Bar) {
    if KindOf(id) != Ordinary then
      (Some(Fresh(b, env, KindOf(id))), b.(made := b.made + 1, nextKey := b.nextKey + 1))
    else if !env.hasToolbox then (None, b)
    else
      var item := if id == "" || id in env.foreign then None
                  else FirstWithId(b.earlier + (b.placed + b.rest) + b.later, id);
      if item.Some? then (item, b)
      else if env.hasPalette then (FirstWithId(b.palette, id), b)
      else (None, b)
  }

  /** `n` is taken from wherever it is and put at the cut. */
  function Insert(b: Bar, n: Node): Bar {
    b.(placed := b.placed + [n.(removable := true)],
       rest := Without(b.rest, n.key),
       palette := Without(b.palette, n.key),
       earlier := Without(b.earlier, n.key),
       later := Without(b.later, n.key),
       added := b.added + {n.id})
  }

  function PlaceId(b: Bar, env: Env, cache: map<string, Node>, id: string): Bar {
    var i := IndexOf(b.rest, id);
    if i < |b.rest| then
      b.(placed := b.placed + [b.rest[i]],
         rest := b.rest[..i] + b.rest[i + 1..],
         added := b.added + {b.rest[i].id})
    else
      var (item, b') := if id in cache then (Some(cache[id]), b) else GetToolbarItem(b, env, id);
      if item.Some? && item.value.id !in b'.added then Insert(b', item.value) else b'
  }

  function PlaceAll(b: Bar, env: Env, cache: map<string, Node>, ids: seq<string>): Bar {
    if ids == [] then b
    else PlaceId(PlaceAll(b, env, cache, ids[..|ids| - 1]), env, cache, ids[|ids| - 1])
  }

  /** A leftover node that is taken off the toolbar. */
  predicate Loose(n: Node) {
    IdFromNode(n) != "" && n.removable
  }

  function Filter(nodes: seq<Node>, loose: bool): (r: seq<Node>)
    ensures forall n :: n in r <==> n in nodes && Loose(n) == loose
  {
    if nodes == [] then []
    else (if Loose(nodes[0]) == loose then [nodes[0]] else []) + Filter(nodes[1..], loose)
  }

  function Reverse(nodes: seq<Node>): seq<Node> {
    if nodes == [] then [] else Reverse(nodes[1..]) + [nodes[0]]
  }

  /** The fixed leftovers stay behind what was placed, the loose ones go to the palette, last one
      first; without a palette they are dropped. */
  function Clear(b: Bar, env: Env): Bar {
    b.(rest := Filter(b.rest, false),
       palette := if env.hasPalette then b.palette + Reverse(Filter(b.rest, true)) else b.palette)
  }

  function Reconcile(b: Bar, env: Env, ids: seq<string>): Bar {
    Clear(PlaceAll(b, env, Cache(b.palette), ids), env)
  }

  /** The ids a toolbar is read as. */
  function Names(nodes: seq<Node>): (ids: seq<string>) {
    if nodes == [] then []
    else (if IdFromNode(nodes[0]) == "" then [] else [IdFromNode(nodes[0])]) + Names(nodes[1..])
  }
}
