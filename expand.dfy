/**
 * The template inheritance resolver (stilts-macros/src/expand.rs): loading
 * an `extends` chain, registering blocks, and flattening the chain into a
 * sequence of output fragments with `block` overrides and `super()`.
 */
module Expand {
  import opened Wrappers
  import opened Unicode
  import opened Types

  // ---------------------------------------------------------------------
  // Nodes and loading

  /** What parsing a template's text gave. */
  datatype Parsed = Parsed(root: Root) | Malformed(message: string)

  /** Where the requested template comes from: a file, or literal text. */
  datatype TemplateSource = File(path: string) | Literal(parsed: Parsed)

  /** The template files that can be read, already parsed; a missing name fails to read. */
  type Loader = map<string, Parsed>

  /** `TemplateNode`: the path (none for a literal), the owned root, and its block registry. */
  datatype TemplateNode = TemplateNode(path: Option<string>, root: Root, blocks: map<string, ItemBlock>, trimOverride: Option<bool>)

  datatype LoadError = ReadFailed(path: string) | ParseFailed(message: string) | CycleDetected(message: string)

  /** `get_parent`: the template named by an `extends` that is the very first item, if any. */
  function GetParent(root: Root): (p: Option<string>)
    ensures p.Some? <==> |root.content| > 0 && root.content[0].ExprItem? && root.content[0].expr.Extends?
    ensures p.Some? ==> p.value == root.content[0].expr.reference.text
  {
    if |root.content| > 0 && root.content[0].ExprItem? && root.content[0].expr.Extends?
    then Some(root.content[0].expr.reference.text)
    else None
  }

  /** An `extends` after the first item does not name a parent. */
  lemma GetParentOnlyFirst(first: Item, rest: seq<Item>, name: string)
    requires !(first.ExprItem? && first.expr.Extends?)
    ensures GetParent(Root([first] + rest + [ExprItem(Extends(Borrowed(name)))])) == None
  {
  }

  /**
   * `get_blocks`: each top-level `Block` with, recursively, the blocks
   * directly inside its body. A block's own entry replaces a nested entry
   * of the same name, and later top-level blocks replace earlier ones.
   */
  function GetBlocks(items: seq<Item>): map<string, ItemBlock>
    decreases items, 0
  {
    if items == [] then map[] else BlockEntries(items[0]) + GetBlocks(items[1..])
  }

  /** The entries one item contributes to the registry. */
  function BlockEntries(item: Item): (m: map<string, ItemBlock>)
    ensures item.Block? ==> item.block.name.text in m && m[item.block.name.text] == item.block
    ensures !item.Block? ==> m == map[]
    decreases item, 1
  {
    match item
    case Block(b) => GetBlocks(b.content)[b.name.text := b]
    case _ => map[]
  }

  /** The registry of a concatenation: the later part wins. */
  lemma {:induction false} GetBlocksAppend(a: seq<Item>, b: seq<Item>)
    ensures GetBlocks(a + b) == GetBlocks(a) + GetBlocks(b)
  {
    if a == [] {
      assert a + b == b;
    } else {
      assert (a + b)[0] == a[0] && (a + b)[1..] == a[1..] + b;
      GetBlocksAppend(a[1..], b);
      UnionAssociative(BlockEntries(a[0]), GetBlocks(a[1..]), GetBlocks(b));
    }
  }

  /** Map union, where the right operand wins, is associative. */
  lemma UnionAssociative(x: map<string, ItemBlock>, y: map<string, ItemBlock>, z: map<string, ItemBlock>)
    ensures (x + y) + z == x + (y + z)
  {
  }

  /**
   * Every top-level block's name is registered, though the entry may be a
   * later block of the same name.
   */
  lemma {:induction false} GetBlocksRegistersTopLevel(items: seq<Item>, i: nat)
    requires i < |items| && items[i].Block?
    ensures items[i].block.name.text in GetBlocks(items)
  {
    if i == 0 {
    } else {
      GetBlocksRegistersTopLevel(items[1..], i - 1);
    }
  }

  /** The entry for a name is the last top-level block of that name, when there is one. */
  lemma {:induction false} GetBlocksLastWins(items: seq<Item>, i: nat)
    requires i < |items| && items[i].Block?
    requires forall j :: i < j < |items| ==> items[i].block.name.text !in BlockEntries(items[j])
    ensures items[i].block.name.text in GetBlocks(items)
    ensures GetBlocks(items)[items[i].block.name.text] == items[i].block
  {
    var n := items[i].block.name.text;
    if i == 0 {
      forall j | 0 <= j < |items[1..]| ensures n !in BlockEntries(items[1..][j]) {
        assert items[1..][j] == items[j + 1];
      }
      NotInLaterEntries(items[1..], n);
    } else {
      forall j | i - 1 < j < |items[1..]| ensures n !in BlockEntries(items[1..][j]) {
        assert items[1..][j] == items[j + 1];
      }
      GetBlocksLastWins(items[1..], i - 1);
    }
  }

  /** A name no item contributes is not registered. */
  lemma {:induction false} NotInLaterEntries(items: seq<Item>, n: string)
    requires forall j :: 0 <= j < |items| ==> n !in BlockEntries(items[j])
    ensures n !in GetBlocks(items)
  {
    if items != [] {
      forall j | 0 <= j < |items[1..]| ensures n !in BlockEntries(items[1..][j]) {
        assert items[1..][j] == items[j + 1];
      }
      NotInLaterEntries(items[1..], n);
    }
  }

  /** Whatever one item contributes is in the registry of a list holding it. */
  lemma {:induction false} EntriesRegistered(items: seq<Item>, j: nat)
    requires j < |items|
    ensures BlockEntries(items[j]).Keys <= GetBlocks(items).Keys
  {
    if j > 0 {
      assert items[1..][j - 1] == items[j];
      EntriesRegistered(items[1..], j - 1);
    }
  }

  /**
   * A block's registry holds its own name and everything its body
   * registers; so every block directly in its body is registered, and by
   * repeating this, every block reached through block bodies at any depth.
   */
  lemma NestedBlockRegistered(item: Item, j: nat)
    requires item.Block? && j < |item.block.content|
    ensures BlockEntries(item).Keys == GetBlocks(item.block.content).Keys + {item.block.name.text}
    ensures BlockEntries(item.block.content[j]).Keys <= BlockEntries(item).Keys
    ensures item.block.content[j].Block? ==> item.block.content[j].block.name.text in BlockEntries(item)
  {
    EntriesRegistered(item.block.content, j);
  }

  /** A block nested two levels deep in a top-level block is in the template's registry. */
  lemma NestedTwoDeepRegistered(items: seq<Item>, i: nat, j: nat, k: nat)
    requires i < |items| && items[i].Block?
    requires j < |items[i].block.content| && items[i].block.content[j].Block?
    requires k < |items[i].block.content[j].block.content| && items[i].block.content[j].block.content[k].Block?
    ensures items[i].block.content[j].block.content[k].block.name.text in GetBlocks(items)
  {
    NestedBlockRegistered(items[i].block.content[j], k);
    NestedBlockRegistered(items[i], j);
    EntriesRegistered(items, i);
  }

  /** A block under a `for` loop is not registered. */
  lemma BlockUnderForNotRegistered(f: ItemFor, name: string)
    requires f.content == [Block(ItemBlock(Owned(name), []))]
    ensures GetBlocks([For(f)]) == map[]
  {
  }

  /** The names already in the chain, in loading order. */
  function Paths(graph: seq<TemplateNode>): set<string>
  {
    set i | 0 <= i < |graph| && graph[i].path.Some? :: graph[i].path.value
  }

  /** The `" -> "`-joined list of the chain's paths, each followed by the separator. */
  function PathList(graph: seq<TemplateNode>): string
  {
    if graph == [] then ""
    else PathList(graph[..|graph| - 1])
         + (if graph[|graph| - 1].path.Some? then graph[|graph| - 1].path.value + " -> " else "")
  }

  /** `check_dependency_cycle`'s message: the fixed prefix, the chain, then the repeated path. */
  function CycleMessage(graph: seq<TemplateNode>, path: string): (m: string)
    ensures |m| >= |CyclePrefix| + |path| && m[..|CyclePrefix|] == CyclePrefix && m[|m| - |path|..] == path
  {
    CyclePrefix + PathList(graph) + path
  }

  const CyclePrefix: string := "dependency cycle detected: "

  /** A node as `load` builds it: owned root, its registry, the requested trim override. */
  function MakeNode(path: Option<string>, root: Root, trim: Option<bool>): (n: TemplateNode)
    ensures n.path == path && n.trimOverride == trim
    ensures n.root == RootIntoOwned(root) && n.blocks == GetBlocks(n.root.content)
  {
    var owned := RootIntoOwned(root);
    TemplateNode(path, owned, GetBlocks(owned.content), trim)
  }

  /** Each node after the first was loaded as the `extends` target of the one before. */
  predicate Linked(graph: seq<TemplateNode>)
  {
    forall i :: 0 < i < |graph| ==> LoadedAsParent(graph, i)
  }

  /** Node `i` has a path and is what node `i - 1` extends. */
  predicate LoadedAsParent(graph: seq<TemplateNode>, i: nat)
    requires 0 < i < |graph|
  {
    graph[i].path.Some? && GetParent(graph[i - 1].root) == graph[i].path
  }

  /** Node `i - 1` has a path and is what node `i` extends. */
  predicate ExtendsPrevious(graph: seq<TemplateNode>, i: nat)
    requires 0 < i < |graph|
  {
    graph[i - 1].path.Some? && GetParent(graph[i].root) == graph[i - 1].path
  }

  /** No path occurs twice. */
  predicate DistinctPaths(graph: seq<TemplateNode>)
  {
    forall i, j :: 0 <= i < |graph| && 0 <= j < |graph| && i != j && graph[i].path.Some? ==> graph[i].path != graph[j].path
  }

  /**
   * Every node is built by `MakeNode` with the same trim override, and a
   * node with a path holds the owned copy of the template read from it.
   */
  predicate WellBuilt(graph: seq<TemplateNode>, loader: Loader, trim: Option<bool>)
  {
    forall i :: 0 <= i < |graph| ==>
      && graph[i].trimOverride == trim && graph[i].blocks == GetBlocks(graph[i].root.content)
      && (graph[i].path.Some? ==> ReadFrom(graph[i], loader))
  }

  /** The node's root is the owned copy of what its path reads as. */
  predicate ReadFrom(node: TemplateNode, loader: Loader)
    requires node.path.Some?
  {
    node.path.value in loader && loader[node.path.value].Parsed?
    && node.root == RootIntoOwned(loader[node.path.value].root)
  }

  lemma PathsAppend(graph: seq<TemplateNode>, n: TemplateNode)
    requires n.path.Some?
    ensures Paths(graph + [n]) == Paths(graph) + {n.path.value}
  {
    var g := graph + [n];
    forall p | p in Paths(g) ensures p in Paths(graph) + {n.path.value} {
      var i :| 0 <= i < |g| && g[i].path.Some? && g[i].path.value == p;
      if i < |graph| {
        assert graph[i] == g[i];
      }
    }
    forall p | p in Paths(graph) ensures p in Paths(g) {
      var i :| 0 <= i < |graph| && graph[i].path.Some? && graph[i].path.value == p;
      assert g[i] == graph[i];
    }
    assert g[|graph|] == n;
  }

  /** The chain invariant `load` keeps. */
  predicate Sound(graph: seq<TemplateNode>, loader: Loader, trim: Option<bool>)
  {
    Linked(graph) && DistinctPaths(graph) && WellBuilt(graph, loader, trim)
  }

  /** Pushing a freshly loaded parent keeps the chain linked, distinct and well built. */
  lemma AppendNode(graph: seq<TemplateNode>, node: TemplateNode, loader: Loader, trim: Option<bool>)
    requires |graph| > 0 && Sound(graph, loader, trim)
    requires node.path.Some? && GetParent(graph[|graph| - 1].root) == node.path && node.path.value !in Paths(graph)
    requires node.trimOverride == trim && node.blocks == GetBlocks(node.root.content) && ReadFrom(node, loader)
    ensures Sound(graph + [node], loader, trim)
    ensures Paths(graph + [node]) == Paths(graph) + {node.path.value}
  {
    PathsAppend(graph, node);
    var g := graph + [node];
    forall i | 0 < i < |g| ensures LoadedAsParent(g, i) {
      if i < |graph| {
        assert LoadedAsParent(graph, i);
      }
    }
    forall i, j | 0 <= i < |g| && 0 <= j < |g| && i != j && g[i].path.Some? ensures g[i].path != g[j].path {
      if j == |graph| {
        assert g[i].path.value in Paths(graph);
      } else if i == |graph| {
        if g[j].path.Some? {
          assert g[j].path.value in Paths(graph);
        }
      }
    }
  }

  /**
   * The `while let Some(p) = parent` loop of `load`: read the parent,
   * reject a path already loaded, parse it and push it, until a template
   * has no `extends`. The result is in loading order (requested first).
   */
  function Climb(loader: Loader, parent: Option<string>, graph: seq<TemplateNode>, trim: Option<bool>): Result<seq<TemplateNode>, LoadError>
    decreases |loader.Keys - Paths(graph)|
  {
    match parent
    case None => Ok(graph)
    case Some(p) =>
      if p !in loader then Err(ReadFailed(p))
      else if p in Paths(graph) then Err(CycleDetected(CycleMessage(graph, p)))
      else match loader[p]
        case Malformed(m) => Err(ParseFailed(m))
        case Parsed(root) =>
          var node := MakeNode(Some(p), root, trim);
          PathsAppend(graph, node);
          Unvisited(loader.Keys, Paths(graph), p);
          Climb(loader, GetParent(node.root), graph + [node], trim)
  }

  /** Loading one more path leaves fewer readable paths unvisited. */
  lemma Unvisited(keys: set<string>, paths: set<string>, p: string)
    requires p in keys && p !in paths
    ensures |keys - (paths + {p})| < |keys - paths|
  {
    assert keys - paths == (keys - (paths + {p})) + {p};
  }

  /** One turn of the climb: a readable, new, well-formed parent is pushed. */
  lemma ClimbStep(loader: Loader, p: string, graph: seq<TemplateNode>, trim: Option<bool>)
    requires p in loader && p !in Paths(graph) && loader[p].Parsed?
    ensures var node := MakeNode(Some(p), loader[p].root, trim);
      Climb(loader, Some(p), graph, trim) == Climb(loader, GetParent(node.root), graph + [node], trim)
  {
  }

  /** The last node of the chain has no `extends`. */
  predicate EndsAtRoot(graph: seq<TemplateNode>)
  {
    |graph| > 0 && GetParent(graph[|graph| - 1].root).None?
  }

  /** A successful climb ends at a template with no `extends`. */
  lemma {:induction false} ClimbEnds(loader: Loader, parent: Option<string>, graph: seq<TemplateNode>, trim: Option<bool>)
    requires |graph| > 0 && parent == GetParent(graph[|graph| - 1].root)
    ensures var r := Climb(loader, parent, graph, trim);
      r.Ok? ==> EndsAtRoot(r.value)
    decreases |loader.Keys - Paths(graph)|
  {
    if parent.Some? && parent.value in loader && parent.value !in Paths(graph) && loader[parent.value].Parsed? {
      var p := parent.value;
      var node := MakeNode(Some(p), loader[p].root, trim);
      var g := graph + [node];
      PathsAppend(graph, node);
      Unvisited(loader.Keys, Paths(graph), p);
      ClimbEnds(loader, GetParent(node.root), g, trim);
      ClimbStep(loader, p, graph, trim);
    } else if parent.None? {
      assert Climb(loader, parent, graph, trim) == Ok(graph);
    } else {
      assert Climb(loader, parent, graph, trim).Err?;
    }
  }

  /** A successful climb keeps the chain linked, free of repeated paths and well built. */
  lemma {:induction false} ClimbSound(loader: Loader, parent: Option<string>, graph: seq<TemplateNode>, trim: Option<bool>)
    requires |graph| > 0 && parent == GetParent(graph[|graph| - 1].root) && Sound(graph, loader, trim)
    ensures var r := Climb(loader, parent, graph, trim);
      r.Ok? ==> Sound(r.value, loader, trim)
    decreases |loader.Keys - Paths(graph)|
  {
    if parent.Some? && parent.value in loader && parent.value !in Paths(graph) && loader[parent.value].Parsed? {
      var p := parent.value;
      var node := MakeNode(Some(p), loader[p].root, trim);
      var g := graph + [node];
      AppendNode(graph, node, loader, trim);
      Unvisited(loader.Keys, Paths(graph), p);
      assert g[|g| - 1] == node;
      ClimbSound(loader, GetParent(node.root), g, trim);
      ClimbStep(loader, p, graph, trim);
    }
  }

  /** A successful climb only pushes: the chain it started from is a prefix of the result. */
  lemma {:induction false} ClimbPrefix(loader: Loader, parent: Option<string>, graph: seq<TemplateNode>, trim: Option<bool>)
    ensures var r := Climb(loader, parent, graph, trim);
      r.Ok? ==> graph <= r.value
    decreases |loader.Keys - Paths(graph)|
  {
    if parent.Some? && parent.value in loader && parent.value !in Paths(graph) && loader[parent.value].Parsed? {
      var p := parent.value;
      var node := MakeNode(Some(p), loader[p].root, trim);
      var g := graph + [node];
      PathsAppend(graph, node);
      Unvisited(loader.Keys, Paths(graph), p);
      ClimbPrefix(loader, GetParent(node.root), g, trim);
      ClimbStep(loader, p, graph, trim);
      assert graph <= g;
    }
  }

  /** Read and parse the requested template. */
  function LoadFirst(loader: Loader, source: TemplateSource, trim: Option<bool>): (r: Result<TemplateNode, LoadError>)
    ensures r.Ok? ==> r.value.trimOverride == trim && r.value.blocks == GetBlocks(r.value.root.content)
    ensures r.Ok? ==> r.value.path == (if source.File? then Some(source.path) else None)
    ensures r.Ok? && source.File? ==> ReadFrom(r.value, loader)
    ensures r.Ok? && source.Literal? ==> source.parsed.Parsed? && r.value.root == RootIntoOwned(source.parsed.root)
  {
    var parsed: Option<Parsed> := match source
      case File(p) => if p in loader then Some(loader[p]) else None
      case Literal(q) => Some(q);
    match parsed
    case None => Err(ReadFailed(source.path))
    case Some(Malformed(m)) => Err(ParseFailed(m))
    case Some(Parsed(root)) => Ok(MakeNode(if source.File? then Some(source.path) else None, root, trim))
  }

  function Reverse<T>(s: seq<T>): (r: seq<T>)
    ensures |r| == |s| && forall i :: 0 <= i < |s| ==> r[i] == s[|s| - 1 - i]
  {
    if s == [] then [] else Reverse(s[1..]) + [s[0]]
  }

  /** `Graph::load`: the chain from the root ancestor (index 0) to the requested template. */
  function LoadSpec(loader: Loader, source: TemplateSource, trim: Option<bool>): Result<seq<TemplateNode>, LoadError>
  {
    match LoadFirst(loader, source, trim)
    case Err(e) => Err(e)
    case Ok(first) =>
      match Climb(loader, GetParent(first.root), [first], trim)
      case Err(e) => Err(e)
      case Ok(chain) => Ok(Reverse(chain))
  }

  /** `Graph::load`, with its loop, proved to compute `LoadSpec`. */
  method Load(loader: Loader, source: TemplateSource, trim: Option<bool>) returns (r: Result<seq<TemplateNode>, LoadError>)
    ensures r == LoadSpec(loader, source, trim)
  {
    var first := LoadFirst(loader, source, trim);
    if first.Err? {
      return Err(first.error);
    }
    var graph := [first.value];
    var parent := GetParent(first.value.root);
    while parent.Some?
      invariant Climb(loader, parent, graph, trim) == Climb(loader, GetParent(first.value.root), [first.value], trim)
      decreases |loader.Keys - Paths(graph)|
    {
      var p := parent.value;
      if p !in loader {
        return Err(ReadFailed(p));
      }
      if p in Paths(graph) {
        return Err(CycleDetected(CycleMessage(graph, p)));
      }
      match loader[p]
      case Malformed(m) =>
        return Err(ParseFailed(m));
      case Parsed(root) =>
        var node := MakeNode(Some(p), root, trim);
        PathsAppend(graph, node);
        Unvisited(loader.Keys, Paths(graph), p);
        ClimbStep(loader, p, graph, trim);
        var g := graph + [node];
        parent := GetParent(node.root);
        graph := g;
    }
    r := Ok(Reverse(graph));
  }

  /**
   * The shape of a loaded chain: the last node is the requested template,
   * index 0 has no `extends`, each node is the `extends` target of the
   * next, no path repeats, and each node carries its own registry.
   */
  lemma LoadedChainShape(loader: Loader, source: TemplateSource, trim: Option<bool>)
    ensures var r := LoadSpec(loader, source, trim);
      r.Ok? ==> (|r.value| >= 1
                 && r.value[|r.value| - 1] == LoadFirst(loader, source, trim).value
                 && GetParent(r.value[0].root).None?
                 && (forall i :: 0 < i < |r.value| ==> ExtendsPrevious(r.value, i))
                 && DistinctPaths(r.value) && WellBuilt(r.value, loader, trim))
  {
    var r := LoadSpec(loader, source, trim);
    if r.Ok? {
      var first := LoadFirst(loader, source, trim).value;
      var chain := Climb(loader, GetParent(first.root), [first], trim).value;
      ClimbEnds(loader, GetParent(first.root), [first], trim);
      ClimbSound(loader, GetParent(first.root), [first], trim);
      ClimbPrefix(loader, GetParent(first.root), [first], trim);
      assert chain[0] == first;
      ReversedChain(chain, loader, trim);
    }
  }

  lemma ReversedChain(chain: seq<TemplateNode>, loader: Loader, trim: Option<bool>)
    requires |chain| >= 1 && Linked(chain) && DistinctPaths(chain) && WellBuilt(chain, loader, trim)
    requires GetParent(chain[|chain| - 1].root).None?
    ensures var r := Reverse(chain);
      && r[|r| - 1] == chain[0] && GetParent(r[0].root).None?
      && (forall i :: 0 < i < |r| ==> ExtendsPrevious(r, i))
      && DistinctPaths(r) && WellBuilt(r, loader, trim)
  {
    var r := Reverse(chain);
    var n := |chain|;
    forall i | 0 < i < n ensures ExtendsPrevious(r, i) {
      assert r[i] == chain[n - 1 - i] && r[i - 1] == chain[n - i];
      assert LoadedAsParent(chain, n - i);
    }
    forall i, j | 0 <= i < n && 0 <= j < n && i != j && r[i].path.Some? ensures r[i].path != r[j].path {
      assert r[i] == chain[n - 1 - i] && r[j] == chain[n - 1 - j];
    }
  }

  /** Two templates that extend each other: the cycle is reported with both paths. */
  lemma CycleExample()
    ensures var a := Root([ExprItem(Extends(Borrowed("b.html")))]);
      var b := Root([ExprItem(Extends(Borrowed("a.html")))]);
      LoadSpec(map["a.html" := Parsed(a), "b.html" := Parsed(b)], File("a.html"), None)
        == Err(CycleDetected("dependency cycle detected: " + "a.html" + " -> " + "b.html" + " -> " + "a.html"))
  {
    var a := Root([ExprItem(Extends(Borrowed("b.html")))]);
    var b := Root([ExprItem(Extends(Borrowed("a.html")))]);
    var loader := map["a.html" := Parsed(a), "b.html" := Parsed(b)];
    var na := MakeNode(Some("a.html"), a, None);
    var nb := MakeNode(Some("b.html"), b, None);
    assert GetParent(na.root) == Some("b.html");
    assert GetParent(nb.root) == Some("a.html");
    PathsOfTwo(na, nb);
    assert LoadFirst(loader, File("a.html"), None) == Ok(na);
    assert loader["b.html"].root == b;
    ClimbStep(loader, "b.html", [na], None);
    assert [na] + [nb] == [na, nb];
    assert Climb(loader, Some("a.html"), [na, nb], None) == Err(CycleDetected(CycleMessage([na, nb], "a.html")));
    CycleMessageOfTwo(na, nb);
    assert LoadSpec(loader, File("a.html"), None) == Err(CycleDetected(CycleMessage([na, nb], "a.html")));
  }

  /**
   * A literal template that extends `a.html`, which extends itself: the
   * literal has no path, so it is left out of the message and the cycle is
   * found only when `a.html` comes round again.
   */
  lemma LiteralCycleExample()
    ensures var lit := Root([ExprItem(Extends(Borrowed("a.html")))]);
      var a := Root([ExprItem(Extends(Borrowed("a.html")))]);
      LoadSpec(map["a.html" := Parsed(a)], Literal(Parsed(lit)), None)
        == Err(CycleDetected("dependency cycle detected: " + "a.html" + " -> " + "a.html"))
  {
    var a := Root([ExprItem(Extends(Borrowed("a.html")))]);
    var loader := map["a.html" := Parsed(a)];
    var nl := MakeNode(None, a, None);
    var na := MakeNode(Some("a.html"), a, None);
    assert GetParent(nl.root) == Some("a.html");
    assert GetParent(na.root) == Some("a.html");
    assert Paths([nl]) == {} by {
      assert forall i :: 0 <= i < |[nl]| ==> [nl][i].path.None?;
    }
    assert LoadFirst(loader, Literal(Parsed(a)), None) == Ok(nl);
    ClimbStep(loader, "a.html", [nl], None);
    assert [nl] + [na] == [nl, na];
    PathsAppend([nl], na);
    assert Climb(loader, Some("a.html"), [nl, na], None) == Err(CycleDetected(CycleMessage([nl, na], "a.html")));
    LiteralPathList(nl, na);
  }

  /** A path-less node adds nothing to the cycle message's list. */
  lemma LiteralPathList(x: TemplateNode, y: TemplateNode)
    requires x.path.None? && y.path == Some("a.html")
    ensures CycleMessage([x, y], "a.html") == "dependency cycle detected: " + "a.html" + " -> " + "a.html"
  {
    assert [x, y][..1] == [x] && [x][..0] == [];
    assert PathList([x]) == "";
    assert PathList([x, y]) == "a.html" + " -> ";
  }

  /** The paths of a one- and a two-node chain. */
  lemma PathsOfTwo(x: TemplateNode, y: TemplateNode)
    requires x.path.Some? && y.path.Some?
    ensures Paths([x]) == {x.path.value} && Paths([x, y]) == {x.path.value, y.path.value}
  {
    assert Paths([]) == {};
    PathsAppend([], x);
    assert [] + [x] == [x];
    PathsAppend([x], y);
    assert [x] + [y] == [x, y];
  }

  /** The message for `a.html -> b.html` reaching `a.html` again. */
  lemma CycleMessageOfTwo(x: TemplateNode, y: TemplateNode)
    requires x.path == Some("a.html") && y.path == Some("b.html")
    ensures CycleMessage([x, y], "a.html") == "dependency cycle detected: " + "a.html" + " -> " + "b.html" + " -> " + "a.html"
  {
    PathListOfTwo(x, y);
  }

  /** The cycle message's list for a two-node chain. */
  lemma PathListOfTwo(x: TemplateNode, y: TemplateNode)
    requires x.path.Some? && y.path.Some?
    ensures PathList([x, y]) == x.path.value + " -> " + y.path.value + " -> "
  {
    assert [x, y][..1] == [x] && [x][..0] == [];
    assert PathList([x]) == x.path.value + " -> ";
  }

  // ---------------------------------------------------------------------
  // Navigation

  /** `TemplateRef::parent`: none at index 0, else the previous index. */
  function Parent(idx: nat): (r: Option<nat>)
    ensures r.None? <==> idx == 0
    ensures r.Some? ==> r.value + 1 == idx
  {
    if idx == 0 then None else Some(idx - 1)
  }

  /** `TemplateRef::child`: none at the last index, else the next index. */
  function Child(graph: seq<TemplateNode>, idx: nat): (r: Option<nat>)
    ensures r.None? <==> idx + 1 >= |graph|
    ensures r.Some? ==> r.value == idx + 1
  {
    if idx + 1 < |graph| then Some(idx + 1) else None
  }

  /**
   * What `deepest_child` finds: the highest index from `idx` on whose
   * registry has `name`, looking past nodes that lack it, else `idx`.
   */
  function Deepest(graph: seq<TemplateNode>, idx: nat, name: string): (d: nat)
    requires idx < |graph|
    ensures idx <= d < |graph|
    ensures d > idx ==> name in graph[d].blocks
    ensures forall j :: d < j < |graph| ==> name !in graph[j].blocks
    decreases |graph| - idx
  {
    if idx + 1 == |graph| then idx
    else
      var below := Deepest(graph, idx + 1, name);
      if below > idx + 1 || name in graph[idx + 1].blocks then below else idx
  }

  /** `TemplateRef::deepest_child`, with its loop. */
  method DeepestChild(graph: seq<TemplateNode>, idx: nat, name: string) returns (d: nat)
    requires idx < |graph|
    ensures d == Deepest(graph, idx, name)
  {
    d := idx;
    var next := Child(graph, idx);
    while next.Some?
      invariant next.Some? ==> idx < next.value <= |graph| - 1
      invariant var upto := if next.Some? then next.value else |graph|;
        idx <= d < upto && (d > idx ==> name in graph[d].blocks)
        && (forall j :: d < j < upto ==> name !in graph[j].blocks)
      decreases |graph| - (if next.Some? then next.value else |graph|)
    {
      var t := next.value;
      if name in graph[t].blocks {
        d := t;
      }
      next := Child(graph, t);
    }
    DeepestUnique(graph, idx, name, d);
  }

  /** `Deepest` is the only index with its three properties. */
  lemma DeepestUnique(graph: seq<TemplateNode>, idx: nat, name: string, d: nat)
    requires idx <= d < |graph|
    requires d > idx ==> name in graph[d].blocks
    requires forall j :: d < j < |graph| ==> name !in graph[j].blocks
    ensures d == Deepest(graph, idx, name)
  {
  }

  // ---------------------------------------------------------------------
  // Expansion

  /** The generated code, as abstract fragments in output order. */
  datatype Fragment =
    | IncludeBytes(path: string)
    | Write(text: string)
    | ForOpen(loopLabel: Option<HostCode>, pat: HostCode, iter: HostCode)
    | IfOpen(cond: HostCode)
    | ElseIfOpen(cond: HostCode)
    | ElseOpen
    | MatchOpen(scrutinee: HostCode)
    | ArmOpen(pat: HostCode, guard: Option<HostCode>)
    | MacroOpen(name: HostCode, args: HostCode)
    | Close
    | CallMacro(name: HostCode, args: HostCode)
    | WriteExpr(code: HostCode)
    | Stmt(code: HostCode)
    | IncludeTemplate(reference: string, args: HostCode)

  /**
   * The outcome of expanding: the fragments, or the `unwrap` in
   * `expand_block` failing on a block no node registers, or the fuel
   * bound running out.
   */
  datatype Expansion = Emitted(frags: seq<Fragment>) | MissingBlock(name: string) | OutOfFuel

  /** Collecting two results in order: the first failure, else both outputs. */
  function Then(a: Expansion, b: Expansion): (r: Expansion)
    ensures r.Emitted? <==> a.Emitted? && b.Emitted?
    ensures r.Emitted? ==> r.frags == a.frags + b.frags
    ensures !a.Emitted? ==> r == a
    ensures a.Emitted? && !b.Emitted? ==> r == b
  {
    if !a.Emitted? then a else if !b.Emitted? then b else Emitted(a.frags + b.frags)
  }

  function Wrap(open: Fragment, body: Expansion, close: seq<Fragment>): Expansion
  {
    Then(Then(Emitted([open]), body), Emitted(close))
  }

  /** The text a `Content` item writes, if any: trimmed when trimming is on, dropped when blank. */
  function ContentText(c: string, trim: bool): (r: Option<string>)
    ensures r.Some? <==> !AllWhitespace(c)
    ensures r.Some? ==> r.value == (if trim then Trim(c) else c)
  {
    var t := if trim then Trim(c) else c;
    if t != [] && !AllWhitespace(t) then Some(t) else None
  }

  /** `trim_override.unwrap_or(cfg.trim)`. */
  function TrimSetting(trimOverride: Option<bool>, trim: bool): (b: bool)
    ensures trimOverride.Some? ==> b == trimOverride.value
    ensures trimOverride.None? ==> b == trim
  {
    if trimOverride.Some? then trimOverride.value else trim
  }

  /** The items of one node's own content expanded in order. */
  function ExpandItems(fuel: nat, graph: seq<TemplateNode>, idx: nat, trim: bool, items: seq<Item>): Expansion
    requires idx < |graph|
    decreases fuel, items, 0
  {
    if items == [] then Emitted([])
    else Then(ExpandItem(fuel, graph, idx, trim, items[0]), ExpandItems(fuel, graph, idx, trim, items[1..]))
  }

  /**
   * `expand_item` in node `idx`. `trim` is the configured default, which
   * the node's own override replaces.
   */
  function ExpandItem(fuel: nat, graph: seq<TemplateNode>, idx: nat, trim: bool, item: Item): Expansion
    requires idx < |graph|
    decreases fuel, item, 1
  {
    match item
    case Content(c) =>
      (match ContentText(c.text, TrimSetting(graph[idx].trimOverride, trim))
       case Some(t) => Emitted([Write(t)])
       case None => Emitted([]))
    case Block(b) => ExpandBlock(fuel, graph, idx, trim, b)
    case For(f) => Wrap(ForOpen(f.loopLabel, f.pat, f.iter), ExpandItems(fuel, graph, idx, trim, f.content), [Close])
    case If(i) =>
      Then(Wrap(IfOpen(i.cond), ExpandItems(fuel, graph, idx, trim, i.content), [Close]),
           ExpandBranch(fuel, graph, idx, trim, i.branch))
    case Match(m) => Wrap(MatchOpen(m.scrutinee), ExpandArms(fuel, graph, idx, trim, m.arms), [Close])
    case Macro(m) => Wrap(MacroOpen(m.name, m.args), ExpandItems(fuel, graph, idx, trim, m.content), [Close])
    case ExprItem(e) =>
      (match e
       case Extends(_) => Emitted([])
       case SuperCall => Emitted([])
       case Include(r, args) => Emitted([IncludeTemplate(r.text, args)])
       case MacroCall(n, args) => Emitted([CallMacro(n, args)])
       case HostExpr(c) => Emitted([WriteExpr(c)])
       case HostStmt(c) => Emitted([Stmt(c)]))
  }

  /** `expand_if_branch`. */
  function ExpandBranch(fuel: nat, graph: seq<TemplateNode>, idx: nat, trim: bool, b: IfBranch): Expansion
    requires idx < |graph|
    decreases fuel, b, 1
  {
    match b
    case End => Emitted([])
    case Else(content) => Wrap(ElseOpen, ExpandItems(fuel, graph, idx, trim, content), [Close])
    case ElseIf(c, content, tail) =>
      Then(Wrap(ElseIfOpen(c), ExpandItems(fuel, graph, idx, trim, content), [Close]),
           ExpandBranch(fuel, graph, idx, trim, tail))
  }

  /** `expand_match_arm` for every arm, in order. */
  function ExpandArms(fuel: nat, graph: seq<TemplateNode>, idx: nat, trim: bool, arms: seq<MatchArm>): Expansion
    requires idx < |graph|
    decreases fuel, arms, 0
  {
    if arms == [] then Emitted([])
    else Then(Wrap(ArmOpen(arms[0].pat, arms[0].guard), ExpandItems(fuel, graph, idx, trim, arms[0].content), [Close]),
              ExpandArms(fuel, graph, idx, trim, arms[1..]))
  }

  /**
   * `expand_block`: find the deepest node that registers the block's name
   * and expand that node's version; no such registration is the failing
   * `unwrap`.
   */
  function ExpandBlock(fuel: nat, graph: seq<TemplateNode>, idx: nat, trim: bool, b: ItemBlock): (r: Expansion)
    requires idx < |graph|
    ensures b.name.text !in graph[Deepest(graph, idx, b.name.text)].blocks ==> r == MissingBlock(b.name.text)
    decreases fuel, b, 1
  {
    var d := Deepest(graph, idx, b.name.text);
    if b.name.text !in graph[d].blocks then MissingBlock(b.name.text)
    else if fuel == 0 then OutOfFuel
    else ExpandBody(fuel - 1, graph, d, trim, b.name.text, graph[d].blocks[b.name.text].content)
  }

  /**
   * `expand_block_inner` over a block body in node `idx`: `super()` expands
   * the parent's block of the same name, or nothing; anything else is an
   * ordinary item.
   */
  function ExpandBody(fuel: nat, graph: seq<TemplateNode>, idx: nat, trim: bool, name: string, items: seq<Item>): Expansion
    requires idx < |graph|
    decreases fuel, items, 0
  {
    if items == [] then Emitted([])
    else
      var head :=
        if items[0] == ExprItem(SuperCall) then
          (if idx > 0 && name in graph[idx - 1].blocks then
             (if fuel == 0 then OutOfFuel
              else ExpandBody(fuel - 1, graph, idx - 1, trim, name, graph[idx - 1].blocks[name].content))
           else Emitted([]))
        else ExpandItem(fuel, graph, idx, trim, items[0]);
      Then(head, ExpandBody(fuel, graph, idx, trim, name, items[1..]))
  }

  /** `TemplateRef::expand`: the node's items, minus top-level blocks already emitted. */
  function Unexpanded(items: seq<Item>, prev: set<string>): (r: seq<Item>)
    ensures forall x :: x in r <==> x in items && !(x.Block? && x.block.name.text in prev)
  {
    if items == [] then []
    else (if items[0].Block? && items[0].block.name.text in prev then [] else [items[0]]) + Unexpanded(items[1..], prev)
  }

  /** A single item is dropped exactly when it is a block already emitted. */
  lemma UnexpandedSingle(x: Item, prev: set<string>)
    ensures Unexpanded([x], prev) == if x.Block? && x.block.name.text in prev then [] else [x]
  {
    assert [x][1..] == [];
  }

  /** Filtering distributes over concatenation, so the kept items stay in order. */
  lemma {:induction false} UnexpandedAppend(a: seq<Item>, b: seq<Item>, prev: set<string>)
    ensures Unexpanded(a + b, prev) == Unexpanded(a, prev) + Unexpanded(b, prev)
  {
    if a == [] {
      assert a + b == b;
    } else {
      assert (a + b)[0] == a[0];
      assert (a + b)[1..] == a[1..] + b;
      UnexpandedAppend(a[1..], b, prev);
    }
  }

  function ExpandTemplate(fuel: nat, graph: seq<TemplateNode>, idx: nat, trim: bool, prev: set<string>): Expansion
    requires idx < |graph|
  {
    ExpandItems(fuel, graph, idx, trim, Unexpanded(graph[idx].root.content, prev))
  }

  /** The names registered by the nodes before `k`. */
  function Registered(graph: seq<TemplateNode>, k: nat): set<string>
    requires k <= |graph|
  {
    if k == 0 then {} else Registered(graph, k - 1) + graph[k - 1].blocks.Keys
  }

  /** A name is in `Registered(graph, k)` iff some node before `k` registers it. */
  lemma {:induction false} RegisteredBefore(graph: seq<TemplateNode>, k: nat, name: string)
    requires k <= |graph|
    ensures name in Registered(graph, k) <==> exists j :: 0 <= j < k && name in graph[j].blocks
  {
    if k > 0 {
      RegisteredBefore(graph, k - 1, name);
    }
  }

  /** The `include_bytes!` a node from a file contributes, so the build tracks that file. */
  function IncludeOf(node: TemplateNode): seq<Fragment>
  {
    if node.path.Some? then [IncludeBytes(node.path.value)] else []
  }

  /** One node's output: its `include_bytes!`, then its items minus blocks an earlier node registered. */
  function NodeOutput(fuel: nat, graph: seq<TemplateNode>, trim: bool, k: nat): Expansion
    requires k < |graph|
  {
    Then(Emitted(IncludeOf(graph[k])), ExpandTemplate(fuel, graph, k, trim, Registered(graph, k)))
  }

  /** Every node's output, from the root ancestor to the requested template. */
  function NodeOutputs(fuel: nat, graph: seq<TemplateNode>, trim: bool): (outs: seq<Expansion>)
    ensures |outs| == |graph|
    ensures forall k :: 0 <= k < |graph| ==> outs[k] == NodeOutput(fuel, graph, trim, k)
  {
    seq(|graph|, k requires 0 <= k < |graph| => NodeOutput(fuel, graph, trim, k))
  }

  /** Outputs collected in order: the first failure, else all fragments one after another. */
  function Collect(outs: seq<Expansion>): Expansion
  {
    if outs == [] then Emitted([]) else Then(outs[0], Collect(outs[1..]))
  }

  /** `Graph::expand`'s result: every node's output collected. */
  function ExpandSpec(fuel: nat, graph: seq<TemplateNode>, trim: bool): Expansion
  {
    Collect(NodeOutputs(fuel, graph, trim))
  }

  /** Prepending fragments to an outcome: failures pass through unchanged. */
  function Prepend(done: seq<Fragment>, e: Expansion): (r: Expansion)
    ensures r == Then(Emitted(done), e)
  {
    if e.Emitted? then Emitted(done + e.frags) else e
  }

  /** One turn of collecting: a success moves its fragments into the prefix, a failure ends it. */
  lemma CollectStep(outs: seq<Expansion>, i: nat, toks: seq<Fragment>)
    requires i < |outs|
    ensures outs[i].Emitted? ==> Prepend(toks, Collect(outs[i..])) == Prepend(toks + outs[i].frags, Collect(outs[i + 1..]))
    ensures !outs[i].Emitted? ==> Prepend(toks, Collect(outs[i..])) == outs[i]
  {
    assert outs[i..][0] == outs[i] && outs[i..][1..] == outs[i + 1..];
  }

  /** One turn of the `Graph::expand` loop, in terms of the collected outputs. */
  lemma ExpandStep(fuel: nat, graph: seq<TemplateNode>, trim: bool, k: nat, toks: seq<Fragment>, body: Expansion)
    requires k < |graph| && body == ExpandTemplate(fuel, graph, k, trim, Registered(graph, k))
    ensures var outs := NodeOutputs(fuel, graph, trim);
      && (body.Emitted? ==> Prepend(toks, Collect(outs[k..])) == Prepend(toks + IncludeOf(graph[k]) + body.frags, Collect(outs[k + 1..])))
      && (!body.Emitted? ==> Prepend(toks, Collect(outs[k..])) == body)
  {
    var outs := NodeOutputs(fuel, graph, trim);
    assert outs[k] == NodeOutput(fuel, graph, trim, k);
    IncludedStep(outs, k, toks, IncludeOf(graph[k]), body);
  }

  /** A collecting step over an output made of an include prefix and a body. */
  lemma IncludedStep(outs: seq<Expansion>, k: nat, toks: seq<Fragment>, inc: seq<Fragment>, body: Expansion)
    requires k < |outs| && outs[k] == Then(Emitted(inc), body)
    ensures body.Emitted? ==> Prepend(toks, Collect(outs[k..])) == Prepend(toks + inc + body.frags, Collect(outs[k + 1..]))
    ensures !body.Emitted? ==> Prepend(toks, Collect(outs[k..])) == body
  {
    CollectStep(outs, k, toks);
    if body.Emitted? {
      assert toks + outs[k].frags == toks + inc + body.frags;
    }
  }

  /** `Graph::expand`, with its loop, proved to compute `ExpandSpec`. */
  method ExpandGraph(fuel: nat, graph: seq<TemplateNode>, trim: bool) returns (r: Expansion)
    requires |graph| > 0
    ensures r == ExpandSpec(fuel, graph, trim)
  {
    var expanded: set<string> := {};
    var toks: seq<Fragment> := [];
    var cur: Option<nat> := Some(0);
    ghost var k: nat := 0;
    assert NodeOutputs(fuel, graph, trim)[0..] == NodeOutputs(fuel, graph, trim);
    while cur.Some?
      invariant k <= |graph| && (cur.Some? <==> k < |graph|) && (cur.Some? ==> cur.value == k)
      invariant expanded == Registered(graph, k)
      invariant ExpandSpec(fuel, graph, trim) == Prepend(toks, Collect(NodeOutputs(fuel, graph, trim)[k..]))
      decreases |graph| - k
    {
      var t := cur.value;
      var body := ExpandTemplate(fuel, graph, t, trim, expanded);
      ExpandStep(fuel, graph, trim, t, toks, body);
      if !body.Emitted? {
        return body;
      }
      toks := toks + IncludeOf(graph[t]) + body.frags;
      expanded := expanded + graph[t].blocks.Keys;
      cur := Child(graph, t);
      k := k + 1;
    }
    r := Emitted(toks);
  }

  // ---------------------------------------------------------------------
  // Fuel adequacy: `OutOfFuel` comes only from the bound

  /** Combining two outcomes that more fuel leaves alone, unless they ran out. */
  lemma ThenFuel(a: Expansion, b: Expansion, a': Expansion, b': Expansion)
    requires a != OutOfFuel ==> a' == a
    requires a.Emitted? && b != OutOfFuel ==> b' == b
    ensures Then(a, b) != OutOfFuel ==> Then(a', b') == Then(a, b)
  {
  }

  /**
   * An outcome other than `OutOfFuel` is the outcome at any larger fuel,
   * for item lists, items, `if` branches, match arms, blocks and block
   * bodies alike.
   */
  lemma {:induction false} ItemsFuel(f: nat, f': nat, graph: seq<TemplateNode>, idx: nat, trim: bool, items: seq<Item>)
    requires f <= f' && idx < |graph|
    ensures ExpandItems(f, graph, idx, trim, items) != OutOfFuel
      ==> ExpandItems(f', graph, idx, trim, items) == ExpandItems(f, graph, idx, trim, items)
    decreases f, items, 0
  {
    if items != [] {
      ItemFuel(f, f', graph, idx, trim, items[0]);
      ItemsFuel(f, f', graph, idx, trim, items[1..]);
      ThenFuel(ExpandItem(f, graph, idx, trim, items[0]), ExpandItems(f, graph, idx, trim, items[1..]),
               ExpandItem(f', graph, idx, trim, items[0]), ExpandItems(f', graph, idx, trim, items[1..]));
    }
  }

  lemma {:induction false} ItemFuel(f: nat, f': nat, graph: seq<TemplateNode>, idx: nat, trim: bool, item: Item)
    requires f <= f' && idx < |graph|
    ensures ExpandItem(f, graph, idx, trim, item) != OutOfFuel
      ==> ExpandItem(f', graph, idx, trim, item) == ExpandItem(f, graph, idx, trim, item)
    decreases f, item, 1
  {
    match item
    case Content(_) =>
    case Block(b) => BlockFuel(f, f', graph, idx, trim, b);
    case For(x) => ItemsFuel(f, f', graph, idx, trim, x.content);
    case If(x) =>
      ItemsFuel(f, f', graph, idx, trim, x.content);
      BranchFuel(f, f', graph, idx, trim, x.branch);
    case Match(x) => ArmsFuel(f, f', graph, idx, trim, x.arms);
    case Macro(x) => ItemsFuel(f, f', graph, idx, trim, x.content);
    case ExprItem(_) =>
  }

  lemma {:induction false} BranchFuel(f: nat, f': nat, graph: seq<TemplateNode>, idx: nat, trim: bool, b: IfBranch)
    requires f <= f' && idx < |graph|
    ensures ExpandBranch(f, graph, idx, trim, b) != OutOfFuel
      ==> ExpandBranch(f', graph, idx, trim, b) == ExpandBranch(f, graph, idx, trim, b)
    decreases f, b, 1
  {
    match b
    case End =>
    case Else(content) => ItemsFuel(f, f', graph, idx, trim, content);
    case ElseIf(_, content, tail) =>
      ItemsFuel(f, f', graph, idx, trim, content);
      BranchFuel(f, f', graph, idx, trim, tail);
  }

  lemma {:induction false} ArmsFuel(f: nat, f': nat, graph: seq<TemplateNode>, idx: nat, trim: bool, arms: seq<MatchArm>)
    requires f <= f' && idx < |graph|
    ensures ExpandArms(f, graph, idx, trim, arms) != OutOfFuel
      ==> ExpandArms(f', graph, idx, trim, arms) == ExpandArms(f, graph, idx, trim, arms)
    decreases f, arms, 0
  {
    if arms != [] {
      ItemsFuel(f, f', graph, idx, trim, arms[0].content);
      ArmsFuel(f, f', graph, idx, trim, arms[1..]);
    }
  }

  lemma {:induction false} BlockFuel(f: nat, f': nat, graph: seq<TemplateNode>, idx: nat, trim: bool, b: ItemBlock)
    requires f <= f' && idx < |graph|
    ensures ExpandBlock(f, graph, idx, trim, b) != OutOfFuel
      ==> ExpandBlock(f', graph, idx, trim, b) == ExpandBlock(f, graph, idx, trim, b)
    decreases f, b, 1
  {
    var d := Deepest(graph, idx, b.name.text);
    if b.name.text in graph[d].blocks && f > 0 {
      BodyFuel(f - 1, f' - 1, graph, d, trim, b.name.text, graph[d].blocks[b.name.text].content);
    }
  }

  lemma {:induction false} BodyFuel(f: nat, f': nat, graph: seq<TemplateNode>, idx: nat, trim: bool, name: string, items: seq<Item>)
    requires f <= f' && idx < |graph|
    ensures ExpandBody(f, graph, idx, trim, name, items) != OutOfFuel
      ==> ExpandBody(f', graph, idx, trim, name, items) == ExpandBody(f, graph, idx, trim, name, items)
    decreases f, items, 0
  {
    if items != [] {
      if items[0] != ExprItem(SuperCall) {
        ItemFuel(f, f', graph, idx, trim, items[0]);
      } else if idx > 0 && name in graph[idx - 1].blocks && f > 0 {
        BodyFuel(f - 1, f' - 1, graph, idx - 1, trim, name, graph[idx - 1].blocks[name].content);
      }
      BodyFuel(f, f', graph, idx, trim, name, items[1..]);
    }
  }

  /** Collecting outcomes that more fuel leaves alone unless they ran out. */
  lemma {:induction false} CollectFuel(outs: seq<Expansion>, outs': seq<Expansion>)
    requires |outs| == |outs'|
    requires forall k :: 0 <= k < |outs| && outs[k] != OutOfFuel ==> outs'[k] == outs[k]
    ensures Collect(outs) != OutOfFuel ==> Collect(outs') == Collect(outs)
  {
    if outs != [] {
      CollectFuel(outs[1..], outs'[1..]);
    }
  }

  /** A whole expansion that did not run out of fuel is the same with more fuel. */
  lemma ExpandSpecFuel(f: nat, f': nat, graph: seq<TemplateNode>, trim: bool)
    requires f <= f'
    ensures ExpandSpec(f, graph, trim) != OutOfFuel ==> ExpandSpec(f', graph, trim) == ExpandSpec(f, graph, trim)
  {
    var outs := NodeOutputs(f, graph, trim);
    var outs' := NodeOutputs(f', graph, trim);
    forall k | 0 <= k < |outs| && outs[k] != OutOfFuel ensures outs'[k] == outs[k] {
      ItemsFuel(f, f', graph, k, trim, Unexpanded(graph[k].root.content, Registered(graph, k)));
    }
    CollectFuel(outs, outs');
  }

  /** `[Block(a { Block(a {}) })]`: the only registration of `a` leads back to itself. */
  function SelfNestedGraph(): seq<TemplateNode>
  {
    var root := Root([Block(ItemBlock(Owned("a"), [Block(ItemBlock(Owned("a"), []))]))]);
    [TemplateNode(None, root, GetBlocks(root.content), None)]
  }

  lemma SelfNestedRegistry()
    ensures SelfNestedGraph()[0].blocks == map["a" := ItemBlock(Owned("a"), [Block(ItemBlock(Owned("a"), []))])]
  {
    var top := ItemBlock(Owned("a"), [Block(ItemBlock(Owned("a"), []))]);
    LoneBlock(ItemBlock(Owned("a"), []));
    assert [Block(top)][1..] == [];
  }

  /** Expanding a block named `a` in that template runs out of fuel, whatever the fuel. */
  lemma {:induction false} SelfNestedBlockLoops(f: nat, trim: bool, b: ItemBlock)
    requires b.name.text == "a"
    ensures ExpandBlock(f, SelfNestedGraph(), 0, trim, b) == OutOfFuel
  {
    var g := SelfNestedGraph();
    SelfNestedRegistry();
    DeepestUnique(g, 0, "a", 0);
    if f > 0 {
      var inner := ItemBlock(Owned("a"), []);
      SelfNestedBlockLoops(f - 1, trim, inner);
      assert ExpandItem(f - 1, g, 0, trim, Block(inner)) == OutOfFuel;
      assert g[0].blocks["a"].content[1..] == [];
    }
  }

  /**
   * The template alone never finishes expanding: the source recurses
   * forever on it, and the model is `OutOfFuel` at every fuel.
   */
  lemma SelfNestedDiverges(f: nat, trim: bool)
    ensures ExpandSpec(f, SelfNestedGraph(), trim) == OutOfFuel
  {
    var g := SelfNestedGraph();
    var content := g[0].root.content;
    SelfNestedBlockLoops(f, trim, content[0].block);
    assert Unexpanded(content, {}) == content by {
      assert content[1..] == [];
    }
    assert ExpandItems(f, g, 0, trim, content) == OutOfFuel by {
      assert ExpandItem(f, g, 0, trim, content[0]) == OutOfFuel;
    }
    assert NodeOutputs(f, g, trim)[0] == OutOfFuel;
    assert NodeOutputs(f, g, trim)[1..] == [];
  }

  /**
   * `[Block(a { Block(a {}) }), Block(a {})]`: the later, empty block wins
   * the registry, so both items expand it and the template writes nothing.
   */
  function OverriddenNestGraph(): seq<TemplateNode>
  {
    var root := Root([Block(ItemBlock(Owned("a"), [Block(ItemBlock(Owned("a"), []))])), Block(ItemBlock(Owned("a"), []))]);
    [TemplateNode(None, root, GetBlocks(root.content), None)]
  }

  lemma OverriddenNestTerminates(f: nat, trim: bool)
    requires f >= 1
    ensures ExpandSpec(f, OverriddenNestGraph(), trim) == Emitted([])
  {
    var g := OverriddenNestGraph();
    var content := g[0].root.content;
    var empty := ItemBlock(Owned("a"), []);
    GetBlocksLastWins(content, 1);
    DeepestUnique(g, 0, "a", 0);
    assert g[0].blocks["a"] == empty;
    assert content[0].block.name.text == "a" && content[1].block.name.text == "a";
    assert ExpandBody(f - 1, g, 0, trim, "a", []) == Emitted([]);
    assert ExpandBlock(f, g, 0, trim, content[0].block) == Emitted([]);
    assert ExpandBlock(f, g, 0, trim, content[1].block) == Emitted([]);
    assert Unexpanded(content, {}) == content by {
      assert content[1..][1..] == [];
    }
    assert ExpandItems(f, g, 0, trim, content) == Emitted([]) by {
      assert content[1..][1..] == [];
      ItemsCons(f, g, 0, trim, content[1], []);
      assert [content[1]] + [] == content[1..];
    }
    assert IncludeOf(g[0]) == [];
    assert ExpandTemplate(f, g, 0, trim, Registered(g, 0)) == Emitted([]);
    assert NodeOutputs(f, g, trim)[0] == Emitted([]);
    assert NodeOutputs(f, g, trim)[1..] == [];
    assert Collect(NodeOutputs(f, g, trim)) == Then(Emitted([]), Emitted([]));
  }

  // ---------------------------------------------------------------------
  // Properties of expansion

  /** `Extends` and `SuperCall` met as ordinary items write nothing. */
  lemma ExtendsAndSuperWriteNothing(fuel: nat, graph: seq<TemplateNode>, idx: nat, trim: bool, reference: Cow)
    requires idx < |graph|
    ensures ExpandItem(fuel, graph, idx, trim, ExprItem(Extends(reference))) == Emitted([])
    ensures ExpandItem(fuel, graph, idx, trim, ExprItem(SuperCall)) == Emitted([])
  {
  }

  /** `Content` writes its (possibly trimmed) text iff that text is not blank. */
  lemma ContentWritten(fuel: nat, graph: seq<TemplateNode>, idx: nat, trim: bool, c: Cow)
    requires idx < |graph|
    ensures var t := TrimSetting(graph[idx].trimOverride, trim);
      ExpandItem(fuel, graph, idx, trim, Content(c))
        == if AllWhitespace(c.text) then Emitted([]) else Emitted([Write(if t then Trim(c.text) else c.text)])
  {
  }

  /** A block name no node from `idx` on registers is the failing `unwrap`. */
  lemma UnregisteredBlockFails(fuel: nat, graph: seq<TemplateNode>, idx: nat, trim: bool, b: ItemBlock)
    requires idx < |graph|
    requires forall j :: idx <= j < |graph| ==> b.name.text !in graph[j].blocks
    ensures ExpandItem(fuel, graph, idx, trim, Block(b)) == MissingBlock(b.name.text)
  {
  }

  /**
   * A block written under a `for` in a template that does not register
   * its name elsewhere: expanding the template fails on the `unwrap`.
   */
  lemma BlockUnderForFails(fuel: nat, f: ItemFor, name: string)
    requires f.content == [Block(ItemBlock(Owned(name), []))]
    ensures var root := Root([For(f)]);
      var node := TemplateNode(None, root, GetBlocks(root.content), None);
      ExpandSpec(fuel, [node], false) == MissingBlock(name)
  {
    var root := Root([For(f)]);
    BlockUnderForNotRegistered(f, name);
    var node := TemplateNode(None, root, GetBlocks(root.content), None);
    var graph := [node];
    UnregisteredBlockFails(fuel, graph, 0, false, ItemBlock(Owned(name), []));
    assert f.content[1..] == [];
    assert ExpandItems(fuel, graph, 0, false, f.content) == MissingBlock(name);
    assert ExpandItem(fuel, graph, 0, false, For(f)) == MissingBlock(name);
    assert Unexpanded(root.content, {}) == root.content;
    assert root.content[1..] == [];
    assert NodeOutputs(fuel, graph, false)[0] == MissingBlock(name);
  }

  /** `super()` with no parent, or a parent without the block, writes nothing. */
  lemma SuperWithoutParentBlock(fuel: nat, graph: seq<TemplateNode>, idx: nat, trim: bool, name: string, rest: seq<Item>)
    requires idx < |graph| && (idx == 0 || name !in graph[idx - 1].blocks)
    ensures ExpandBody(fuel, graph, idx, trim, name, [ExprItem(SuperCall)] + rest) == ExpandBody(fuel, graph, idx, trim, name, rest)
  {
    assert ([ExprItem(SuperCall)] + rest)[1..] == rest;
  }

  /** `super()` under a parent that has the block writes the parent's version in its place. */
  lemma SuperExpandsParentBlock(fuel: nat, graph: seq<TemplateNode>, idx: nat, trim: bool, name: string, rest: seq<Item>)
    requires 0 < idx < |graph| && name in graph[idx - 1].blocks
    ensures ExpandBody(fuel + 1, graph, idx, trim, name, [ExprItem(SuperCall)] + rest)
      == Then(ExpandBody(fuel, graph, idx - 1, trim, name, graph[idx - 1].blocks[name].content),
              ExpandBody(fuel + 1, graph, idx, trim, name, rest))
  {
    assert ([ExprItem(SuperCall)] + rest)[1..] == rest;
  }

  /**
   * A top-level block of node `k` is rendered from node `k` iff no earlier
   * node registered its name; otherwise the earlier node already rendered
   * the deepest override.
   */
  lemma SkippedIffRegisteredBefore(graph: seq<TemplateNode>, k: nat, b: ItemBlock)
    requires k < |graph|
    ensures Block(b) in Unexpanded(graph[k].root.content, Registered(graph, k))
      <==> Block(b) in graph[k].root.content && forall j :: 0 <= j < k ==> b.name.text !in graph[j].blocks
  {
    RegisteredBefore(graph, k, b.name.text);
  }

  /** Expanding a list one item at a time. */
  lemma ItemsCons(fuel: nat, graph: seq<TemplateNode>, idx: nat, trim: bool, item: Item, rest: seq<Item>)
    requires idx < |graph|
    ensures ExpandItems(fuel, graph, idx, trim, [item] + rest)
      == Then(ExpandItem(fuel, graph, idx, trim, item), ExpandItems(fuel, graph, idx, trim, rest))
  {
    assert ([item] + rest)[0] == item && ([item] + rest)[1..] == rest;
  }

  /** Expanding a block body one item at a time, for an item other than `super()`. */
  lemma BodyCons(fuel: nat, graph: seq<TemplateNode>, idx: nat, trim: bool, name: string, item: Item, rest: seq<Item>)
    requires idx < |graph| && item != ExprItem(SuperCall)
    ensures ExpandBody(fuel, graph, idx, trim, name, [item] + rest)
      == Then(ExpandItem(fuel, graph, idx, trim, item), ExpandBody(fuel, graph, idx, trim, name, rest))
  {
    assert ([item] + rest)[0] == item && ([item] + rest)[1..] == rest;
  }

  // ---------------------------------------------------------------------
  // A child template overriding its parent's block and calling `super()`

  function BodyBlock(content: seq<Item>): ItemBlock { ItemBlock(Owned("body"), content) }

  /** `base.html`: `{% block body %}` + `inner` + `{% end %}`. */
  function BaseRoot(inner: string): Root { Root([Block(BodyBlock([Content(Owned(inner))]))]) }

  /** `child.html`: extends `base.html` and overrides `body` with `before`, `super()`, `after`. */
  function ChildRoot(before: string, after: string): Root
  {
    Root([ExprItem(Extends(Owned("base.html"))),
          Block(BodyBlock([Content(Owned(before)), ExprItem(SuperCall), Content(Owned(after))]))])
  }

  function ExampleNode(path: string, root: Root): TemplateNode
  {
    TemplateNode(Some(path), root, GetBlocks(root.content), None)
  }

  /** The loaded chain: the base at index 0, the child after it. */
  function ExampleGraph(inner: string, before: string, after: string): seq<TemplateNode>
  {
    [ExampleNode("base.html", BaseRoot(inner)), ExampleNode("child.html", ChildRoot(before, after))]
  }

  /** A sequence with no block item registers nothing. */
  lemma {:induction false} NoBlocks(items: seq<Item>)
    requires forall i :: 0 <= i < |items| ==> !items[i].Block?
    ensures GetBlocks(items) == map[]
    decreases |items|
  {
    if items != [] {
      assert !items[0].Block?;
      NoBlocks(items[1..]);
    }
  }

  /** A block alone registers its name, and only it, when nothing is nested in it. */
  lemma LoneBlock(b: ItemBlock)
    requires forall i :: 0 <= i < |b.content| ==> !b.content[i].Block?
    ensures GetBlocks([Block(b)]) == map[b.name.text := b]
  {
    NoBlocks(b.content);
    assert [Block(b)][1..] == [];
  }

  lemma ExampleBaseBlocks(inner: string)
    ensures GetBlocks(BaseRoot(inner).content) == map["body" := BodyBlock([Content(Owned(inner))])]
  {
    LoneBlock(BodyBlock([Content(Owned(inner))]));
  }

  lemma ExampleChildBlocks(before: string, after: string)
    ensures GetBlocks(ChildRoot(before, after).content)
      == map["body" := BodyBlock([Content(Owned(before)), ExprItem(SuperCall), Content(Owned(after))])]
  {
    var child := ChildRoot(before, after).content;
    LoneBlock(child[1].block);
    assert child[1..] == [child[1]];
    assert BlockEntries(child[0]) == map[];
  }

  /** Each template registers only its own `body`. */
  lemma ExampleRegistries(inner: string, before: string, after: string)
    ensures var g := ExampleGraph(inner, before, after);
      && g[0].blocks == map["body" := BodyBlock([Content(Owned(inner))])]
      && g[1].blocks == map["body" := BodyBlock([Content(Owned(before)), ExprItem(SuperCall), Content(Owned(after))])]
  {
    ExampleBaseBlocks(inner);
    ExampleChildBlocks(before, after);
  }

  /** The child is the deepest holder of `body`; the base alone registered it before the child. */
  lemma ExampleNavigation(inner: string, before: string, after: string)
    ensures var g := ExampleGraph(inner, before, after);
      Deepest(g, 0, "body") == 1 && Registered(g, 0) == {} && Registered(g, 1) == {"body"}
  {
    var g := ExampleGraph(inner, before, after);
    ExampleRegistries(inner, before, after);
    DeepestUnique(g, 0, "body", 1);
  }

  /** The base's own `body`, reached through `super()`. */
  lemma ExampleBaseBody(fuel: nat, inner: string, before: string, after: string)
    requires !AllWhitespace(inner)
    ensures ExpandBody(fuel, ExampleGraph(inner, before, after), 0, false, "body", [Content(Owned(inner))])
      == Emitted([Write(inner)])
  {
    var g := ExampleGraph(inner, before, after);
    ContentWritten(fuel, g, 0, false, Owned(inner));
    BodyCons(fuel, g, 0, false, "body", Content(Owned(inner)), []);
    assert [Content(Owned(inner))] + [] == [Content(Owned(inner))];
  }

  /** `super()` then `after` in the child's `body`. */
  lemma ExampleSuperTail(fuel: nat, inner: string, before: string, after: string)
    requires !AllWhitespace(inner) && !AllWhitespace(after)
    ensures ExpandBody(fuel + 1, ExampleGraph(inner, before, after), 1, false, "body", [ExprItem(SuperCall), Content(Owned(after))])
      == Emitted([Write(inner), Write(after)])
  {
    var g := ExampleGraph(inner, before, after);
    ExampleRegistries(inner, before, after);
    SuperExpandsParentBlock(fuel, g, 1, false, "body", [Content(Owned(after))]);
    assert [ExprItem(SuperCall)] + [Content(Owned(after))] == [ExprItem(SuperCall), Content(Owned(after))];
    ExampleBaseBody(fuel, inner, before, after);
    ContentWritten(fuel + 1, g, 1, false, Owned(after));
    BodyCons(fuel + 1, g, 1, false, "body", Content(Owned(after)), []);
    assert [Content(Owned(after))] + [] == [Content(Owned(after))];
  }

  /** The child's `body`: its own text around the base's. */
  lemma ExampleChildBody(fuel: nat, inner: string, before: string, after: string)
    requires !AllWhitespace(inner) && !AllWhitespace(before) && !AllWhitespace(after)
    ensures ExpandBody(fuel + 1, ExampleGraph(inner, before, after), 1, false, "body",
                       [Content(Owned(before)), ExprItem(SuperCall), Content(Owned(after))])
      == Emitted([Write(before), Write(inner), Write(after)])
  {
    var g := ExampleGraph(inner, before, after);
    ContentWritten(fuel + 1, g, 1, false, Owned(before));
    BodyCons(fuel + 1, g, 1, false, "body", Content(Owned(before)), [ExprItem(SuperCall), Content(Owned(after))]);
    assert [Content(Owned(before))] + [ExprItem(SuperCall), Content(Owned(after))]
      == [Content(Owned(before)), ExprItem(SuperCall), Content(Owned(after))];
    ExampleSuperTail(fuel, inner, before, after);
  }

  /** The base's `body` item expands the child's override. */
  lemma ExampleBaseBlock(fuel: nat, inner: string, before: string, after: string)
    requires fuel >= 2 && !AllWhitespace(inner) && !AllWhitespace(before) && !AllWhitespace(after)
    ensures ExpandItem(fuel, ExampleGraph(inner, before, after), 0, false, BaseRoot(inner).content[0])
      == Emitted([Write(before), Write(inner), Write(after)])
  {
    ExampleRegistries(inner, before, after);
    ExampleNavigation(inner, before, after);
    ExampleChildBody(fuel - 2, inner, before, after);
  }

  /** The base's output: its `include_bytes!`, then its `body` as the child overrides it. */
  lemma ExampleBaseOutput(fuel: nat, inner: string, before: string, after: string)
    requires fuel >= 2 && !AllWhitespace(inner) && !AllWhitespace(before) && !AllWhitespace(after)
    ensures NodeOutput(fuel, ExampleGraph(inner, before, after), false, 0)
      == Emitted([IncludeBytes("base.html"), Write(before), Write(inner), Write(after)])
  {
    var g := ExampleGraph(inner, before, after);
    ExampleNavigation(inner, before, after);
    var base := BaseRoot(inner).content;
    assert base[1..] == [];
    assert Unexpanded(base, {}) == base;
    ExampleBaseBlock(fuel, inner, before, after);
    ItemsCons(fuel, g, 0, false, base[0], []);
    assert [base[0]] + [] == base;
  }

  /** Once `body` is registered, only the child's `extends` is left to expand. */
  lemma ExampleChildUnexpanded(before: string, after: string)
    ensures var child := ChildRoot(before, after).content;
      Unexpanded(child, {"body"}) == [child[0]]
  {
    var child := ChildRoot(before, after).content;
    assert child[1..][1..] == [];
    assert Unexpanded(child[1..], {"body"}) == [];
  }

  /** The child's output: its `include_bytes!` only, its `body` being already emitted. */
  lemma ExampleChildOutput(fuel: nat, inner: string, before: string, after: string)
    ensures NodeOutput(fuel, ExampleGraph(inner, before, after), false, 1) == Emitted([IncludeBytes("child.html")])
  {
    var g := ExampleGraph(inner, before, after);
    ExampleNavigation(inner, before, after);
    var child := ChildRoot(before, after).content;
    ExampleChildUnexpanded(before, after);
    ExtendsAndSuperWriteNothing(fuel, g, 1, false, Owned("base.html"));
    ItemsCons(fuel, g, 1, false, child[0], []);
    assert [child[0]] + [] == [child[0]];
    assert ExpandTemplate(fuel, g, 1, false, Registered(g, 1)) == Emitted([]);
    assert IncludeOf(g[1]) == [IncludeBytes("child.html")];
  }

  /**
   * The whole chain expands to: the base's `include_bytes!`, the child's
   * override with the base's text where `super()` stood, then the child's
   * `include_bytes!`; the child's own `body` is skipped as already emitted.
   */
  lemma ExampleExpansion(fuel: nat, inner: string, before: string, after: string)
    requires fuel >= 2 && !AllWhitespace(inner) && !AllWhitespace(before) && !AllWhitespace(after)
    ensures ExpandSpec(fuel, ExampleGraph(inner, before, after), false)
      == Emitted([IncludeBytes("base.html"), Write(before), Write(inner), Write(after), IncludeBytes("child.html")])
  {
    var outs := NodeOutputs(fuel, ExampleGraph(inner, before, after), false);
    ExampleBaseOutput(fuel, inner, before, after);
    ExampleChildOutput(fuel, inner, before, after);
    assert outs[1..][1..] == [];
    assert Collect(outs[1..]) == Then(outs[1], Emitted([]));
    assert Collect(outs[1..]) == Emitted([IncludeBytes("child.html")]);
    assert [IncludeBytes("base.html"), Write(before), Write(inner), Write(after)] + [IncludeBytes("child.html")]
      == [IncludeBytes("base.html"), Write(before), Write(inner), Write(after), IncludeBytes("child.html")];
  }
}
