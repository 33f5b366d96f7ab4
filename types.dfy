/**
 * The template syntax tree (stilts-lang/src/types.rs) and its
 * `into_owned` deep copy. Host-language payloads (patterns, expressions,
 * statements, identifiers, argument lists) are kept as opaque tokens.
 */
module Types {
  import opened Wrappers

  /** Text that is either borrowed from the input or owned. */
  datatype Cow = Borrowed(text: string) | Owned(text: string)

  /** An opaque piece of host-language code. */
  datatype HostCode = HostCode(tokens: string)

  datatype Root = Root(content: seq<Item>)

  datatype Item =
    | Content(text: Cow)
    | Block(block: ItemBlock)
    | For(forItem: ItemFor)
    | If(ifItem: ItemIf)
    | Match(matchItem: ItemMatch)
    | Macro(macroItem: ItemMacro)
    | ExprItem(expr: Expr)

  datatype ItemBlock = ItemBlock(name: Cow, content: seq<Item>)

  datatype ItemFor = ItemFor(loopLabel: Option<HostCode>, pat: HostCode, iter: HostCode, content: seq<Item>)

  datatype ItemIf = ItemIf(cond: HostCode, content: seq<Item>, branch: IfBranch)

  datatype IfBranch =
    | ElseIf(cond: HostCode, content: seq<Item>, branch: IfBranch)
    | Else(content: seq<Item>)
    | End

  datatype ItemMatch = ItemMatch(scrutinee: HostCode, arms: seq<MatchArm>)

  datatype MatchArm = MatchArm(pat: HostCode, guard: Option<HostCode>, content: seq<Item>)

  datatype ItemMacro = ItemMacro(name: HostCode, args: HostCode, content: seq<Item>)

  /** `Include` carries the referenced template and its opaque arguments. */
  datatype Expr =
    | Extends(reference: Cow)
    | Include(reference: Cow, args: HostCode)
    | SuperCall
    | MacroCall(name: HostCode, args: HostCode)
    | HostStmt(code: HostCode)
    | HostExpr(code: HostCode)

  // ---------------------------------------------------------------------
  // into_owned

  /** `Cow::into_owned` followed by `into`: the same text, now owned. */
  function CowIntoOwned(c: Cow): (r: Cow)
    ensures r.Owned? && r.text == c.text
  {
    Owned(c.text)
  }

  function RootIntoOwned(r: Root): (o: Root)
    ensures |o.content| == |r.content|
    ensures forall i :: 0 <= i < |r.content| ==> o.content[i] == ItemIntoOwned(r.content[i])
  {
    Root(ItemsIntoOwned(r.content))
  }

  /** `into_iter().map(Item::into_owned).collect()`: item by item, in order. */
  function ItemsIntoOwned(items: seq<Item>): (r: seq<Item>)
    ensures |r| == |items|
    ensures forall i :: 0 <= i < |items| ==> r[i] == ItemIntoOwned(items[i])
    decreases items, 0
  {
    if items == [] then [] else [ItemIntoOwned(items[0])] + ItemsIntoOwned(items[1..])
  }

  /** `Item::into_owned`: the same variant around its owned payload. */
  function ItemIntoOwned(item: Item): (o: Item)
    ensures o.Content? <==> item.Content?
    ensures o.Block? <==> item.Block?
    ensures o.For? <==> item.For?
    ensures o.If? <==> item.If?
    ensures o.Match? <==> item.Match?
    ensures o.Macro? <==> item.Macro?
    ensures o.ExprItem? <==> item.ExprItem?
    ensures item.Content? ==> o.text.text == item.text.text
    ensures item.Block? ==> o.block.name.text == item.block.name.text && |o.block.content| == |item.block.content|
    ensures item.For? ==> o.forItem.loopLabel == item.forItem.loopLabel
                          && o.forItem.pat == item.forItem.pat && o.forItem.iter == item.forItem.iter
    decreases item, 1
  {
    match item
    case Content(t) => Content(CowIntoOwned(t))
    case Block(b) => Block(ItemBlock(CowIntoOwned(b.name), ItemsIntoOwned(b.content)))
    case For(f) => For(f.(content := ItemsIntoOwned(f.content)))
    case If(i) => If(ItemIf(i.cond, ItemsIntoOwned(i.content), BranchIntoOwned(i.branch)))
    case Match(m) => Match(m.(arms := ArmsIntoOwned(m.arms)))
    case Macro(m) => Macro(m.(content := ItemsIntoOwned(m.content)))
    case ExprItem(e) => ExprItem(ExprIntoOwned(e))
  }

  /** `IfBranch::into_owned`: the same `ElseIf`/`Else`/`End` shape, tail included. */
  function BranchIntoOwned(b: IfBranch): (o: IfBranch)
    ensures (o.ElseIf? <==> b.ElseIf?) && (o.Else? <==> b.Else?) && (o.End? <==> b.End?)
    ensures b.ElseIf? ==> o.cond == b.cond && (o.branch.End? <==> b.branch.End?)
    decreases b, 1
  {
    match b
    case ElseIf(c, content, tail) => ElseIf(c, ItemsIntoOwned(content), BranchIntoOwned(tail))
    case Else(content) => Else(ItemsIntoOwned(content))
    case End => End
  }

  /** `MatchArm::into_owned` for every arm, in order. */
  function ArmsIntoOwned(arms: seq<MatchArm>): (r: seq<MatchArm>)
    ensures |r| == |arms|
    ensures forall i :: 0 <= i < |arms| ==> r[i] == arms[i].(content := ItemsIntoOwned(arms[i].content))
    decreases arms, 0
  {
    if arms == [] then []
    else [arms[0].(content := ItemsIntoOwned(arms[0].content))] + ArmsIntoOwned(arms[1..])
  }

  /** `Expr::into_owned`: each variant to itself, strings made owned. */
  function ExprIntoOwned(e: Expr): (o: Expr)
    ensures SameExpr(e, o) && OwnedExpr(o)
    ensures e.SuperCall? <==> o.SuperCall?
    ensures !e.Extends? && !e.Include? ==> o == e
  {
    match e
    case Extends(v) => Extends(CowIntoOwned(v))
    case Include(v, args) => Include(CowIntoOwned(v), args)
    case _ => e
  }

  // ---------------------------------------------------------------------
  // Ownership and value equality

  /** Every string in the tree is owned. */
  predicate OwnedItems(items: seq<Item>)
    decreases items, 0
  {
    forall i :: 0 <= i < |items| ==> OwnedItem(items[i])
  }

  predicate OwnedItem(item: Item)
    decreases item, 1
  {
    match item
    case Content(t) => t.Owned?
    case Block(b) => b.name.Owned? && OwnedItems(b.content)
    case For(f) => OwnedItems(f.content)
    case If(i) => OwnedItems(i.content) && OwnedBranch(i.branch)
    case Match(m) => forall k :: 0 <= k < |m.arms| ==> OwnedItems(m.arms[k].content)
    case Macro(m) => OwnedItems(m.content)
    case ExprItem(e) => OwnedExpr(e)
  }

  predicate OwnedBranch(b: IfBranch)
    decreases b, 1
  {
    match b
    case ElseIf(_, content, tail) => OwnedItems(content) && OwnedBranch(tail)
    case Else(content) => OwnedItems(content)
    case End => true
  }

  predicate OwnedExpr(e: Expr)
  {
    match e
    case Extends(v) => v.Owned?
    case Include(v, _) => v.Owned?
    case _ => true
  }

  /**
   * Equality as the derived `PartialEq` sees it: a `Cow` compares by its
   * text, whether borrowed or owned; everything else compares as is.
   */
  predicate SameItems(a: seq<Item>, b: seq<Item>)
    decreases a, 0
  {
    |a| == |b| && forall i :: 0 <= i < |a| ==> SameItem(a[i], b[i])
  }

  predicate SameItem(a: Item, b: Item)
    decreases a, 1
  {
    match (a, b)
    case (Content(s), Content(t)) => s.text == t.text
    case (Block(x), Block(y)) => x.name.text == y.name.text && SameItems(x.content, y.content)
    case (For(x), For(y)) =>
      x.loopLabel == y.loopLabel && x.pat == y.pat && x.iter == y.iter && SameItems(x.content, y.content)
    case (If(x), If(y)) => x.cond == y.cond && SameItems(x.content, y.content) && SameBranch(x.branch, y.branch)
    case (Match(x), Match(y)) =>
      x.scrutinee == y.scrutinee && |x.arms| == |y.arms|
      && forall k :: 0 <= k < |x.arms| ==>
           x.arms[k].pat == y.arms[k].pat && x.arms[k].guard == y.arms[k].guard
           && SameItems(x.arms[k].content, y.arms[k].content)
    case (Macro(x), Macro(y)) => x.name == y.name && x.args == y.args && SameItems(x.content, y.content)
    case (ExprItem(x), ExprItem(y)) => SameExpr(x, y)
    case _ => false
  }

  predicate SameBranch(a: IfBranch, b: IfBranch)
    decreases a, 1
  {
    match (a, b)
    case (ElseIf(c, x, s), ElseIf(d, y, t)) => c == d && SameItems(x, y) && SameBranch(s, t)
    case (Else(x), Else(y)) => SameItems(x, y)
    case (End, End) => true
    case _ => false
  }

  predicate SameExpr(a: Expr, b: Expr)
  {
    match (a, b)
    case (Extends(s), Extends(t)) => s.text == t.text
    case (Include(s, x), Include(t, y)) => s.text == t.text && x == y
    case (Extends(_), _) => false
    case (Include(_, _), _) => false
    case (_, _) => a == b
  }

  // ---------------------------------------------------------------------
  // into_owned is an owned copy of the same value

  /**
   * `into_owned` of a list of items is owned, equal as a value to the
   * input, and the identity on input that is already owned.
   */
  lemma {:induction false} ItemsIntoOwnedCopies(items: seq<Item>)
    ensures OwnedItems(ItemsIntoOwned(items))
    ensures SameItems(items, ItemsIntoOwned(items))
    ensures OwnedItems(items) ==> ItemsIntoOwned(items) == items
    decreases items, 0
  {
    forall i | 0 <= i < |items| ensures OwnedItem(ItemsIntoOwned(items)[i]) && SameItem(items[i], ItemsIntoOwned(items)[i]) {
      ItemIntoOwnedCopies(items[i]);
    }
    if OwnedItems(items) {
      forall i | 0 <= i < |items| ensures ItemsIntoOwned(items)[i] == items[i] {
        ItemIntoOwnedCopies(items[i]);
      }
    }
  }

  lemma {:induction false} ItemIntoOwnedCopies(item: Item)
    ensures OwnedItem(ItemIntoOwned(item)) && SameItem(item, ItemIntoOwned(item))
    ensures OwnedItem(item) ==> ItemIntoOwned(item) == item
    decreases item, 1
  {
    match item
    case Content(_) =>
    case Block(b) => ItemsIntoOwnedCopies(b.content);
    case For(f) => ItemsIntoOwnedCopies(f.content);
    case If(i) =>
      ItemsIntoOwnedCopies(i.content);
      BranchIntoOwnedCopies(i.branch);
    case Match(m) =>
      forall k | 0 <= k < |m.arms|
        ensures OwnedItems(ItemsIntoOwned(m.arms[k].content)) && SameItems(m.arms[k].content, ItemsIntoOwned(m.arms[k].content))
        ensures OwnedItems(m.arms[k].content) ==> ItemsIntoOwned(m.arms[k].content) == m.arms[k].content
      {
        ItemsIntoOwnedCopies(m.arms[k].content);
      }
      if OwnedItem(item) {
        assert ArmsIntoOwned(m.arms) == m.arms;
      }
    case Macro(m) => ItemsIntoOwnedCopies(m.content);
    case ExprItem(_) =>
  }

  lemma {:induction false} BranchIntoOwnedCopies(b: IfBranch)
    ensures OwnedBranch(BranchIntoOwned(b)) && SameBranch(b, BranchIntoOwned(b))
    ensures OwnedBranch(b) ==> BranchIntoOwned(b) == b
    decreases b, 1
  {
    match b
    case ElseIf(_, content, tail) =>
      ItemsIntoOwnedCopies(content);
      BranchIntoOwnedCopies(tail);
    case Else(content) => ItemsIntoOwnedCopies(content);
    case End =>
  }

  /** `Root::into_owned` is an owned copy equal to its input, and idempotent. */
  lemma RootIntoOwnedIdempotent(r: Root)
    ensures OwnedItems(RootIntoOwned(r).content) && SameItems(r.content, RootIntoOwned(r).content)
    ensures RootIntoOwned(RootIntoOwned(r)) == RootIntoOwned(r)
  {
    ItemsIntoOwnedCopies(r.content);
    ItemsIntoOwnedCopies(RootIntoOwned(r).content);
  }
}
