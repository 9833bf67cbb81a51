/** The linked nodes of parse_expr. Nodes are numbered in the order in which they are made, which is the order of the
tokens, so that the nodes of a subtree are the numbers of an interval. */
module AwkNodes {
  import opened AwkGrammar

  const NULL := -1

  /** A node: its token, its links to the left and right operand, and the one back; or the anchor `sn` of a call. */
  datatype Cell = Anchor(r: int) | Cell(tok: Token, l: int, r: int, a: int)

  function Prio(c: Cell): int {
    if c.Anchor? then 127 else
    match c.tok
    case Prefix(op) => op.prio
    case Postfix(op) => op.prio
    case Binary(op) => op.prio
    case _ => 0
  }

  /**
   * The nodes from `lo` up to `hi` are those of `t`, linked both ways, with the root `n` under the parent `par`. A
   * group takes two nodes besides those of its tree: the one made for its parenthesis, and the anchor of the call
   * that read it.
   */
  ghost predicate Linked(nodes: seq<Cell>, lo: int, n: int, hi: int, t: Tree, par: int)
    decreases t
  {
    && 0 <= lo <= n < hi <= |nodes|
    && nodes[n].Cell? && nodes[n].a == par
    && match t {
         case Leaf(v) => nodes[n].tok == Operand(v) && lo == n && hi == n + 1
         case Group(u) => Linked(nodes, lo + 2, n, hi, u, par)
         case Pre(op, r) => nodes[n].tok == Prefix(op) && lo == n && Linked(nodes, n + 1, nodes[n].r, hi, r, n)
         case Suf(op, l) => nodes[n].tok == Postfix(op) && hi == n + 1 && Linked(nodes, lo, nodes[n].r, n, l, n)
         case Node(op, l, r) =>
           && nodes[n].tok == Binary(op)
           && Linked(nodes, lo, nodes[n].l, n, l, n) && Linked(nodes, n + 1, nodes[n].r, hi, r, n)
       }
  }

  lemma {:induction false} LinkedFrame(nodes: seq<Cell>, after: seq<Cell>, lo: int, n: int, hi: int, t: Tree, par: int)
    requires Linked(nodes, lo, n, hi, t, par) && hi <= |after|
    requires forall i :: lo <= i < hi ==> after[i] == nodes[i]
    ensures Linked(after, lo, n, hi, t, par)
    decreases t
  {
    match t
    case Leaf(_) =>
    case Group(u) => LinkedFrame(nodes, after, lo + 2, n, hi, u, par);
    case Pre(_, r) => LinkedFrame(nodes, after, n + 1, nodes[n].r, hi, r, n);
    case Suf(_, l) => LinkedFrame(nodes, after, lo, nodes[n].r, n, l, n);
    case Node(_, l, r) =>
      LinkedFrame(nodes, after, lo, nodes[n].l, n, l, n);
      LinkedFrame(nodes, after, n + 1, nodes[n].r, hi, r, n);
  }

  /** Moving a tree under another parent changes one link. */
  lemma {:induction false} Reparent(nodes: seq<Cell>, after: seq<Cell>, lo: int, n: int, hi: int, t: Tree, par: int,
                                    to: int)
    requires Linked(nodes, lo, n, hi, t, par) && hi <= |after|
    requires forall i :: lo <= i < hi && i != n ==> after[i] == nodes[i]
    requires after[n] == nodes[n].(a := to)
    ensures Linked(after, lo, n, hi, t, to)
    decreases t
  {
    match t
    case Leaf(_) =>
    case Group(u) => Reparent(nodes, after, lo + 2, n, hi, u, par, to);
    case Pre(_, r) => LinkedFrame(nodes, after, n + 1, nodes[n].r, hi, r, n);
    case Suf(_, l) => LinkedFrame(nodes, after, lo, nodes[n].r, n, l, n);
    case Node(_, l, r) =>
      LinkedFrame(nodes, after, lo, nodes[n].l, n, l, n);
      LinkedFrame(nodes, after, n + 1, nodes[n].r, hi, r, n);
  }

  /** The open nodes of the right spine: `top` is the last of them, or the anchor, which stands right before `lo`. */
  ghost predicate SpineLinked(nodes: seq<Cell>, lo: int, top: int, st: seq<Frame>)
    decreases |st|
  {
    && 1 <= lo <= top + 1 <= |nodes|
    && if st == [] then top == lo - 1 && nodes[top].Anchor? else
         var f := st[|st| - 1];
         && nodes[top].Cell?
         && var up := nodes[top].a;
         && SpineLinked(nodes, lo, up, st[..|st| - 1]) && up < top && nodes[up].r == top
         && match f {
              case Under(op) => nodes[top].tok == Prefix(op) && top == up + 1
              case Right(op, l) => nodes[top].tok == Binary(op) && Linked(nodes, up + 1, nodes[top].l, top, l, top)
            }
  }

  /** An operand is wanted: the last node made is open. */
  ghost predicate OpenAt(nodes: seq<Cell>, lo: int, top: int, st: seq<Frame>) {
    SpineLinked(nodes, lo, top, st) && |nodes| == top + 1
  }

  /** The tree `t`, with the root `n`, hangs under the last open node, and its nodes are the last ones made. */
  ghost predicate HoldsAt(nodes: seq<Cell>, lo: int, top: int, st: seq<Frame>, n: int, t: Tree) {
    SpineLinked(nodes, lo, top, st) && nodes[top].r == n && Linked(nodes, top + 1, n, |nodes|, t, top)
  }

  predicate SameButRight(c: Cell, d: Cell) {
    (c.Anchor? && d.Anchor?) || (c.Cell? && d.Cell? && c.tok == d.tok && c.l == d.l && c.a == d.a)
  }

  lemma {:induction false} SpineFrame(nodes: seq<Cell>, after: seq<Cell>, lo: int, top: int, st: seq<Frame>)
    requires SpineLinked(nodes, lo, top, st) && top < |after|
    requires forall i :: lo - 1 <= i < top ==> after[i] == nodes[i]
    requires SameButRight(nodes[top], after[top])
    ensures SpineLinked(after, lo, top, st)
    decreases |st|
  {
    if st != [] {
      var up := nodes[top].a;
      SpineFrame(nodes, after, lo, up, st[..|st| - 1]);
      match st[|st| - 1]
      case Under(_) =>
      case Right(_, l) => LinkedFrame(nodes, after, up + 1, nodes[top].l, top, l, top);
    }
  }

  /** What the climbing loop compares with. */
  lemma ParentPrio(nodes: seq<Cell>, lo: int, top: int, st: seq<Frame>)
    requires SpineLinked(nodes, lo, top, st)
    ensures 0 <= top < |nodes| && Loose(Prio(nodes[top])) == Lim(st)
  {
  }

  /** One step of the climb: nothing is relinked, the tree at hand is the whole of the next open node. */
  lemma ClimbLinked(nodes: seq<Cell>, lo: int, top: int, st: seq<Frame>, n: int, t: Tree)
    requires HoldsAt(nodes, lo, top, st, n, t) && st != []
    ensures nodes[top].Cell? && HoldsAt(nodes, lo, nodes[top].a, st[..|st| - 1], top, Plug(st[|st| - 1], t))
  {
  }

  lemma {:induction false} PlugAllLinked(nodes: seq<Cell>, lo: int, top: int, st: seq<Frame>, n: int, t: Tree)
    returns (root: int)
    requires HoldsAt(nodes, lo, top, st, n, t)
    ensures HoldsAt(nodes, lo, lo - 1, [], root, PlugAll(st, t))
    decreases |st|
  {
    if st == [] {
      root := n;
    } else {
      ClimbLinked(nodes, lo, top, st, n, t);
      root := PlugAllLinked(nodes, lo, nodes[top].a, st[..|st| - 1], top, Plug(st[|st| - 1], t));
    }
  }

  // The ways in which a token is linked in.

  /** For operands and prefix operators: under the last node. */
  function Attach(nodes: seq<Cell>, cn: int, tok: Token): seq<Cell>
    requires 0 <= cn < |nodes|
  {
    nodes[cn := nodes[cn].(r := |nodes|)] + [Cell(tok, NULL, NULL, cn)]
  }

  lemma AttachOperand(nodes: seq<Cell>, lo: int, top: int, st: seq<Frame>, v: nat)
    requires OpenAt(nodes, lo, top, st)
    ensures HoldsAt(Attach(nodes, top, Operand(v)), lo, top, st, |nodes|, Leaf(v))
  {
    SpineFrame(nodes, Attach(nodes, top, Operand(v)), lo, top, st);
  }

  lemma AttachPrefix(nodes: seq<Cell>, lo: int, top: int, st: seq<Frame>, op: Op)
    requires OpenAt(nodes, lo, top, st)
    ensures OpenAt(Attach(nodes, top, Prefix(op)), lo, |nodes|, st + [Under(op)])
  {
    SpineFrame(nodes, Attach(nodes, top, Prefix(op)), lo, top, st);
    assert (st + [Under(op)])[..|st|] == st;
  }

  /**
   * For a group: its parenthesis is attached like an operand; the call that reads it makes its anchor and the nodes of
   * its tree; then its root takes the place of the parenthesis.
   */
  function Replace(nodes: seq<Cell>, cn: int, root: int): seq<Cell>
    requires 0 <= cn < root < |nodes| && nodes[root].Cell?
  {
    nodes[cn := nodes[cn].(r := root)][root := nodes[root].(a := cn)]
  }

  lemma AttachGroup(nodes: seq<Cell>, mid: seq<Cell>, lo: int, top: int, st: seq<Frame>, root: int, u: Tree)
    requires OpenAt(nodes, lo, top, st)
    requires HoldsAt(mid, |nodes| + 2, |nodes| + 1, [], root, u)
    requires |mid| > |nodes| + 1 && mid[..|nodes| + 1] == Attach(nodes, top, Open)
    ensures top < root < |mid| && mid[root].Cell? && HoldsAt(Replace(mid, top, root), lo, top, st, root, Group(u))
  {
    var after := Replace(mid, top, root);
    assert forall i :: 0 <= i < top ==> after[i] == mid[..|nodes| + 1][i] == nodes[i];
    assert SameButRight(nodes[top], after[top]) by {
      assert mid[..|nodes| + 1][top] == mid[top];
    }
    SpineFrame(nodes, after, lo, top, st);
    Reparent(mid, after, |nodes| + 2, root, |mid|, u, |nodes| + 1, top);
  }

  /** For binary and postfix operators: between the node `vn` and its parent. */
  function Insert(nodes: seq<Cell>, vn: int, cell: Cell): seq<Cell>
    requires 0 <= vn < |nodes| && nodes[vn].Cell? && 0 <= nodes[vn].a < vn
  {
    nodes[nodes[vn].a := nodes[nodes[vn].a].(r := |nodes|)][vn := nodes[vn].(a := |nodes|)] + [cell]
  }

  lemma InsertKeeps(nodes: seq<Cell>, lo: int, top: int, st: seq<Frame>, vn: int, t: Tree, cell: Cell)
    requires HoldsAt(nodes, lo, top, st, vn, t)
    ensures 0 <= top < vn < |nodes| && nodes[vn].Cell? && nodes[vn].a == top
    ensures var after := Insert(nodes, vn, cell);
            && SpineLinked(after, lo, top, st) && after[top].r == |nodes|
            && Linked(after, top + 1, vn, |nodes|, t, |nodes|)
            && |after| == |nodes| + 1 && after[|nodes|] == cell
  {
    var after := Insert(nodes, vn, cell);
    SpineFrame(nodes, after, lo, top, st);
    Reparent(nodes, after, top + 1, vn, |nodes|, t, top, |nodes|);
  }

  lemma InsertBinary(nodes: seq<Cell>, lo: int, top: int, st: seq<Frame>, vn: int, t: Tree, op: Op)
    requires HoldsAt(nodes, lo, top, st, vn, t)
    ensures 0 <= top < vn < |nodes| && nodes[vn].Cell? && nodes[vn].a == top
    ensures OpenAt(Insert(nodes, vn, Cell(Binary(op), vn, NULL, top)), lo, |nodes|, st + [Right(op, t)])
  {
    InsertKeeps(nodes, lo, top, st, vn, t, Cell(Binary(op), vn, NULL, top));
    assert (st + [Right(op, t)])[..|st|] == st;
  }

  lemma InsertPostfix(nodes: seq<Cell>, lo: int, top: int, st: seq<Frame>, vn: int, t: Tree, op: Op)
    requires HoldsAt(nodes, lo, top, st, vn, t)
    ensures 0 <= top < vn < |nodes| && nodes[vn].Cell? && nodes[vn].a == top
    ensures HoldsAt(Insert(nodes, vn, Cell(Postfix(op), NULL, vn, top)), lo, top, st, |nodes|, Suf(op, t))
  {
    InsertKeeps(nodes, lo, top, st, vn, t, Cell(Postfix(op), NULL, vn, top));
  }
}
