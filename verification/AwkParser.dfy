/** parse_expr: the expression parser that keeps parent links and climbs them to find the place of an operator. */
module AwkParser {
  import opened Bits
  import opened AwkGrammar
  import opened AwkNodes

  /** What next_token is told to accept (`xtc`): at the start, after an operator, an operand, or a postfix operator. */
  datatype Expected = AtStart | AfterOperator | AfterOperand | AfterPostfix

  /** How a call ends: with an error message, with an access through a null pointer, without a tree, or with a root. */
  datatype Parsed = SyntaxError | NullAccess | NoTree | Root(node: nat)

  ghost predicate Expects(xtc: Expected, st: seq<Frame>, cur: Current) {
    match cur
    case Wanted => if st == [] then xtc == AtStart else xtc == AfterOperator
    case Have(t) => if t.Suf? then xtc == AfterPostfix else xtc == AfterOperand
  }

  /** The nodes show the state of the reading; `cn` is the last node. */
  ghost predicate Shows(nodes: seq<Cell>, lo: int, top: int, st: seq<Frame>, cur: Current, cn: int) {
    if cur.Wanted? then cn == top && OpenAt(nodes, lo, top, st) else HoldsAt(nodes, lo, top, st, cn, cur.t)
  }

  /** The parser has read `s` from its tokens as the reading does. */
  ghost predicate Agrees(r: Parsed, o: Outcome, nodes: seq<Cell>, sn: int, left: seq<Token>) {
    match o
    case Fails => r == SyntaxError
    case Crashes => r == NullAccess
    case Empty(rest) => r == NoTree && left == rest
    case Done(t, rest) => r.Root? && left == rest && HoldsAt(nodes, sn + 1, sn, [], r.node, t)
  }

  /** The token classes that `xtc` stands for, terminators aside. */
  predicate Accepts(xtc: Expected, tok: Token) {
    match tok
    case Close(_) => false
    case Postfix(_) => xtc == AfterOperand
    case Binary(_) => xtc == AfterOperand || xtc == AfterPostfix
    case _ => xtc == AtStart || xtc == AfterOperator
  }

  function After(tok: Token): Expected {
    if tok.Operand? || tok.Open? then AfterOperand else if tok.Postfix? then AfterPostfix else AfterOperator
  }

  lemma Ahead(tokens: seq<Token>, pos: nat)
    requires pos < |tokens|
    ensures tokens[pos..] != [] && tokens[pos..][0] == tokens[pos] && tokens[pos..][1..] == tokens[pos + 1..]
  {
  }

  lemma ExpectsMeans(xtc: Expected, st: seq<Frame>, cur: Current, tok: Token)
    requires Expects(xtc, st, cur)
    ensures tok.Open? ==> Accepts(xtc, tok) == cur.Wanted?
    ensures !tok.Open? && !tok.Close? ==> Accepts(xtc, tok) == Taken(cur, tok)
    ensures (xtc == AtStart) == (cur.Wanted? && st == []) && (xtc == AfterOperator) == (cur.Wanted? && st != [])
    ensures Taken(cur, tok) ==> Expects(After(tok), Next(st, cur, tok).0, Next(st, cur, tok).1) == true
    ensures tok.Open? ==> forall u :: Expects(After(tok), st, Have(Group(u))) == true
  {
  }

  lemma SpineBounds(nodes: seq<Cell>, lo: int, top: int, st: seq<Frame>)
    requires SpineLinked(nodes, lo, top, st)
    ensures 1 <= lo <= top + 1 <= |nodes|
  {
  }

  class Parser {
    const tokens: seq<Token>
    var pos: nat
    var nodes: seq<Cell>

    ghost predicate Valid()
      reads this
    {
      pos <= |tokens|
    }

    constructor (tokens: seq<Token>)
      ensures Valid() && pos == 0 && nodes == [] && this.tokens == tokens
    {
      this.tokens := tokens;
      pos := 0;
      nodes := [];
    }

    /** For operands and prefix operators: a new node under the last one. */
    method Attached(cn: int, tok: Token) returns (n: int)
      requires 0 <= cn < |nodes|
      modifies this`nodes
      ensures nodes == Attach(old(nodes), cn, tok) && n == |old(nodes)|
    {
      n := |nodes|;
      nodes := nodes + [Cell(tok, NULL, NULL, NULL)];
      nodes := nodes[cn := nodes[cn].(r := n)];
      nodes := nodes[n := nodes[n].(a := cn)];
    }

    /** From the last node upwards, to the one that an operator of priority p takes as its operand. */
    method Climbed(cn: int, p: Priority, ghost lo: int, ghost top0: int, ghost st0: seq<Frame>, ghost t0: Tree)
      returns (vn: int, ghost top: int, ghost st: seq<Frame>, ghost t: Tree)
      requires HoldsAt(nodes, lo, top0, st0, cn, t0)
      ensures HoldsAt(nodes, lo, top, st, vn, t) && (st, t) == Climb(st0, t0, p)
    {
      vn, top, st, t := cn, top0, st0, t0;
      ParentPrio(nodes, lo, top, st);
      while p > Loose(Prio(nodes[nodes[vn].a]))
        invariant HoldsAt(nodes, lo, top, st, vn, t) == true
        invariant 0 <= top < |nodes| && Loose(Prio(nodes[top])) == Lim(st)
        invariant 0 <= vn < |nodes| && nodes[vn].Cell? && nodes[vn].a == top
        invariant Climb(st, t, p) == Climb(st0, t0, p)
        decreases |st|
      {
        ClimbLinked(nodes, lo, top, st, vn, t);
        vn := nodes[vn].a;
        top, st, t := nodes[top].a, st[..|st| - 1], Plug(st[|st| - 1], t);
        ParentPrio(nodes, lo, top, st);
      }
    }

    /** For binary and postfix operators: a new node between `vn` and its parent. */
    method Inserted(vn: int, tok: Token) returns (n: int)
      requires 0 <= vn < |nodes| && nodes[vn].Cell? && 0 <= nodes[vn].a < vn
      requires tok.Binary? || tok.Postfix?
      modifies this`nodes
      ensures n == |old(nodes)|
      ensures tok.Binary? ==> nodes == Insert(old(nodes), vn, Cell(tok, vn, NULL, old(nodes)[vn].a))
      ensures tok.Postfix? ==> nodes == Insert(old(nodes), vn, Cell(tok, NULL, vn, old(nodes)[vn].a))
    {
      n := |nodes|;
      var up := nodes[vn].a;
      nodes := nodes + [Cell(tok, NULL, NULL, NULL)];
      nodes := nodes[up := nodes[up].(r := n)];
      nodes := nodes[n := nodes[n].(a := up)];
      if tok.Binary? {
        nodes := nodes[n := nodes[n].(l := vn)];
      } else {
        nodes := nodes[n := nodes[n].(r := vn)];
      }
      nodes := nodes[vn := nodes[vn].(a := n)];
    }

    /** For a group that has been read: its root takes the place of its parenthesis. */
    method Grouped(cn: int, root: int, ghost was: seq<Cell>, ghost lo: int, ghost top: int, ghost st: seq<Frame>,
                   ghost u: Tree)
      returns (n: int)
      requires OpenAt(was, lo, top, st) && cn == top
      requires HoldsAt(nodes, |was| + 2, |was| + 1, [], root, u)
      requires |nodes| > |was| + 1 && nodes[..|was| + 1] == Attach(was, top, Open)
      modifies this`nodes
      ensures n == root && HoldsAt(nodes, lo, top, st, root, Group(u))
      ensures nodes[..lo - 1] == was[..lo - 1]
    {
      AttachGroup(was, nodes, lo, top, st, root, u);
      n := root;
      nodes := nodes[cn := nodes[cn].(r := root)];
      nodes := nodes[root := nodes[root].(a := cn)];
    }

    /** Links in an operand or an operator. */
    method Take(cn: int, tok: Token, ghost lo: int, ghost top0: int, ghost st0: seq<Frame>, ghost cur0: Current)
      returns (n: int, ghost top: int, ghost st: seq<Frame>, ghost cur: Current)
      requires Shows(nodes, lo, top0, st0, cur0, cn) == true && Taken(cur0, tok)
      modifies this`nodes
      ensures (st, cur) == Next(st0, cur0, tok)
      ensures Shows(nodes, lo, top, st, cur, n) == true
      ensures |nodes| == |old(nodes)| + 1 && 1 <= lo <= |nodes| && nodes[..lo - 1] == old(nodes)[..lo - 1]
    {
      top, st, cur := top0, st0, cur0;
      match tok
      case Operand(v) =>
        AttachOperand(nodes, lo, top, st, v);
        n := Attached(cn, tok);
        cur := Have(Leaf(v));
      case Prefix(op) =>
        AttachPrefix(nodes, lo, top, st, op);
        n := Attached(cn, tok);
        st, top := st + [Under(op)], n;
      case Postfix(op) =>
        var vn: int;
        ghost var t: Tree;
        vn, top, st, t := Climbed(cn, op.prio, lo, top, st, cur.t);
        InsertPostfix(nodes, lo, top, st, vn, t, op);
        SpineBounds(nodes, lo, top, st);
        n := Inserted(vn, tok);
        cur := Have(Suf(op, t));
      case Binary(op) =>
        var vn: int;
        ghost var t: Tree;
        vn, top, st, t := Climbed(cn, op.prio, lo, top, st, cur.t);
        InsertBinary(nodes, lo, top, st, vn, t, op);
        SpineBounds(nodes, lo, top, st);
        n := Inserted(vn, tok);
        st, top, cur := st + [Right(op, t)], n, Wanted;
    }

    /** Reads a group, after its opening parenthesis, and links in its root. */
    method TakeGroup(cn: int, ghost g: Outcome, ghost lo: int, ghost top: int, ghost st: seq<Frame>)
      returns (r: Parsed)
      requires Valid() && Shows(nodes, lo, top, st, Wanted, cn) == true
      requires ReadsAs([], Wanted, tokens[pos..], PAREN, g)
      modifies this
      ensures Valid() && pos >= old(pos)
      ensures |nodes| >= |old(nodes)| && 1 <= lo <= |nodes| && nodes[..lo - 1] == old(nodes)[..lo - 1]
      ensures !g.Done? ==> r == if g.Fails? then SyntaxError else NullAccess
      ensures g.Done? ==>
                r.Root? && g.rest == tokens[pos..] && Shows(nodes, lo, top, st, Have(Group(g.tree)), r.node) == true
      decreases |tokens| - pos, 1
    {
      ghost var was := nodes;
      SpineBounds(nodes, lo, top, st);
      var paren := Attached(cn, Open);
      ghost var mid := nodes;
      r := ParseTokens(PAREN, g);
      if r == NoTree {
        r := NullAccess;   // the root of an empty group is null, and its parent link is written next
      }
      if r.Root? {
        assert nodes[..|mid|] == mid;
        var n := Grouped(cn, r.node, was, lo, top, st, g.tree);
      }
    }

    /** The loop, on a reading that gives `o`. */
    method ParseTokens(kind: nat, ghost o: Outcome) returns (r: Parsed)
      requires Valid() && ReadsAs([], Wanted, tokens[pos..], kind, o)
      modifies this
      ensures Valid() && pos >= old(pos)
      ensures old(nodes) <= nodes
      ensures Agrees(r, o, nodes, |old(nodes)|, tokens[pos..])
      decreases |tokens| - pos, 0
    {
      var sn := |nodes|;
      nodes := nodes + [Anchor(NULL)];
      var cn, xtc := sn, AtStart;
      ghost var lo := sn + 1;
      ghost var st: seq<Frame>, cur, top := [], Wanted, sn;
      while pos < |tokens|
        invariant Valid() && old(pos) <= pos && sn < |nodes| && nodes[..sn] == old(nodes)
        invariant Expects(xtc, st, cur) == true
        invariant Shows(nodes, lo, top, st, cur, cn) == true
        invariant ReadsAs(st, cur, tokens[pos..], kind, o)
        decreases |tokens| - pos
      {
        var tok := tokens[pos];
        ghost var left := tokens[pos..];
        Ahead(tokens, pos);
        ExpectsMeans(xtc, st, cur, tok);
        pos := pos + 1;
        if tok.Close? {
          ReadClose(st, cur, left, kind, o);
          if tok.kind != kind || xtc == AfterOperator {
            return SyntaxError;
          }
          if xtc == AtStart {
            return NoTree;
          }
          ghost var root := PlugAllLinked(nodes, lo, top, st, cn, cur.t);
          return Root(nodes[sn].r);
        }
        if !Accepts(xtc, tok) {
          ReadRefused(st, cur, left, kind, o);
          return SyntaxError;
        }
        if tok.Open? {
          ghost var g := ReadOpen(st, left, kind, o);
          var group := TakeGroup(cn, g, lo, top, st);
          if !group.Root? {
            return group;
          }
          cn, cur := group.node, Have(Group(g.tree));
        } else {
          ReadTaken(st, cur, left, kind, o);
          cn, top, st, cur := Take(cn, tok, lo, top, st, cur);
        }
        xtc := After(tok);
      }
      ReadRefused(st, cur, tokens[pos..], kind, o);
      r := SyntaxError;
    }

    /**
     * Reads an expression up to its terminator. The result is what the reading defines: a syntax error, an access
     * through a null pointer, no tree, or the root of linked nodes that hold the tree.
     */
    method ParseExpr(kind: nat) returns (r: Parsed)
      requires Valid()
      modifies this
      ensures Valid() && pos >= old(pos)
      ensures old(nodes) <= nodes
      ensures Agrees(r, Read([], Wanted, tokens[old(pos)..], kind), nodes, |old(nodes)|, tokens[pos..])
    {
      ghost var o := Read([], Wanted, tokens[pos..], kind);
      r := ParseTokens(kind, o);
    }
  }
}
