/** What the priority numbers of awk's operators mean, without reference to the parser: which of two operators takes the
other as its operand, and which operator of a whole expression is its root. */
module AwkRank {
  import opened AwkGrammar
  import opened AwkShape

  /** An operator of priority q, behind one of priority p, takes it over: it is of a looser class, or of the same one
  and groups to the left. */
  predicate Overtakes(q: int, p: int) {
    q / 2 > p / 2 || (q / 2 == p / 2 && q % 2 == 1)
  }

  lemma OvertakesIs(q: int, p: int)
    ensures q > Loose(p) <==> Overtakes(q, p)
  {
  }

  // ----- expressions of binary operators -----

  /** Binary operators between operands and groups. */
  predicate Plain(t: Tree) {
    match t
    case Leaf(_) => true
    case Group(_) => true
    case Node(_, l, r) => Plain(l) && Plain(r)
    case _ => false
  }

  /** The operators of an expression, outside its groups. */
  function Ops(t: Tree): set<Op> {
    if t.Node? then {t.op} + Ops(t.l) + Ops(t.r) else {}
  }

  /** Every operator takes over all operators of its left operand, and is taken over by none of its right operand. */
  ghost predicate Ranked(t: Tree) {
    t.Node? ==>
      && Ranked(t.l) && Ranked(t.r)
      && (forall o :: o in Ops(t.l) ==> Overtakes(t.op.prio, o.prio))
      && (forall o :: o in Ops(t.r) ==> !Overtakes(o.prio, t.op.prio))
  }

  /** What stands in the groups has the right shape. */
  predicate GroupsShaped(t: Tree) {
    match t
    case Group(u) => Shaped(u)
    case Node(_, l, r) => GroupsShaped(l) && GroupsShaped(r)
    case _ => true
  }

  lemma {:induction false} RightBelowMore(t: Tree, q: int, p: int)
    requires RightBelow(t, q) && p > Loose(q)
    ensures RightBelow(t, p)
  {
    match t
    case Pre(_, r) => RightBelowMore(r, q, p);
    case Node(_, _, r) => RightBelowMore(r, q, p);
    case _ =>
  }

  lemma {:induction false} BelowAll(t: Tree, p: int)
    requires Plain(t) && Shaped(t) && RightBelow(t, p)
    ensures forall o :: o in Ops(t) ==> Overtakes(p, o.prio)
  {
    if t.Node? {
      OvertakesIs(p, t.op.prio);
      RightBelowMore(t.l, t.op.prio, p);
      BelowAll(t.l, p);
      BelowAll(t.r, p);
    }
  }

  lemma {:induction false} BelowFrom(t: Tree, p: int)
    requires Plain(t) && forall o :: o in Ops(t) ==> Overtakes(p, o.prio)
    ensures RightBelow(t, p)
  {
    if t.Node? {
      assert t.op in Ops(t);
      OvertakesIs(p, t.op.prio);
      BelowFrom(t.r, p);
    }
  }

  lemma {:induction false} FitsAll(t: Tree, p: int, b: int)
    requires Plain(t) && Shaped(t) && LeftFits(t, b) && b <= Loose(p)
    ensures forall o :: o in Ops(t) ==> !Overtakes(o.prio, p)
  {
    if t.Node? {
      OvertakesIs(t.op.prio, p);
      FitsAll(t.l, p, b);
      FitsAll(t.r, p, Loose(t.op.prio));
    }
  }

  lemma {:induction false} FitsFrom(t: Tree, p: int)
    requires Plain(t) && forall o :: o in Ops(t) ==> !Overtakes(o.prio, p)
    ensures LeftFits(t, Loose(p))
  {
    if t.Node? {
      assert t.op in Ops(t);
      OvertakesIs(t.op.prio, p);
      FitsFrom(t.l, p);
    }
  }

  /** The shape of such an expression is fixed by the numbers alone. */
  lemma {:induction false} ShapedByRank(t: Tree)
    requires Plain(t)
    ensures Shaped(t) <==> Ranked(t) && GroupsShaped(t)
  {
    if t.Node? {
      ShapedByRank(t.l);
      ShapedByRank(t.r);
      if Shaped(t) {
        BelowAll(t.l, t.op.prio);
        FitsAll(t.r, t.op.prio, Loose(t.op.prio));
      }
      if Ranked(t) {
        BelowFrom(t.l, t.op.prio);
        FitsFrom(t.r, t.op.prio);
      }
    }
  }

  /** So the parser reads it as the tree in which every operator takes over all operators to its left, and none to its
  right takes it over. */
  lemma ReadRanked(t: Tree, rest: seq<Token>, kind: nat)
    requires Plain(t) && Spaced(Flat(t))
    ensures Read([], Wanted, Flat(t) + [Close(kind)] + rest, kind) == Done(t, rest)
            <==> Ranked(t) && GroupsShaped(t)
  {
    ShapedByRank(t);
    ReadIff(Flat(t) + [Close(kind)] + rest, t, rest, kind);
  }

  // ----- two operators -----

  /** An operand, or a group of the right shape. */
  predicate Atom(t: Tree) {
    Spaced(Flat(t)) && (t.Leaf? || (t.Group? && Shaped(t.t)))
  }

  /** `a p b q c`. */
  lemma TwoBinary(p: Op, q: Op, a: Tree, b: Tree, c: Tree, rest: seq<Token>, kind: nat)
    requires Atom(a) && Atom(b) && Atom(c)
    ensures Read([], Wanted, Flat(a) + [Binary(p)] + Flat(b) + [Binary(q)] + Flat(c) + [Close(kind)] + rest, kind)
            == Done(if q.prio / 2 > p.prio / 2 || (q.prio / 2 == p.prio / 2 && q.prio % 2 == 1)
                    then Node(q, Node(p, a, b), c) else Node(p, a, Node(q, b, c)), rest)
  {
    OvertakesIs(q.prio, p.prio);
    var flat := Flat(a) + [Binary(p)] + Flat(b) + [Binary(q)] + Flat(c);
    SpacedNode(p, Flat(a), Flat(b));
    SpacedNode(q, Flat(a) + [Binary(p)] + Flat(b), Flat(c));
    var t := if Overtakes(q.prio, p.prio) then Node(q, Node(p, a, b), c) else Node(p, a, Node(q, b, c));
    assert Flat(t) == flat;
    ReadsBack(t, rest, kind);
  }

  /** `p a q b`, with a prefix operator p. */
  lemma PrefixBinary(p: Op, q: Op, a: Tree, b: Tree, rest: seq<Token>, kind: nat)
    requires Atom(a) && Atom(b)
    ensures Read([], Wanted, [Prefix(p)] + Flat(a) + [Binary(q)] + Flat(b) + [Close(kind)] + rest, kind)
            == Done(if q.prio / 2 > p.prio / 2 || (q.prio / 2 == p.prio / 2 && q.prio % 2 == 1)
                    then Node(q, Pre(p, a), b) else Pre(p, Node(q, a, b)), rest)
  {
    OvertakesIs(q.prio, p.prio);
    var flat := [Prefix(p)] + Flat(a) + [Binary(q)] + Flat(b);
    SpacedJoin([Prefix(p)], Flat(a));
    SpacedNode(q, [Prefix(p)] + Flat(a), Flat(b));
    var t := if Overtakes(q.prio, p.prio) then Node(q, Pre(p, a), b) else Pre(p, Node(q, a, b));
    assert Flat(t) == flat;
    ReadsBack(t, rest, kind);
  }

  /** `a p b q`, with a postfix operator q. */
  lemma BinaryPostfix(p: Op, q: Op, a: Tree, b: Tree, rest: seq<Token>, kind: nat)
    requires Atom(a) && Atom(b)
    ensures Read([], Wanted, Flat(a) + [Binary(p)] + Flat(b) + [Postfix(q)] + [Close(kind)] + rest, kind)
            == Done(if q.prio / 2 > p.prio / 2 || (q.prio / 2 == p.prio / 2 && q.prio % 2 == 1)
                    then Suf(q, Node(p, a, b)) else Node(p, a, Suf(q, b)), rest)
  {
    OvertakesIs(q.prio, p.prio);
    var flat := Flat(a) + [Binary(p)] + Flat(b) + [Postfix(q)];
    SpacedNode(p, Flat(a), Flat(b));
    FlatEnds(b);
    SpacedJoin(Flat(a) + [Binary(p)] + Flat(b), [Postfix(q)]);
    var t := if Overtakes(q.prio, p.prio) then Suf(q, Node(p, a, b)) else Node(p, a, Suf(q, b));
    assert Flat(t) == flat;
    ReadsBack(t, rest, kind);
  }

  /** `p a q`, with a prefix operator p and a postfix operator q. */
  lemma PrefixPostfix(p: Op, q: Op, a: Tree, rest: seq<Token>, kind: nat)
    requires Atom(a)
    ensures Read([], Wanted, [Prefix(p)] + Flat(a) + [Postfix(q)] + [Close(kind)] + rest, kind)
            == Done(if q.prio / 2 > p.prio / 2 || (q.prio / 2 == p.prio / 2 && q.prio % 2 == 1)
                    then Suf(q, Pre(p, a)) else Pre(p, Suf(q, a)), rest)
  {
    OvertakesIs(q.prio, p.prio);
    var flat := [Prefix(p)] + Flat(a) + [Postfix(q)];
    SpacedJoin([Prefix(p)], Flat(a));
    FlatEnds(a);
    SpacedJoin([Prefix(p)] + Flat(a), [Postfix(q)]);
    var t := if Overtakes(q.prio, p.prio) then Suf(q, Pre(p, a)) else Pre(p, Suf(q, a));
    assert Flat(t) == flat;
    ReadsBack(t, rest, kind);
  }
}
