/** Every token sequence that has a tree at all is read, and into the one tree of the right shape. */
module AwkShape {
  import opened Bits
  import opened AwkGrammar

  // The right spine of a finished tree.

  function Spine(t: Tree): seq<Frame> {
    match t
    case Pre(op, r) => [Under(op)] + Spine(r)
    case Node(op, l, r) => [Right(op, l)] + Spine(r)
    case _ => []
  }

  function Tip(t: Tree): (u: Tree)
    ensures Closed(u)
  {
    match t
    case Pre(_, r) => Tip(r)
    case Node(_, _, r) => Tip(r)
    case _ => t
  }

  lemma {:induction false} TipEnds(t: Tree)
    ensures EndsPostfix(Flat(t)) <==> Tip(t).Suf?
  {
    match t
    case Pre(_, r) =>
      TipEnds(r);
      FlatEnds(r);
    case Node(_, _, r) =>
      TipEnds(r);
      FlatEnds(r);
    case _ =>
  }

  lemma PlugInner(f: Frame, inner: seq<Frame>, t: Tree)
    ensures PlugAll([f] + inner, t) == Plug(f, PlugAll(inner, t))
    decreases |inner|
  {
    var st := [f] + inner;
    if inner == [] {
      assert st[..0] == [];
    } else {
      var n := |inner| - 1;
      assert st[..|st| - 1] == [f] + inner[..n] && st[|st| - 1] == inner[n];
      PlugInner(f, inner[..n], Plug(inner[n], t));
    }
  }

  lemma {:induction false} SpinePlugs(t: Tree)
    ensures PlugAll(Spine(t), Tip(t)) == t
  {
    match t
    case Pre(op, r) =>
      SpinePlugs(r);
      PlugInner(Under(op), Spine(r), Tip(r));
    case Node(op, l, r) =>
      SpinePlugs(r);
      PlugInner(Right(op, l), Spine(r), Tip(r));
    case _ =>
  }

  /** An operator that takes over all of `inner` and nothing below it. */
  lemma {:induction false} ClimbOver(st: seq<Frame>, inner: seq<Frame>, t: Tree, p: Priority)
    requires p <= Lim(st) && forall i :: 0 <= i < |inner| ==> p > Loose(inner[i].op.prio)
    ensures Climb(st + inner, t, p) == (st, PlugAll(inner, t))
    decreases |inner|
  {
    var all := st + inner;
    if inner == [] {
      assert all == st;
    } else {
      var n := |inner| - 1;
      assert all[|all| - 1] == inner[n] && all[..|all| - 1] == st + inner[..n];
      ClimbOver(st, inner[..n], Plug(inner[n], t), p);
    }
  }

  lemma {:induction false} SpineBelow(t: Tree, p: int)
    requires RightBelow(t, p)
    ensures forall i :: 0 <= i < |Spine(t)| ==> p > Loose(Spine(t)[i].op.prio)
  {
    match t
    case Pre(_, r) => SpineBelow(r, p);
    case Node(_, _, r) => SpineBelow(r, p);
    case _ =>
  }

  /** The state after a left operand `l`, and what the operator behind it makes of that state. */
  lemma ClimbBack(st: seq<Frame>, l: Tree, p: Priority)
    requires RightBelow(l, p) && p <= Lim(st)
    ensures Climb(st + Spine(l), Tip(l), p) == (st, l)
  {
    SpineBelow(l, p);
    ClimbOver(st, Spine(l), Tip(l), p);
    SpinePlugs(l);
  }

  lemma SpacedParts(a: seq<Token>, b: seq<Token>)
    requires Spaced(a + b)
    ensures Spaced(a) && Spaced(b)
    ensures a != [] && b != [] ==> !(a[|a| - 1].Postfix? && b[0].Postfix?)
  {
    var s := a + b;
    forall i | 0 < i < |a|
      ensures !(a[i - 1].Postfix? && a[i].Postfix?)
    {
      assert s[i - 1] == a[i - 1] && s[i] == a[i];
    }
    forall i | 0 < i < |b|
      ensures !(b[i - 1].Postfix? && b[i].Postfix?)
    {
      assert s[|a| + i - 1] == b[i - 1] && s[|a| + i] == b[i];
    }
    if a != [] && b != [] {
      assert s[|a| - 1] == a[|a| - 1] && s[|a|] == b[0];
    }
  }

  // One token, as Read takes it.

  lemma StepOperand(st: seq<Frame>, v: nat, s: seq<Token>, kind: nat)
    ensures Read(st, Wanted, [Operand(v)] + s, kind) == Read(st, Have(Leaf(v)), s, kind)
  {
    assert ([Operand(v)] + s)[1..] == s;
  }

  lemma StepPrefix(st: seq<Frame>, op: Op, s: seq<Token>, kind: nat)
    ensures Read(st, Wanted, [Prefix(op)] + s, kind) == Read(st + [Under(op)], Wanted, s, kind)
  {
    assert ([Prefix(op)] + s)[1..] == s;
  }

  lemma StepPostfix(st: seq<Frame>, t: Tree, op: Op, s: seq<Token>, kind: nat, st': seq<Frame>, t': Tree)
    requires !t.Suf? && Climb(st, t, op.prio) == (st', t')
    ensures Read(st, Have(t), [Postfix(op)] + s, kind) == Read(st', Have(Suf(op, t')), s, kind)
  {
    assert ([Postfix(op)] + s)[1..] == s;
  }

  lemma StepBinary(st: seq<Frame>, t: Tree, op: Op, s: seq<Token>, kind: nat, st': seq<Frame>, t': Tree)
    requires Climb(st, t, op.prio) == (st', t')
    ensures Read(st, Have(t), [Binary(op)] + s, kind) == Read(st' + [Right(op, t')], Wanted, s, kind)
  {
    assert ([Binary(op)] + s)[1..] == s;
  }

  lemma StepGroup(st: seq<Frame>, s: seq<Token>, kind: nat, u: Tree, rest: seq<Token>)
    requires Read([], Wanted, s, PAREN) == Done(u, rest)
    ensures Read(st, Wanted, [Open] + s, kind) == Read(st, Have(Group(u)), rest, kind)
  {
    assert ([Open] + s)[1..] == s;
  }

  lemma StepClose(st: seq<Frame>, t: Tree, s: seq<Token>, kind: nat)
    ensures Read(st, Have(t), [Close(kind)] + s, kind) == Done(PlugAll(st, t), s)
  {
    assert ([Close(kind)] + s)[1..] == s;
  }

  // The tokens of a tree, followed by others, part by part.

  lemma FlatGroup(u: Tree, s: seq<Token>)
    ensures Flat(Group(u)) + s == [Open] + (Flat(u) + ([Close(PAREN)] + s))
    ensures Spaced(Flat(Group(u))) ==> Spaced(Flat(u))
  {
    if Spaced(Flat(Group(u))) {
      SpacedParts([Open] + Flat(u), [Close(PAREN)]);
      SpacedParts([Open], Flat(u));
    }
  }

  lemma FlatPre(op: Op, r: Tree, s: seq<Token>)
    ensures Flat(Pre(op, r)) + s == [Prefix(op)] + (Flat(r) + s)
    ensures Spaced(Flat(Pre(op, r))) ==> Spaced(Flat(r))
    ensures EndsPostfix(Flat(Pre(op, r))) == EndsPostfix(Flat(r))
  {
    FlatEnds(r);
    if Spaced(Flat(Pre(op, r))) {
      SpacedParts([Prefix(op)], Flat(r));
    }
  }

  lemma FlatSuf(op: Op, l: Tree, s: seq<Token>)
    ensures Flat(Suf(op, l)) + s == Flat(l) + ([Postfix(op)] + s)
    ensures Spaced(Flat(Suf(op, l))) ==> Spaced(Flat(l)) && !EndsPostfix(Flat(l))
    ensures EndsPostfix(Flat(Suf(op, l)))
  {
    if Spaced(Flat(Suf(op, l))) {
      SpacedParts(Flat(l), [Postfix(op)]);
    }
  }

  lemma FlatNode(op: Op, l: Tree, r: Tree, s: seq<Token>)
    ensures Flat(Node(op, l, r)) + s == Flat(l) + ([Binary(op)] + (Flat(r) + s))
    ensures Spaced(Flat(Node(op, l, r))) ==> Spaced(Flat(l)) && Spaced(Flat(r))
    ensures EndsPostfix(Flat(Node(op, l, r))) == EndsPostfix(Flat(r))
  {
    FlatEnds(r);
    if Spaced(Flat(Node(op, l, r))) {
      SpacedParts(Flat(l) + [Binary(op)], Flat(r));
      SpacedParts(Flat(l), [Binary(op)]);
    }
  }

  /** Reading a well shaped tree leaves its right spine open, and its tip complete. */
  lemma {:induction false} ReadTree(st: seq<Frame>, t: Tree, s: seq<Token>, kind: nat)
    requires Shaped(t) && LeftFits(t, Lim(st)) && Spaced(Flat(t))
    ensures Read(st, Wanted, Flat(t) + s, kind) == Read(st + Spine(t), Have(Tip(t)), s, kind)
    decreases t, 0
  {
    match t
    case Leaf(v) =>
      StepOperand(st, v, s, kind);
      assert st + Spine(t) == st;
    case Group(u) =>
      FlatGroup(u, s);
      var inside := Flat(u) + ([Close(PAREN)] + s);
      ReadTreeEnd(u, s, PAREN);
      StepGroup(st, inside, kind, u, s);
      assert st + Spine(t) == st;
    case Pre(op, r) =>
      FlatPre(op, r, s);
      StepPrefix(st, op, Flat(r) + s, kind);
      ReadTree(st + [Under(op)], r, s, kind);
      assert st + [Under(op)] + Spine(r) == st + Spine(t);
    case Suf(op, l) =>
      FlatSuf(op, l, s);
      ReadTree(st, l, [Postfix(op)] + s, kind);
      TipEnds(l);
      ClimbBack(st, l, op.prio);
      StepPostfix(st + Spine(l), Tip(l), op, s, kind, st, l);
      assert st + Spine(t) == st;
    case Node(op, l, r) =>
      ReadTreeNode(st, t, op, l, r, s, kind);
  }

  lemma {:induction false} ReadTreeNode(st: seq<Frame>, t: Tree, op: Op, l: Tree, r: Tree, s: seq<Token>, kind: nat)
    requires t == Node(op, l, r) && Shaped(t) && LeftFits(t, Lim(st)) && Spaced(Flat(t))
    ensures Read(st, Wanted, Flat(t) + s, kind) == Read(st + Spine(t), Have(Tip(t)), s, kind)
    decreases t, -1
  {
    FlatNode(op, l, r, s);
    var s1 := Flat(r) + s;
    var s2 := [Binary(op)] + s1;
    var st1 := st + [Right(op, l)];
    var back := st + Spine(l);
    ReadTree(st, l, s2, kind);
    ClimbBack(st, l, op.prio);
    StepBinary(back, Tip(l), op, s1, kind, st, l);
    assert st1[|st1| - 1] == Right(op, l);
    ReadTree(st1, r, s, kind);
    assert st1 + Spine(r) == st + Spine(t);
  }

  /** A well shaped tree and its terminator, from the start. */
  lemma {:induction false} ReadTreeEnd(t: Tree, rest: seq<Token>, kind: nat)
    requires Shaped(t) && Spaced(Flat(t))
    ensures Read([], Wanted, Flat(t) + ([Close(kind)] + rest), kind) == Done(t, rest)
    decreases t, 1
  {
    LeftFitsAll(t);
    var none: seq<Frame> := [];
    ReadTree(none, t, [Close(kind)] + rest, kind);
    assert none + Spine(t) == Spine(t);
    StepClose(Spine(t), Tip(t), rest, kind);
    SpinePlugs(t);
  }

  /** The parser is a left inverse of the in-order reading on the well shaped trees. */
  lemma ReadsBack(t: Tree, rest: seq<Token>, kind: nat)
    requires Shaped(t) && Spaced(Flat(t))
    ensures Read([], Wanted, Flat(t) + [Close(kind)] + rest, kind) == Done(t, rest)
  {
    ReadTreeEnd(t, rest, kind);
    assert Flat(t) + [Close(kind)] + rest == Flat(t) + ([Close(kind)] + rest);
  }

  /** The priorities leave no choice: two well shaped trees over the same tokens are the same. */
  lemma ShapeUnique(t: Tree, u: Tree)
    requires Shaped(t) && Shaped(u) && Flat(t) == Flat(u) && Spaced(Flat(t))
    ensures t == u
  {
    ReadsBack(t, [], PAREN);
    ReadsBack(u, [], PAREN);
  }

  /** Any tree over the tokens, well shaped or not, is enough for them to be read. */
  lemma {:induction false} ReadAny(st: seq<Frame>, t: Tree, s: seq<Token>, kind: nat) returns (st': seq<Frame>, u: Tree)
    requires Spaced(Flat(t))
    ensures Closed(u) && (u.Suf? <==> EndsPostfix(Flat(t)))
    ensures Read(st, Wanted, Flat(t) + s, kind) == Read(st', Have(u), s, kind)
    decreases t
  {
    match t
    case Leaf(v) =>
      StepOperand(st, v, s, kind);
      st', u := st, t;
    case Group(g) =>
      FlatGroup(g, s);
      var st1, u1 := ReadAny([], g, [Close(PAREN)] + s, PAREN);
      StepClose(st1, u1, s, PAREN);
      st', u := st, Group(PlugAll(st1, u1));
      StepGroup(st, Flat(g) + ([Close(PAREN)] + s), kind, PlugAll(st1, u1), s);
    case Pre(op, r) =>
      FlatPre(op, r, s);
      StepPrefix(st, op, Flat(r) + s, kind);
      st', u := ReadAny(st + [Under(op)], r, s, kind);
    case Suf(op, l) =>
      FlatSuf(op, l, s);
      var st1, u1 := ReadAny(st, l, [Postfix(op)] + s, kind);
      var (st2, u2) := Climb(st1, u1, op.prio);
      StepPostfix(st1, u1, op, s, kind, st2, u2);
      st', u := st2, Suf(op, u2);
    case Node(op, l, r) =>
      FlatNode(op, l, r, s);
      var s1 := Flat(r) + s;
      var st1, u1 := ReadAny(st, l, [Binary(op)] + s1, kind);
      var (st2, u2) := Climb(st1, u1, op.prio);
      StepBinary(st1, u1, op, s1, kind, st2, u2);
      st', u := ReadAny(st2 + [Right(op, u2)], r, s, kind);
  }

  /**
   * A token sequence is read exactly when some tree reads back as it, and what is read is the one such tree whose
   * shape is the one that the priorities fix.
   */
  lemma ReadIff(s: seq<Token>, t: Tree, rest: seq<Token>, kind: nat)
    ensures Read([], Wanted, s, kind) == Done(t, rest)
            <==> Shaped(t) && Spaced(Flat(t)) && s == Flat(t) + [Close(kind)] + rest
  {
    if Shaped(t) && Spaced(Flat(t)) && s == Flat(t) + [Close(kind)] + rest {
      ReadsBack(t, rest, kind);
    }
    var o := Read([], Wanted, s, kind);
    if o == Done(t, rest) {
      var none: seq<Token> := [];
      assert s == none + s;
      ReadShaped(s, [], Wanted, s, kind, o);
    }
  }

  lemma ReadSome(t: Tree, rest: seq<Token>, kind: nat) returns (u: Tree)
    requires Spaced(Flat(t))
    ensures Read([], Wanted, Flat(t) + ([Close(kind)] + rest), kind) == Done(u, rest)
  {
    var st', tip := ReadAny([], t, [Close(kind)] + rest, kind);
    StepClose(st', tip, rest, kind);
    u := PlugAll(st', tip);
  }

  lemma ReadAll(t: Tree, rest: seq<Token>, kind: nat)
    requires Spaced(Flat(t))
    ensures var o := Read([], Wanted, Flat(t) + [Close(kind)] + rest, kind);
            o.Done? && o.rest == rest && Flat(o.tree) == Flat(t) && Shaped(o.tree)
  {
    var all := Flat(t) + [Close(kind)] + rest;
    var u := ReadSome(t, rest, kind);
    assert all == Flat(t) + ([Close(kind)] + rest);
    ReadIff(all, u, rest, kind);
    assert all == Flat(u) + ([Close(kind)] + rest);
    SameFront(Flat(t), Flat(u), [Close(kind)] + rest);
  }

  lemma SameFront(a: seq<Token>, b: seq<Token>, s: seq<Token>)
    requires a + s == b + s
    ensures a == b
  {
    assert |a| == |b|;
    assert a == (a + s)[..|a|] == (b + s)[..|b|];
  }

  /** An operand that binds tighter than operators of priority p on both sides. */
  predicate Tight(t: Tree, p: int) {
    Shaped(t) && LeftFits(t, Loose(p)) && RightBelow(t, p)
  }

  /** What the parity of a priority means: an operator takes its equal as its left operand exactly when it is odd. */
  lemma Grouping(op: Op, a: Tree, b: Tree, c: Tree, rest: seq<Token>, kind: nat)
    requires Tight(a, op.prio) && Tight(b, op.prio) && Tight(c, op.prio)
    requires Spaced(Flat(a)) && Spaced(Flat(b)) && Spaced(Flat(c))
    ensures Read([], Wanted, Flat(a) + [Binary(op)] + Flat(b) + [Binary(op)] + Flat(c) + [Close(kind)] + rest, kind)
            == Done(if op.prio % 2 == 1 then Node(op, Node(op, a, b), c) else Node(op, a, Node(op, b, c)), rest)
  {
    var p: int := op.prio;
    var flat := Flat(a) + [Binary(op)] + Flat(b) + [Binary(op)] + Flat(c);
    SpacedNode(op, Flat(a), Flat(b));
    SpacedNode(op, Flat(a) + [Binary(op)] + Flat(b), Flat(c));
    if p % 2 == 1 {
      var t := Node(op, Node(op, a, b), c);
      assert Flat(t) == flat;
      assert Loose(p) < p;
      ReadsBack(t, rest, kind);
    } else {
      var t := Node(op, a, Node(op, b, c));
      assert Flat(t) == flat;
      assert Loose(p) == p;
      ReadsBack(t, rest, kind);
    }
  }

  lemma SpacedNode(op: Op, l: seq<Token>, r: seq<Token>)
    requires Spaced(l) && Spaced(r)
    ensures Spaced(l + [Binary(op)] + r)
  {
    SpacedJoin(l, [Binary(op)]);
    SpacedJoin(l + [Binary(op)], r);
  }

  // What the empty group does.

  /** A closing parenthesis right behind an opening one. */
  predicate EmptyGroupAt(s: seq<Token>, i: nat) {
    i + 1 < |s| && s[i] == Open && s[i + 1] == Close(PAREN)
  }

  /** Wherever an operand is wanted, an empty group makes the parser write through a null pointer. */
  lemma EmptyGroupCrashes(st: seq<Frame>, s: seq<Token>, kind: nat)
    requires EmptyGroupAt(s, 0)
    ensures Read(st, Wanted, s, kind) == Crashes
  {
    assert s[1..][0] == Close(PAREN);
  }

  /** Once something has been read, the expression is not empty. */
  lemma {:induction false} NotEmpty(st: seq<Frame>, cur: Current, s: seq<Token>, kind: nat, o: Outcome)
    requires ReadsAs(st, cur, s, kind, o) && (st != [] || cur.Have?)
    ensures !o.Empty?
    decreases |s|
  {
    if Refused(cur, s) {
      ReadRefused(st, cur, s, kind, o);
    } else if s[0].Close? {
      ReadClose(st, cur, s, kind, o);
    } else if s[0].Open? {
      var g := ReadOpen(st, s, kind, o);
      if g.Done? {
        NotEmpty(st, Have(Group(g.tree)), g.rest, kind, o);
      }
    } else {
      ReadTaken(st, cur, s, kind, o);
      NotEmpty(Next(st, cur, s[0]).0, Next(st, cur, s[0]).1, s[1..], kind, o);
    }
  }

  lemma EmptyMeans(s: seq<Token>, kind: nat, o: Outcome)
    requires ReadsAs([], Wanted, s, kind, o) && o.Empty?
    ensures s != [] && s[0] == Close(kind)
  {
    if Refused(Wanted, s) {
      ReadRefused([], Wanted, s, kind, o);
    } else if s[0].Close? {
      ReadClose([], Wanted, s, kind, o);
    } else if s[0].Open? {
      var g := ReadOpen([], s, kind, o);
      if g.Done? {
        NotEmpty([], Have(Group(g.tree)), g.rest, kind, o);
      }
    } else {
      ReadTaken([], Wanted, s, kind, o);
      NotEmpty(Next([], Wanted, s[0]).0, Next([], Wanted, s[0]).1, s[1..], kind, o);
    }
  }
}
