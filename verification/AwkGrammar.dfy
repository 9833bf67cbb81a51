/** Operator-precedence expressions as awk's parse_expr reads them: the trees the priority bytes allow, and the reading
that follows the right spine of the tree built so far. */
module AwkGrammar {
  import opened Bits

  /** The priority byte of an operator: the lower, the tighter; odd groups to the left, even to the right. */
  type Priority = p: int | 0 <= p <= 126

  datatype Op = Op(name: nat, prio: Priority)

  /** What next_token delivers. `Close` is a terminator of some kind; kind PAREN is the closing parenthesis. */
  datatype Token = Operand(v: nat) | Open | Close(kind: nat) | Prefix(op: Op) | Postfix(op: Op) | Binary(op: Op)

  datatype Tree =
    | Leaf(v: nat)
    | Group(t: Tree)
    | Pre(op: Op, r: Tree)
    | Suf(op: Op, l: Tree)
    | Node(op: Op, l: Tree, r: Tree)

  const PAREN := 0

  /** The priority without its grouping bit (PRIMASK2). */
  function Loose(p: int): int {
    p - p % 2
  }

  /** The in-order reading of a tree. */
  function Flat(t: Tree): seq<Token> {
    match t
    case Leaf(v) => [Operand(v)]
    case Group(u) => [Open] + Flat(u) + [Close(PAREN)]
    case Pre(op, r) => [Prefix(op)] + Flat(r)
    case Suf(op, l) => Flat(l) + [Postfix(op)]
    case Node(op, l, r) => Flat(l) + [Binary(op)] + Flat(r)
  }

  // The shape that the priorities fix.

  /** Everything that begins where `t` begins may stand to the right of an operator of looseness `b`. */
  predicate LeftFits(t: Tree, b: int) {
    match t
    case Suf(op, l) => op.prio <= b && LeftFits(l, b)
    case Node(op, l, r) => op.prio <= b && LeftFits(l, b)
    case _ => true
  }

  /** Everything that ends where `t` ends is taken over by an operator of priority `p`. */
  predicate RightBelow(t: Tree, p: int) {
    match t
    case Pre(op, r) => p > Loose(op.prio) && RightBelow(r, p)
    case Node(op, l, r) => p > Loose(op.prio) && RightBelow(r, p)
    case _ => true
  }

  predicate Shaped(t: Tree) {
    match t
    case Leaf(_) => true
    case Group(u) => Shaped(u)
    case Pre(op, r) => Shaped(r) && LeftFits(r, Loose(op.prio))
    case Suf(op, l) => Shaped(l) && RightBelow(l, op.prio)
    case Node(op, l, r) => Shaped(l) && Shaped(r) && RightBelow(l, op.prio) && LeftFits(r, Loose(op.prio))
  }

  /** No postfix operator directly follows another one. */
  predicate Spaced(s: seq<Token>) {
    forall i :: 0 < i < |s| ==> !(s[i - 1].Postfix? && s[i].Postfix?)
  }

  // The reading.

  /** A node on the right spine whose right side is still open. */
  datatype Frame = Under(op: Op) | Right(op: Op, l: Tree)

  /** A syntax error, an access through the null root of an empty group, the empty expression, or a tree; and what
  follows the terminator. */
  datatype Outcome = Fails | Crashes | Empty(rest: seq<Token>) | Done(tree: Tree, rest: seq<Token>)

  function Plug(f: Frame, t: Tree): Tree {
    match f
    case Under(op) => Pre(op, t)
    case Right(op, l) => Node(op, l, t)
  }

  /** Jumps back over the open nodes that an operator of priority `p` takes over. */
  function Climb(st: seq<Frame>, t: Tree, p: int): (r: (seq<Frame>, Tree))
    ensures r.0 <= st
  {
    var n := |st| - 1;
    if st != [] && p > Loose(st[n].op.prio) then Climb(st[..n], Plug(st[n], t), p) else (st, t)
  }

  function PlugAll(st: seq<Frame>, t: Tree): Tree {
    var n := |st| - 1;
    if st == [] then t else PlugAll(st[..n], Plug(st[n], t))
  }

  /** Where the last token read leaves the reading: an operand is wanted, or `t` is complete on the right. */
  datatype Current = Wanted | Have(t: Tree)

  function Read(st: seq<Frame>, cur: Current, s: seq<Token>, kind: nat): (o: Outcome)
    ensures !o.Fails? && !o.Crashes? ==> |o.rest| < |s|
    decreases |s|
  {
    if s == [] then Fails else
    match s[0]
    case Close(k) =>
      if k != kind then Fails
      else if cur.Have? then Done(PlugAll(st, cur.t), s[1..])
      else if st == [] then Empty(s[1..]) else Fails
    case Operand(v) =>
      if cur.Wanted? then Read(st, Have(Leaf(v)), s[1..], kind) else Fails
    case Open =>
      if cur.Have? then Fails else
      (match Read([], Wanted, s[1..], PAREN)
       case Fails => Fails
       case Crashes => Crashes
       case Empty(_) => Crashes
       case Done(u, rest) => Read(st, Have(Group(u)), rest, kind))
    case Prefix(op) =>
      if cur.Wanted? then Read(st + [Under(op)], Wanted, s[1..], kind) else Fails
    case Postfix(op) =>
      if cur.Wanted? || cur.t.Suf? then Fails else
      var (st', t) := Climb(st, cur.t, op.prio);
      Read(st', Have(Suf(op, t)), s[1..], kind)
    case Binary(op) =>
      if cur.Wanted? then Fails else
      var (st', t) := Climb(st, cur.t, op.prio);
      Read(st' + [Right(op, t)], Wanted, s[1..], kind)
  }

  /** The reading takes `tok` without a group or an end. */
  predicate Taken(cur: Current, tok: Token) {
    match tok
    case Operand(_) => cur.Wanted?
    case Prefix(_) => cur.Wanted?
    case Postfix(_) => cur.Have? && !cur.t.Suf?
    case Binary(_) => cur.Have?
    case _ => false
  }

  function Next(st: seq<Frame>, cur: Current, tok: Token): (seq<Frame>, Current)
    requires Taken(cur, tok)
  {
    match tok
    case Operand(v) => (st, Have(Leaf(v)))
    case Prefix(op) => (st + [Under(op)], Wanted)
    case Postfix(op) => var (st', t) := Climb(st, cur.t, op.prio); (st', Have(Suf(op, t)))
    case Binary(op) => var (st', t) := Climb(st, cur.t, op.prio); (st' + [Right(op, t)], Wanted)
  }

  /** `o` is what the reading of `s` from this state gives; opened where a step of the reading is needed. */
  ghost predicate ReadsAs(st: seq<Frame>, cur: Current, s: seq<Token>, kind: nat, o: Outcome) {
    forall k: int {:trigger Opened(LoopSeal, k)} :: Sealed(k) ==> Read(st, cur, s, kind) == o
  }

  // What the reading does with the next token.

  lemma ReadTaken(st: seq<Frame>, cur: Current, s: seq<Token>, kind: nat, o: Outcome)
    requires s != [] && Taken(cur, s[0])
    ensures ReadsAs(st, cur, s, kind, o) <==> ReadsAs(Next(st, cur, s[0]).0, Next(st, cur, s[0]).1, s[1..], kind, o)
  {
    assert Opened(LoopSeal, 0);
  }

  /** Neither an end nor anything that may come next. */
  predicate Refused(cur: Current, s: seq<Token>) {
    s == [] || (if s[0].Open? then cur.Have? else !s[0].Close? && !Taken(cur, s[0]))
  }

  lemma ReadRefused(st: seq<Frame>, cur: Current, s: seq<Token>, kind: nat, o: Outcome)
    requires ReadsAs(st, cur, s, kind, o) && Refused(cur, s)
    ensures o == Fails
  {
    assert Opened(LoopSeal, 0);
  }

  lemma ReadClose(st: seq<Frame>, cur: Current, s: seq<Token>, kind: nat, o: Outcome)
    requires ReadsAs(st, cur, s, kind, o) && s != [] && s[0].Close?
    ensures o == if s[0].kind != kind then Fails else if cur.Have? then Done(PlugAll(st, cur.t), s[1..])
                 else if st == [] then Empty(s[1..]) else Fails
  {
    assert Opened(LoopSeal, 0);
  }

  lemma ReadOpen(st: seq<Frame>, s: seq<Token>, kind: nat, o: Outcome) returns (g: Outcome)
    requires ReadsAs(st, Wanted, s, kind, o) && s != [] && s[0].Open?
    ensures ReadsAs([], Wanted, s[1..], PAREN, g)
    ensures g.Fails? ==> o == Fails
    ensures g.Crashes? || g.Empty? ==> o == Crashes
    ensures g.Done? ==> |g.rest| < |s| && ReadsAs(st, Have(Group(g.tree)), g.rest, kind, o)
  {
    assert Opened(LoopSeal, 0);
    g := Read([], Wanted, s[1..], PAREN);
  }

  // What the reading has consumed, and why its state stays well shaped.

  function FlatFrames(st: seq<Frame>): seq<Token> {
    if st == [] then [] else
      var n := |st| - 1;
      FlatFrames(st[..n]) + match st[n] { case Under(op) => [Prefix(op)] case Right(op, l) => Flat(l) + [Binary(op)] }
  }

  function Lim(st: seq<Frame>): int {
    if st == [] then 126 else Loose(st[|st| - 1].op.prio)
  }

  predicate FrameFits(f: Frame, b: int) {
    f.Right? ==> Shaped(f.l) && RightBelow(f.l, f.op.prio) && f.op.prio <= b && LeftFits(f.l, b)
  }

  predicate FramesShaped(st: seq<Frame>) {
    st == [] || (FramesShaped(st[..|st| - 1]) && FrameFits(st[|st| - 1], Lim(st[..|st| - 1])))
  }

  /** A tree that no operator can reach into. */
  predicate Closed(t: Tree) {
    t.Leaf? || t.Group? || t.Suf?
  }

  predicate StateShaped(st: seq<Frame>, cur: Current) {
    && FramesShaped(st)
    && (cur.Have? ==> Shaped(cur.t) && LeftFits(cur.t, Lim(st)) && Closed(cur.t))
  }

  function FlatState(st: seq<Frame>, cur: Current): seq<Token> {
    FlatFrames(st) + if cur.Have? then Flat(cur.t) else []
  }

  lemma {:induction false} LeftFitsAll(t: Tree)
    ensures LeftFits(t, 126)
  {
    match t
    case Suf(_, l) => LeftFitsAll(l);
    case Node(_, l, _) => LeftFitsAll(l);
    case _ =>
  }

  lemma PlugShaped(st: seq<Frame>, t: Tree)
    requires st != [] && FramesShaped(st) && Shaped(t) && LeftFits(t, Lim(st))
    ensures var n := |st| - 1; Shaped(Plug(st[n], t)) && LeftFits(Plug(st[n], t), Lim(st[..n])) && FramesShaped(st[..n])
  {
  }

  lemma PlugFlat(st: seq<Frame>, t: Tree)
    requires st != []
    ensures var n := |st| - 1; FlatFrames(st[..n]) + Flat(Plug(st[n], t)) == FlatFrames(st) + Flat(t)
  {
  }

  lemma {:induction false} ClimbShaped(st: seq<Frame>, t: Tree, p: Priority)
    requires FramesShaped(st) && Shaped(t) && LeftFits(t, Lim(st)) && RightBelow(t, p)
    ensures var (st', t') := Climb(st, t, p);
            && FramesShaped(st') && Shaped(t') && LeftFits(t', Lim(st')) && RightBelow(t', p) && p <= Lim(st')
            && FlatFrames(st') + Flat(t') == FlatFrames(st) + Flat(t)
    decreases |st|
  {
    if st != [] && p > Lim(st) {
      var n := |st| - 1;
      PlugShaped(st, t);
      PlugFlat(st, t);
      ClimbShaped(st[..n], Plug(st[n], t), p);
    }
  }

  lemma {:induction false} PlugAllShaped(st: seq<Frame>, t: Tree)
    requires FramesShaped(st) && Shaped(t) && LeftFits(t, Lim(st))
    ensures Shaped(PlugAll(st, t)) && Flat(PlugAll(st, t)) == FlatFrames(st) + Flat(t)
    decreases |st|
  {
    if st != [] {
      var n := |st| - 1;
      PlugShaped(st, t);
      PlugFlat(st, t);
      PlugAllShaped(st[..n], Plug(st[n], t));
    }
  }

  // Reading gives back the tokens, in the shape that the priorities fix.

  predicate EndsPostfix(s: seq<Token>) {
    s != [] && s[|s| - 1].Postfix?
  }

  lemma {:induction false} FlatEnds(t: Tree)
    ensures Flat(t) != [] && !Flat(t)[0].Postfix?
    ensures Closed(t) ==> (EndsPostfix(Flat(t)) <==> t.Suf?)
  {
    match t
    case Leaf(_) =>
    case Group(u) =>
    case Pre(_, r) =>
    case Suf(_, l) => FlatEnds(l);
    case Node(_, l, _) => FlatEnds(l);
  }

  lemma SpacedJoin(a: seq<Token>, b: seq<Token>)
    requires Spaced(a) && Spaced(b) && !(EndsPostfix(a) && b != [] && b[0].Postfix?)
    ensures Spaced(a + b)
  {
  }

  lemma StateEnds(st: seq<Frame>, cur: Current)
    requires cur.Have? ==> Closed(cur.t)
    ensures EndsPostfix(FlatState(st, cur)) <==> cur.Have? && cur.t.Suf?
    ensures cur.Have? ==> FlatState(st, cur) != []
  {
    if cur.Have? {
      FlatEnds(cur.t);
      var f := FlatState(st, cur);
      assert f[|f| - 1] == Flat(cur.t)[|Flat(cur.t)| - 1];
    } else if st != [] {
      var f := FlatFrames(st);
      assert FlatState(st, cur) == f;
    }
  }

  /** `s` is what is left of `tokens` after `before`. */
  predicate Splits(tokens: seq<Token>, before: seq<Token>, s: seq<Token>) {
    tokens == before + s && Spaced(before)
  }

  lemma SplitsOn(tokens: seq<Token>, before: seq<Token>, s: seq<Token>, after: seq<Token>, rest: seq<Token>)
    requires Splits(tokens, before, s) && s == after + rest && Spaced(after)
    requires !(EndsPostfix(before) && after != [] && after[0].Postfix?)
    ensures Splits(tokens, before + after, rest)
  {
    SpacedJoin(before, after);
  }

  lemma ReadGroup(tokens: seq<Token>, st: seq<Frame>, s: seq<Token>, u: Tree, rest: seq<Token>)
    requires FramesShaped(st) && Splits(tokens, FlatState(st, Wanted), s) && s != [] && s[0] == Open
    requires s[1..] == Flat(u) + [Close(PAREN)] + rest && Shaped(u) && Spaced(Flat(u))
    ensures StateShaped(st, Have(Group(u))) && Splits(tokens, FlatState(st, Have(Group(u))), rest)
  {
    FlatEnds(u);
    var g := Flat(Group(u));
    SpacedJoin([Open], Flat(u));
    SpacedJoin([Open] + Flat(u), [Close(PAREN)]);
    assert s == [s[0]] + s[1..] == g + rest;
    SplitsOn(tokens, FlatState(st, Wanted), s, g, rest);
    assert FlatState(st, Wanted) + g == FlatState(st, Have(Group(u)));
  }

  lemma ReadPrefix(st: seq<Frame>, op: Op)
    requires FramesShaped(st)
    ensures StateShaped(st + [Under(op)], Wanted)
    ensures FlatState(st + [Under(op)], Wanted) == FlatState(st, Wanted) + [Prefix(op)]
  {
    assert (st + [Under(op)])[..|st|] == st;
  }

  lemma ReadPostfix(st: seq<Frame>, t: Tree, op: Op)
    requires StateShaped(st, Have(t))
    ensures var (st', u) := Climb(st, t, op.prio);
            StateShaped(st', Have(Suf(op, u)))
                && FlatState(st', Have(Suf(op, u))) == FlatState(st, Have(t)) + [Postfix(op)]
  {
    ClimbShaped(st, t, op.prio);
  }

  lemma ReadBinary(st: seq<Frame>, t: Tree, op: Op)
    requires StateShaped(st, Have(t))
    ensures var (st', u) := Climb(st, t, op.prio);
            && StateShaped(st' + [Right(op, u)], Wanted)
            && FlatState(st' + [Right(op, u)], Wanted) == FlatState(st, Have(t)) + [Binary(op)]
  {
    ClimbShaped(st, t, op.prio);
    var (st', u) := Climb(st, t, op.prio);
    var after := st' + [Right(op, u)];
    assert after[..|st'|] == st' && after[|st'|] == Right(op, u);
  }

  /** What a successful reading from a well shaped state has read. */
  lemma {:induction false} ReadShaped(tokens: seq<Token>, st: seq<Frame>, cur: Current, s: seq<Token>, kind: nat,
                                      o: Outcome)
    requires StateShaped(st, cur) && Splits(tokens, FlatState(st, cur), s)
    requires ReadsAs(st, cur, s, kind, o) && o.Done?
    ensures Shaped(o.tree) && Splits(tokens, Flat(o.tree) + [Close(kind)], o.rest) && Spaced(Flat(o.tree))
    decreases |s|
  {
    if Refused(cur, s) {
      ReadRefused(st, cur, s, kind, o);
      assert false;
    } else if s[0].Close? {
      ReadClose(st, cur, s, kind, o);
      PlugAllShaped(st, cur.t);
      SplitsNext(tokens, st, cur, s);
    } else if s[0].Open? {
      var g := ReadOpen(st, s, kind, o);
      var none: seq<Token> := [];
      assert s[1..] == none + s[1..];
      ReadShaped(s[1..], [], Wanted, s[1..], PAREN, g);
      ReadGroup(tokens, st, s, g.tree, g.rest);
      ReadShaped(tokens, st, Have(Group(g.tree)), g.rest, kind, o);
    } else {
      ReadTaken(st, cur, s, kind, o);
      SplitsNext(tokens, st, cur, s);
      NextShaped(st, cur, s[0]);
      ReadShaped(tokens, Next(st, cur, s[0]).0, Next(st, cur, s[0]).1, s[1..], kind, o);
    }
  }

  lemma SplitsNext(tokens: seq<Token>, st: seq<Frame>, cur: Current, s: seq<Token>)
    requires s != [] && (s[0].Close? || Taken(cur, s[0])) && (cur.Have? ==> Closed(cur.t))
    requires Splits(tokens, FlatState(st, cur), s)
    ensures Splits(tokens, FlatState(st, cur) + [s[0]], s[1..])
  {
    StateEnds(st, cur);
    assert s == [s[0]] + s[1..];
    SplitsOn(tokens, FlatState(st, cur), s, [s[0]], s[1..]);
  }

  lemma NextShaped(st: seq<Frame>, cur: Current, tok: Token)
    requires StateShaped(st, cur) && Taken(cur, tok)
    ensures var (st', cur') := Next(st, cur, tok);
            StateShaped(st', cur') && FlatState(st', cur') == FlatState(st, cur) + [tok]
  {
    match tok
    case Operand(v) => assert FlatState(st, Have(Leaf(v))) == FlatState(st, cur) + [tok];
    case Prefix(op) => ReadPrefix(st, op);
    case Postfix(op) => ReadPostfix(st, cur.t, op);
    case Binary(op) => ReadBinary(st, cur.t, op);
  }
}
