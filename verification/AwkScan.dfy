/** A scan from left to right that keeps no tree tells what the parser will do: which tokens it takes for an expression,
and where it goes wrong on an empty group. */
module AwkScan {
  import opened Bits
  import opened AwkGrammar
  import opened AwkShape

  /** An operand is wanted; one has been had; or one with a postfix operator behind it. */
  datatype Place = Want | Had | HadPostfix

  datatype Scanned = Stopped | At(depth: nat, place: Place)

  /** The open groups, and what may come next, behind the tokens `p`. */
  function Scan(p: seq<Token>, depth: nat, place: Place): (r: Scanned)
    decreases |p|
  {
    if p == [] then At(depth, place) else
    match p[0]
    case Operand(_) => if place == Want then Scan(p[1..], depth, Had) else Stopped
    case Prefix(_) => if place == Want then Scan(p[1..], depth, Want) else Stopped
    case Open => if place == Want then Scan(p[1..], depth + 1, Want) else Stopped
    case Postfix(_) => if place == Had then Scan(p[1..], depth, HadPostfix) else Stopped
    case Binary(_) => if place != Want then Scan(p[1..], depth, Want) else Stopped
    case Close(k) => if depth > 0 && k == PAREN && place != Want then Scan(p[1..], depth - 1, Had) else Stopped
  }

  /** An operand may follow. */
  predicate WantsOperand(p: seq<Token>) {
    Scan(p, 0, Want).At? && Scan(p, 0, Want).place == Want
  }

  /** All groups are closed, and the expression may end. */
  predicate MayEnd(p: seq<Token>) {
    Scan(p, 0, Want).At? && Scan(p, 0, Want).depth == 0 && Scan(p, 0, Want).place != Want
  }

  function PlaceOf(cur: Current): Place {
    if cur.Wanted? then Want else if cur.t.Suf? then HadPostfix else Had
  }

  // The scan, token by token and part by part.

  lemma ScanTaken(st: seq<Frame>, cur: Current, p: seq<Token>, depth: nat)
    requires p != [] && Taken(cur, p[0])
    ensures Scan(p, depth, PlaceOf(cur)) == Scan(p[1..], depth, PlaceOf(Next(st, cur, p[0]).1))
  {
  }

  lemma {:induction false} ScanJoin(a: seq<Token>, b: seq<Token>, depth: nat, place: Place)
    ensures var r := Scan(a, depth, place);
            Scan(a + b, depth, place) == if r.Stopped? then r else Scan(b, r.depth, r.place)
    decreases |a|
  {
    if a == [] {
      assert a + b == b;
    } else {
      assert (a + b)[1..] == a[1..] + b;
      var tok := a[0];
      var next := if tok.Operand? then Had else if tok.Close? then Had else if tok.Postfix? then HadPostfix else Want;
      var d: nat := if tok.Open? then depth + 1 else if tok.Close? && depth > 0 then depth - 1 else depth;
      ScanJoin(a[1..], b, d, next);
    }
  }

  /** The tokens of a tree are scanned through, wherever an operand is wanted. */
  lemma {:induction false} ScanFlat(t: Tree, depth: nat)
    requires Spaced(Flat(t))
    ensures Scan(Flat(t), depth, Want) == At(depth, if EndsPostfix(Flat(t)) then HadPostfix else Had)
    decreases t
  {
    match t
    case Leaf(_) =>
    case Group(u) =>
      FlatGroup(u, []);
      ScanFlat(u, depth + 1);
      ScanGroup(Flat(u), depth);
      assert Flat(t) == [Open] + (Flat(u) + [Close(PAREN)]);
    case Pre(op, r) =>
      FlatPre(op, r, []);
      ScanFlat(r, depth);
      assert Flat(t)[1..] == Flat(r);
    case Suf(op, l) =>
      FlatSuf(op, l, []);
      ScanFlat(l, depth);
      ScanJoin(Flat(l), [Postfix(op)], depth, Want);
    case Node(op, l, r) =>
      FlatNode(op, l, r, []);
      ScanFlat(l, depth);
      ScanFlat(r, depth);
      ScanOperator(Flat(l), op, Flat(r), depth);
  }

  lemma ScanGroup(a: seq<Token>, depth: nat)
    requires Scan(a, depth + 1, Want).At? && Scan(a, depth + 1, Want).depth == depth + 1
    requires Scan(a, depth + 1, Want).place != Want
    ensures Scan([Open] + (a + [Close(PAREN)]), depth, Want) == At(depth, Had)
  {
    ScanJoin(a, [Close(PAREN)], depth + 1, Want);
    assert ([Open] + (a + [Close(PAREN)]))[1..] == a + [Close(PAREN)];
    assert Scan([Close(PAREN)], depth + 1, Scan(a, depth + 1, Want).place) == At(depth, Had);
  }

  lemma ScanOperator(a: seq<Token>, op: Op, b: seq<Token>, depth: nat)
    requires Scan(a, depth, Want).At? && Scan(a, depth, Want).depth == depth && Scan(a, depth, Want).place != Want
    ensures Scan(a + [Binary(op)] + b, depth, Want) == Scan(b, depth, Want)
  {
    assert a + [Binary(op)] + b == a + ([Binary(op)] + b);
    ScanJoin(a, [Binary(op)] + b, depth, Want);
    assert ([Binary(op)] + b)[1..] == b;
  }

  /** A scan inside a group stays there, or passes the parenthesis that closes it. */
  lemma {:induction false} ScanOut(p: seq<Token>, depth: nat, place: Place) returns (out: bool, j: nat)
    requires Scan(p, depth + 1, place).At?
    ensures !out ==>
              var r := Scan(p, depth + 1, place); r.depth > 0 && Scan(p, depth, place) == At(r.depth - 1, r.place)
    ensures out ==> j < |p| && p[j] == Close(PAREN) && Scan(p[..j], depth, place).At?
                    && Scan(p[..j], depth, place).depth == 0 && Scan(p[..j], depth, place).place != Want
                    && Scan(p[j + 1..], 0, Had) == Scan(p, depth + 1, place)
    decreases |p|
  {
    if p == [] {
      return false, 0;
    }
    if p[0].Close? && depth == 0 {
      return true, 0;
    }
    var tok := p[0];
    var next := if tok.Operand? || tok.Close? then Had else if tok.Postfix? then HadPostfix else Want;
    var d: nat := if tok.Open? then depth + 1 else if tok.Close? then depth - 1 else depth;
    assert Scan(p, depth + 1, place) == Scan(p[1..], d + 1, next) && (Scan(p, depth, place) == Scan(p[1..], d, next));
    out, j := ScanOut(p[1..], d, next);
    if out {
      assert p[..j + 1] == [tok] + p[1..][..j] && p[j + 2..] == p[1..][j + 1..];
      assert p[..j + 1][1..] == p[1..][..j];
      j := j + 1;
    }
  }

  // What may end is read.

  lemma ReadGroupDone(st: seq<Frame>, s: seq<Token>, kind: nat, u: Tree, rest: seq<Token>, o: Outcome)
    requires s != [] && s[0].Open? && ReadsAs([], Wanted, s[1..], PAREN, Done(u, rest))
    ensures ReadsAs(st, Wanted, s, kind, o) <==> ReadsAs(st, Have(Group(u)), rest, kind, o)
  {
    assert Opened(LoopSeal, 0);
  }

  lemma ReadGroupCrashes(st: seq<Frame>, s: seq<Token>, kind: nat)
    requires s != [] && s[0].Open? && ReadsAs([], Wanted, s[1..], PAREN, Crashes)
    ensures ReadsAs(st, Wanted, s, kind, Crashes)
  {
    assert Opened(LoopSeal, 0);
  }

  lemma ReadEnd(st: seq<Frame>, t: Tree, rest: seq<Token>, kind: nat)
    ensures ReadsAs(st, Have(t), [Close(kind)] + rest, kind, Done(PlugAll(st, t), rest))
  {
    StepClose(st, t, rest, kind);
  }

  lemma Ahead(p: seq<Token>, q: seq<Token>)
    requires p != []
    ensures (p + q)[0] == p[0] && (p + q)[1..] == p[1..] + q
  {
  }

  lemma {:induction false} ReadsToEnd(st: seq<Frame>, cur: Current, p: seq<Token>, rest: seq<Token>, kind: nat)
    returns (u: Tree)
    requires Scan(p, 0, PlaceOf(cur)).At? && Scan(p, 0, PlaceOf(cur)).depth == 0
    requires Scan(p, 0, PlaceOf(cur)).place != Want
    ensures ReadsAs(st, cur, p + ([Close(kind)] + rest), kind, Done(u, rest))
    decreases |p|
  {
    var q := [Close(kind)] + rest;
    if p == [] {
      assert p + q == q;
      ReadEnd(st, cur.t, rest, kind);
      u := PlugAll(st, cur.t);
      return;
    }
    Ahead(p, q);
    if p[0].Open? {
      var out, j := ScanOut(p[1..], 0, Want);
      var inside, behind := p[1..][..j], p[1..][j + 1..];
      assert p[1..] + q == inside + ([Close(PAREN)] + (behind + q));
      var g := ReadsToEnd([], Wanted, inside, behind + q, PAREN);
      u := ReadsToEnd(st, Have(Group(g)), behind, rest, kind);
      ReadGroupDone(st, p + q, kind, g, behind + q, Done(u, rest));
    } else {
      ScanTaken(st, cur, p, 0);
      u := ReadsToEnd(Next(st, cur, p[0]).0, Next(st, cur, p[0]).1, p[1..], rest, kind);
      ReadTaken(st, cur, p + q, kind, Done(u, rest));
    }
  }

  /** The terminator of an expression: it may end in front of it. */
  predicate EndsAt(s: seq<Token>, kind: nat, i: nat) {
    i < |s| && s[i] == Close(kind) && MayEnd(s[..i])
  }

  /** An expression is read exactly when it may end where its terminator stands. */
  lemma DoneIff(s: seq<Token>, kind: nat, i: nat)
    requires i < |s|
    ensures (Read([], Wanted, s, kind).Done? && Read([], Wanted, s, kind).rest == s[i + 1..]) <==> EndsAt(s, kind, i)
  {
    var o, rest := Read([], Wanted, s, kind), s[i + 1..];
    if o.Done? && o.rest == rest {
      DoneEnds(s, kind, o.tree, rest, i);
    }
    if EndsAt(s, kind, i) {
      var u := ReadsToEnd([], Wanted, s[..i], rest, kind);
      assert s == s[..i] + ([Close(kind)] + rest);
      assert Opened(LoopSeal, 0);
    }
  }

  lemma DoneEnds(s: seq<Token>, kind: nat, t: Tree, rest: seq<Token>, i: nat)
    requires Read([], Wanted, s, kind) == Done(t, rest) && i < |s| && |rest| == |s| - i - 1
    ensures EndsAt(s, kind, i)
  {
    ReadIff(s, t, rest, kind);
    ScanFlat(t, 0);
    assert s[..i] == Flat(t) && s[i] == Close(kind);
  }

  // Where an empty group stands for an operand.

  lemma {:induction false} CrashThere(st: seq<Frame>, cur: Current, p: seq<Token>, q: seq<Token>, kind: nat)
    requires EmptyGroupAt(q, 0) && Scan(p, 0, PlaceOf(cur)).At? && Scan(p, 0, PlaceOf(cur)).place == Want
    ensures ReadsAs(st, cur, p + q, kind, Crashes)
    decreases |p|
  {
    if p == [] {
      assert p + q == q;
      EmptyGroupCrashes(st, q, kind);
      return;
    }
    Ahead(p, q);
    if p[0].Open? {
      var out, j := ScanOut(p[1..], 0, Want);
      if out {
        var inside, behind := p[1..][..j], p[1..][j + 1..];
        assert p[1..] + q == inside + ([Close(PAREN)] + (behind + q));
        var g := ReadsToEnd([], Wanted, inside, behind + q, PAREN);
        CrashThere(st, Have(Group(g)), behind, q, kind);
        ReadGroupDone(st, p + q, kind, g, behind + q, Crashes);
      } else {
        CrashThere([], Wanted, p[1..], q, PAREN);
        ReadGroupCrashes(st, p + q, kind);
      }
    } else {
      ScanTaken(st, cur, p, 0);
      CrashThere(Next(st, cur, p[0]).0, Next(st, cur, p[0]).1, p[1..], q, kind);
      ReadTaken(st, cur, p + q, kind, Crashes);
    }
  }

  /** Where the parser crashes: the position of the empty group. */
  lemma {:induction false} CrashAt(st: seq<Frame>, cur: Current, s: seq<Token>, kind: nat, depth: nat) returns (i: nat)
    requires ReadsAs(st, cur, s, kind, Crashes)
    ensures EmptyGroupAt(s, i)
    ensures Scan(s[..i], depth, PlaceOf(cur)).At? && Scan(s[..i], depth, PlaceOf(cur)).place == Want
    decreases |s|, 1
  {
    if Refused(cur, s) {
      ReadRefused(st, cur, s, kind, Crashes);
      assert false;
    } else if s[0].Close? {
      ReadClose(st, cur, s, kind, Crashes);
      assert false;
    } else if s[0].Open? {
      i := CrashInGroup(st, s, kind, depth);
    } else {
      ReadTaken(st, cur, s, kind, Crashes);
      i := CrashAt(Next(st, cur, s[0]).0, Next(st, cur, s[0]).1, s[1..], kind, depth);
      Later(s, 1, i);
      i := 1 + i;
      ScanTaken(st, cur, s[..i], depth);
    }
  }

  lemma Later(s: seq<Token>, n: nat, i: nat)
    requires 1 <= n <= |s| && EmptyGroupAt(s[n..], i)
    ensures EmptyGroupAt(s, n + i) && s[..n + i] == s[..n] + s[n..][..i]
    ensures s[..n + i][0] == s[0] && (n == 1 ==> s[..n + i][1..] == s[1..][..i])
  {
    assert s[n..][i] == s[n + i] && s[n..][i + 1] == s[n + i + 1];
  }

  lemma {:induction false} CrashInGroup(st: seq<Frame>, s: seq<Token>, kind: nat, depth: nat) returns (i: nat)
    requires s != [] && s[0].Open? && ReadsAs(st, Wanted, s, kind, Crashes)
    ensures EmptyGroupAt(s, i) && Scan(s[..i], depth, Want).At? && Scan(s[..i], depth, Want).place == Want
    decreases |s|, 0
  {
    var g := ReadOpen(st, s, kind, Crashes);
    if g.Crashes? {
      i := CrashAt([], Wanted, s[1..], PAREN, depth + 1);
      Later(s, 1, i);
      i := 1 + i;
    } else if g.Empty? {
      EmptyMeans(s[1..], PAREN, g);
      i := 0;
    } else {
      var n := GroupScanned(s, g, depth);
      i := CrashAt(st, Have(Group(g.tree)), g.rest, kind, depth);
      Later(s, n, i);
      ScanJoin(s[..n], g.rest[..i], depth, Want);
      i := n + i;
    }
  }

  lemma GroupScanned(s: seq<Token>, g: Outcome, depth: nat) returns (n: nat)
    requires s != [] && s[0].Open? && g.Done? && ReadsAs([], Wanted, s[1..], PAREN, g)
    ensures 1 <= n <= |s| && s[n..] == g.rest && Scan(s[..n], depth, Want) == At(depth, Had)
  {
    var flat := Flat(g.tree);
    assert s[1..] == flat + [Close(PAREN)] + g.rest && Spaced(flat) by {
      assert Opened(LoopSeal, 0);
      ReadIff(s[1..], g.tree, g.rest, PAREN);
    }
    ScanFlat(g.tree, depth + 1);
    ScanGroup(flat, depth);
    n := GroupTokens(s, flat, g.rest);
  }

  lemma GroupTokens(s: seq<Token>, flat: seq<Token>, rest: seq<Token>) returns (n: nat)
    requires s != [] && s[0].Open? && s[1..] == flat + [Close(PAREN)] + rest
    ensures 1 <= n <= |s| && s[n..] == rest && s[..n] == [Open] + (flat + [Close(PAREN)])
  {
    n := 2 + |flat|;
    assert s == [Open] + s[1..] == [Open] + (flat + [Close(PAREN)]) + rest;
  }

  /** The parser writes through a null pointer exactly when an empty group stands where the scan wants an operand. */
  lemma CrashIff(s: seq<Token>, kind: nat)
    ensures Read([], Wanted, s, kind) == Crashes <==> exists i: nat :: EmptyGroupAt(s, i) && WantsOperand(s[..i])
  {
    if Read([], Wanted, s, kind) == Crashes {
      var i := CrashAt([], Wanted, s, kind, 0);
      assert WantsOperand(s[..i]);
    }
    if i: nat :| EmptyGroupAt(s, i) && WantsOperand(s[..i]) {
      CrashThere([], Wanted, s[..i], s[i..], kind);
      assert s == s[..i] + s[i..];
      assert Opened(LoopSeal, 0);
    }
  }
}
