/** expr: the evaluator that evaluates while it reads. */
module Expr {
  import opened Bits
  import opened ExprValue
  import opened ExprSyntax

  /** The value of a tree: operands first, from left to right; the first error ends it. */
  function Evaluate(re: Regex, t: Tree): Result {
    match t
    case Lit(w) => Ok(Str(WordText(w)))
    case Quote(w) => Ok(Str(WordText(w)))
    case Paren(u) => Evaluate(re, u)
    case LengthOf(u) =>
      (match Evaluate(re, u)
       case Err(e) => Err(e)
       case Ok(v) => Ok(Length(v)))
    case MatchOf(a, b) => Both(re, Colon, Evaluate(re, a), Evaluate(re, b))
    case IndexOf(a, b) =>
      var x, y := Evaluate(re, a), Evaluate(re, b);
      if x.Err? then x else if y.Err? then y else Ok(Index(x.v, y.v))
    case SubstrOf(a, b, c) =>
      var x, y, z := Evaluate(re, a), Evaluate(re, b), Evaluate(re, c);
      if x.Err? then x else if y.Err? then y else if z.Err? then z else Ok(Substr(x.v, y.v, z.v))
    case Bin(op, l, r) => Both(re, op, Evaluate(re, l), Evaluate(re, r))
  }

  function Both(re: Regex, op: Op, x: Result, y: Result): Result {
    if x.Err? then x else if y.Err? then y else Apply(re, op, x.v, y.v)
  }

  /** An error in the left operand stays one whatever operators follow. */
  lemma {:induction false} ErrorStays(re: Regex, k: nat, l: Tree, s: seq<Word>)
    requires k < TOP && Evaluate(re, l).Err?
    ensures var p := ParseOn(k, l, s); p.Reads? ==> Evaluate(re, p.t) == Evaluate(re, l)
    decreases |s|
  {
    if OpNext(k, s) {
      var p := Parse(k + 1, s[1..]);
      if p.Reads? {
        ErrorStays(re, k, Bin(s[0].op, l, p.t), p.rest);
      }
    }
  }

  /** The evaluator did what parsing and then evaluating does; a list that does not parse ended with some error. */
  ghost predicate Agrees(re: Regex, p: Parsed, r: Result, left: seq<Word>) {
    forall k: int {:trigger Opened(LoopSeal, k)} :: Sealed(k) ==>
      match p
      case Fails => r.Err?
      case Reads(t, rest) => r == Evaluate(re, t) && (r.Ok? ==> left == rest)
  }

  /** In the loop of level k: the tree l has been read, r is its value, and what is left goes on with it. */
  ghost predicate Standing(re: Regex, k: nat, start: seq<Word>, l: Tree, r: Result, left: seq<Word>) {
    forall i: int {:trigger Opened(LoopSeal, i)} :: Sealed(i) ==>
      k < TOP && r.Ok? && r == Evaluate(re, l) && Parse(k, start) == ParseOn(k, l, left)
  }

  lemma FirstOperand(re: Regex, k: nat, start: seq<Word>, r: Result, left: seq<Word>) returns (l: Tree)
    requires k < TOP && Agrees(re, Parse(k + 1, start), r, left)
    ensures if r.Ok? then Standing(re, k, start, l, r, left) == true else Agrees(re, Parse(k, start), r, left) == true
  {
    assert Opened(LoopSeal, 0);
    var p := Parse(k + 1, start);
    l := if p.Reads? then p.t else Lit(OpenParen);
    if r.Err? && p.Reads? {
      ErrorStays(re, k, p.t, p.rest);
    }
  }

  lemma NoOperator(re: Regex, k: nat, start: seq<Word>, l: Tree, r: Result, left: seq<Word>)
    requires k < TOP && Standing(re, k, start, l, r, left) && !OpNext(k, left)
    ensures Agrees(re, Parse(k, start), r, left)
  {
    assert Opened(LoopSeal, 0);
  }

  lemma RightOperand(re: Regex, k: nat, start: seq<Word>, l: Tree, v: Value, op: Op, tail: seq<Word>, y: Result,
                     left: seq<Word>, r: Result) returns (l': Tree)
    requires k < TOP && LevelOf(op) == k && Standing(re, k, start, l, Ok(v), [Operator(op)] + tail)
    requires Agrees(re, Parse(k + 1, tail), y, left) && r == if y.Err? then y else Apply(re, op, v, y.v)
    ensures if r.Ok? then Standing(re, k, start, l', r, left) == true else Agrees(re, Parse(k, start), r, left) == true
  {
    assert Opened(LoopSeal, 0);
    var here, p := [Operator(op)] + tail, Parse(k + 1, tail);
    assert here[0] == Operator(op) && here[1..] == tail;
    l' := l;
    if p.Reads? {
      l' := Bin(op, l, p.t);
      if r.Err? {
        ErrorStays(re, k, l', p.rest);
      }
    }
  }

  class Evaluator {
    const args: seq<Word>
    const re: Regex
    var pos: nat

    ghost predicate Valid()
      reads this
    {
      pos <= |args|
    }

    constructor (args: seq<Word>, re: Regex)
      ensures Valid() && pos == 0 && this.args == args && this.re == re
    {
      this.args := args;
      this.re := re;
      pos := 0;
    }

    /** The operator at the cursor, when it is one of level `k` (the chains of nextarg tests of eval to eval5). */
    method NextOp(k: nat) returns (op: Option<Op>)
      requires Valid()
      ensures op.Some? <==> OpNext(k, args[pos..])
      ensures op.Some? ==> pos < |args| && args[pos] == Operator(op.value)
    {
      op := None;
      if pos < |args| {
        match args[pos]
        case Operator(o) =>
          if LevelOf(o) == k {
            op := Some(o);
          }
        case _ =>
      }
    }

    /** eval (level 0) to eval5 (level 5): operands of the next level, combined from left to right. */
    method EvalLevel(k: nat) returns (r: Result)
      requires Valid() && k <= TOP
      modifies this`pos
      ensures Valid() && pos >= old(pos) && (r.Ok? ==> pos > old(pos))
      ensures Agrees(re, Parse(k, args[old(pos)..]), r, args[pos..]) == true
      decreases |args| - pos, 1, TOP - k
    {
      if k == TOP {
        r := EvalTop();
        return;
      }
      ghost var start := args[pos..];
      r := EvalLevel(k + 1);
      ghost var l := FirstOperand(re, k, start, r, args[pos..]);
      var more := r.Ok?;
      while more
        invariant Valid() && pos >= old(pos) && (more ==> r.Ok?) && (r.Ok? ==> pos > old(pos))
        invariant if more then Standing(re, k, start, l, r, args[pos..]) == true
                  else Agrees(re, Parse(k, start), r, args[pos..]) == true
        decreases more, |args| - pos
      {
        more, r, l := EvalNext(k, start, l, r.v);
      }
    }

    /** One round of such a loop: an operator of this level and its right operand, if there are any. */
    method EvalNext(k: nat, ghost start: seq<Word>, ghost l: Tree, v: Value)
      returns (more: bool, r: Result, ghost l': Tree)
      requires Valid() && k < TOP && Standing(re, k, start, l, Ok(v), args[pos..]) == true
      modifies this`pos
      ensures Valid() && pos >= old(pos) && (more ==> r.Ok? && pos > old(pos))
      ensures if more then Standing(re, k, start, l', r, args[pos..]) == true
              else Agrees(re, Parse(k, start), r, args[pos..]) == true
      decreases |args| - pos, 1, TOP - k - 1, 1
    {
      l' := l;
      ghost var here := args[pos..];
      var op := NextOp(k);
      if op.None? {
        NoOperator(re, k, start, l, Ok(v), here);
        return false, Ok(v), l;
      }
      pos := pos + 1;
      assert here == [Operator(op.value)] + args[pos..];
      ghost var tail := args[pos..];
      var y := EvalLevel(k + 1);
      r := if y.Err? then y else Apply(re, op.value, v, y.v);
      l' := RightOperand(re, k, start, l, v, op.value, tail, y, args[pos..], r);
      more := r.Ok?;
    }

    /** eval6 and eval7: keywords, parentheses and bare operands. */
    method EvalTop() returns (r: Result)
      requires Valid()
      modifies this`pos
      ensures Valid() && pos >= old(pos)
      ensures Agrees(re, ParseTop(args[old(pos)..]), r, args[pos..]) == true
      ensures r.Ok? ==> pos > old(pos)
      decreases |args| - pos, 0
    {
      assert Opened(LoopSeal, 0);
      if pos == |args| {
        return Err(Syntax);
      }
      var w := args[pos];
      ghost var start := args[pos..];
      assert start[0] == w && start[1..] == args[pos + 1..];
      match w
      case CloseParen =>
        return Err(Syntax);
      case OpenParen =>
        pos := pos + 1;
        r := EvalGroup();
      case Key(k) =>
        pos := pos + 1;
        r := EvalKeyword(k, start);
      case _ =>
        pos := pos + 1;
        r := Ok(Str(WordText(w)));
    }

    /** The rest of a group, after its opening parenthesis. */
    method EvalGroup() returns (r: Result)
      requires Valid()
      modifies this`pos
      ensures Valid() && pos >= old(pos)
      ensures var p := Parse(0, args[old(pos)..]);
              if p.Reads? && p.rest != [] && p.rest[0] == CloseParen
              then r == Evaluate(re, p.t) && (r.Ok? ==> args[pos..] == p.rest[1..]) else r.Err?
      decreases |args| - pos, 2
    {
      assert Opened(LoopSeal, 0);
      r := EvalLevel(0);
      if r.Ok? {
        if pos == |args| || args[pos] != CloseParen {
          return Err(Syntax);
        }
        assert args[pos..][0] == args[pos] && args[pos..][1..] == args[pos + 1..];
        pos := pos + 1;
      }
    }

    /** The rest of a keyword's expression. `start` begins with the keyword. */
    method EvalKeyword(k: Keyword, ghost start: seq<Word>) returns (r: Result)
      requires Valid() && start == [Key(k)] + args[pos..]
      modifies this`pos
      ensures Valid() && pos >= old(pos)
      ensures Agrees(re, ParseTop(start), r, args[pos..])
      decreases |args| - pos, 3
    {
      assert Opened(LoopSeal, 0);
      ghost var tail := args[pos..];
      assert start[0] == Key(k) && start[1..] == tail;
      match k
      case QuoteWord =>
        if pos == |args| {
          return Err(Syntax);
        }
        r := Ok(Str(WordText(args[pos])));
        pos := pos + 1;
        assert start[1] == tail[0] && start[2..] == args[pos..];
      case LengthWord =>
        r := EvalTop();
        if r.Ok? {
          r := Ok(Length(r.v));
        }
      case MatchWord =>
        var x, y := EvalTwo();
        r := Both(re, Colon, x, y);
      case IndexWord =>
        var x, y := EvalTwo();
        r := if x.Err? then x else if y.Err? then y else Ok(Index(x.v, y.v));
      case SubstrWord =>
        r := EvalThree();
    }

    /** Two operands; the second is not looked at when the first is in error. */
    method EvalTwo() returns (x: Result, y: Result)
      requires Valid()
      modifies this`pos
      ensures Valid() && pos >= old(pos)
      ensures var p := ParseTwo(args[old(pos)..]);
              if p.Two? then x == Evaluate(re, p.a) && (x.Ok? ==> y == Evaluate(re, p.b))
                  && (x.Ok? && y.Ok? ==> args[pos..] == p.rest)
              else x.Err? || y.Err?
      decreases |args| - pos, 1
    {
      assert Opened(LoopSeal, 0);
      x := EvalTop();
      y := x;
      if x.Ok? {
        y := EvalTop();
      }
    }

    method EvalThree() returns (r: Result)
      requires Valid()
      modifies this`pos
      ensures Valid() && pos >= old(pos)
      ensures Agrees(re, ParseTop([Key(SubstrWord)] + args[old(pos)..]), r, args[pos..])
      decreases |args| - pos, 2
    {
      assert Opened(LoopSeal, 0);
      ghost var tail := args[pos..];
      ghost var start := [Key(SubstrWord)] + tail;
      assert start[0] == Key(SubstrWord) && start[1..] == tail;
      var x, y := EvalTwo();
      if x.Err? {
        return x;
      }
      if y.Err? {
        return y;
      }
      var z := EvalTop();
      r := if z.Err? then z else Ok(Substr(x.v, y.v, z.v));
    }
  }

  /** What the evaluator's answer for a whole argument list means. */
  lemma WholeList(re: Regex, words: seq<Word>, r: Result, left: seq<Word>)
    requires Agrees(re, Parse(0, words), r, left)
    ensures var done := if r.Ok? && left != [] then Err(Syntax) else r;
            && (done.Ok? ==> exists t :: Shaped(t) && Print(t) == words && Evaluate(re, t) == done)
            && (forall t :: Shaped(t) && Print(t) == words ==> done == Evaluate(re, t))
  {
    assert Opened(LoopSeal, 0);
    var p := Parse(0, words);
    ParseSound(0, words);
    if r.Ok? && left == [] {
      assert Print(p.t) + [] == Print(p.t);
      assert Shaped(p.t) && Print(p.t) == words && Evaluate(re, p.t) == r;
    }
    forall t | Shaped(t) && Print(t) == words
      ensures p == Reads(t, [])
    {
      ParseIff(words, t);
    }
  }

  /** The arguments that words stand for. */
  function Texts(words: seq<Word>): seq<string> {
    seq(|words|, i requires 0 <= i < |words| => WordText(words[i]))
  }

  lemma TextsOfWords(args: seq<string>)
    ensures Texts(Words(args)) == args
  {
    forall i | 0 <= i < |args|
      ensures WordText(Words(args)[i]) == args[i]
    {
      ClassifyText(args[i]);
    }
  }

  function Words(args: seq<string>): seq<Word> {
    seq(|args|, i requires 0 <= i < |args| => Classify(args[i]))
  }

  /**
   * expr_main, up to printing: the value of the argument list and the exit status, or the error that ends the program.
   * An argument list has a value exactly when it is the printed form of a tree that has that value;
       and on every printed
   * form the answer, be it a value or an error, is that of the tree.
   */
  method ExprMain(args: seq<string>, re: Regex) returns (r: Result, status: nat)
    ensures r.Ok? ==> exists t :: Shaped(t) && Print(t) == Words(args) && Evaluate(re, t) == r
    ensures forall t :: Shaped(t) && Print(t) == Words(args) ==> r == Evaluate(re, t)
    ensures r.Ok? ==> status == if Null(r.v) then 1 else 0
    ensures Texts(Words(args)) == args
  {
    status := 1;
    var words := Words(args);
    var e := new Evaluator(words, re);
    assert words[0..] == words;
    r := e.EvalLevel(0);
    ghost var left, answer := e.args[e.pos..], r;
    if r.Ok? && e.pos < |e.args| {
      r := Err(Syntax);
    }
    WholeList(re, words, answer, left);
    TextsOfWords(args);
    if r.Ok? {
      status := if Null(r.v) then 1 else 0;
    }
  }
}
