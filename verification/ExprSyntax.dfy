/** The syntax of expr: trees, the argument lists they stand for, and the one tree of an argument list. */
module ExprSyntax {
  import opened Bits
  import opened ExprValue

  datatype Keyword = QuoteWord | LengthWord | MatchWord | IndexWord | SubstrWord

  /** An argument, told apart by its text. Every argument but a parenthesis or a keyword can be an operand. */
  datatype Word = OpenParen | CloseParen | Key(k: Keyword) | Operator(op: Op) | Plain(text: string)

  function OpText(op: Op): string {
    match op
    case Or => "|" case And => "&"
    case Lt => "<" case Le => "<=" case Eq => "=" case EqEq => "==" case Ne => "!=" case Ge => ">=" case Gt => ">"
    case Add => "+" case Sub => "-" case Mul => "*" case Div => "/" case Mod => "%" case Colon => ":"
  }

  function KeyText(k: Keyword): string {
    match k
    case QuoteWord => "quote" case LengthWord => "length" case MatchWord => "match" case IndexWord => "index"
    case SubstrWord => "substr"
  }

  function WordText(w: Word): string {
    match w
    case OpenParen => "(" case CloseParen => ")"
    case Key(k) => KeyText(k)
    case Operator(op) => OpText(op)
    case Plain(s) => s
  }

  function Classify(s: string): Word {
    if s == "(" then OpenParen else if s == ")" then CloseParen
    else if s == "quote" then Key(QuoteWord) else if s == "length" then Key(LengthWord) else if s == "match"
        then Key(MatchWord)
    else if s == "index" then Key(IndexWord) else if s == "substr" then Key(SubstrWord)
    else if s == "|" then Operator(Or) else if s == "&" then Operator(And)
    else if s == "<" then Operator(Lt) else if s == "<=" then Operator(Le) else if s == "=" then Operator(Eq)
    else if s == "==" then Operator(EqEq) else if s == "!=" then Operator(Ne) else if s == ">=" then Operator(Ge)
    else if s == ">" then Operator(Gt) else if s == "+" then Operator(Add) else if s == "-" then Operator(Sub)
    else if s == "*" then Operator(Mul) else if s == "/" then Operator(Div) else if s == "%" then Operator(Mod)
    else if s == ":" then Operator(Colon) else Plain(s)
  }

  lemma ClassifyText(s: string)
    ensures WordText(Classify(s)) == s
  {
  }

  datatype Tree =
    | Lit(w: Word)
    | Quote(w: Word)
    | Paren(t: Tree)
    | LengthOf(t: Tree)
    | MatchOf(a: Tree, b: Tree)
    | IndexOf(a: Tree, b: Tree)
    | SubstrOf(a: Tree, b: Tree, c: Tree)
    | Bin(op: Op, l: Tree, r: Tree)

  /** The higher, the tighter: eval handles level 0, eval1 level 1, and so on; level 6 is that of the keywords. */
  function LevelOf(op: Op): nat {
    match op
    case Or => 0
    case And => 1
    case Colon => 5
    case Mul => 4 case Div => 4 case Mod => 4
    case Add => 3 case Sub => 3
    case _ => 2
  }

  const TOP: nat := 6

  function Level(t: Tree): nat {
    if t.Bin? then LevelOf(t.op) else TOP
  }

  predicate Operand(w: Word) {
    w.Operator? || w.Plain?
  }

  /** The trees that need no more parentheses: operators of one level group to the left. */
  predicate Shaped(t: Tree) {
    match t
    case Lit(w) => Operand(w)
    case Quote(_) => true
    case Paren(u) => Shaped(u)
    case LengthOf(u) => Shaped(u) && Level(u) == TOP
    case MatchOf(a, b) => Shaped(a) && Shaped(b) && Level(a) == TOP && Level(b) == TOP
    case IndexOf(a, b) => Shaped(a) && Shaped(b) && Level(a) == TOP && Level(b) == TOP
    case SubstrOf(a, b, c) => Shaped(a) && Shaped(b) && Shaped(c) && Level(a) == TOP && Level(b) == TOP
        && Level(c) == TOP
    case Bin(op, l, r) => Shaped(l) && Shaped(r) && Level(l) >= LevelOf(op) && Level(r) > LevelOf(op)
  }

  /** The argument list of a tree. */
  function Print(t: Tree): seq<Word> {
    match t
    case Lit(w) => [w]
    case Quote(w) => [Key(QuoteWord)] + [w]
    case Paren(u) => [OpenParen] + Print(u) + [CloseParen]
    case LengthOf(u) => [Key(LengthWord)] + Print(u)
    case MatchOf(a, b) => [Key(MatchWord)] + Print(a) + Print(b)
    case IndexOf(a, b) => [Key(IndexWord)] + Print(a) + Print(b)
    case SubstrOf(a, b, c) => [Key(SubstrWord)] + Print(a) + Print(b) + Print(c)
    case Bin(op, l, r) => Print(l) + [Operator(op)] + Print(r)
  }

  datatype Parsed = Fails | Reads(t: Tree, rest: seq<Word>)

  /** The next argument is an operator of level `k`. */
  predicate OpNext(k: nat, s: seq<Word>) {
    s != [] && s[0].Operator? && LevelOf(s[0].op) == k
  }

  /** Reads an expression of level `k` from the front of an argument list. */
  function Parse(k: nat, s: seq<Word>): (p: Parsed)
    requires k <= TOP
    ensures p.Reads? ==> |p.rest| < |s|
    decreases |s|, 1, TOP - k
  {
    if k == TOP then ParseTop(s) else
    match Parse(k + 1, s)
    case Fails => Fails
    case Reads(l, rest) => ParseOn(k, l, rest)
  }

  /** Goes on with operators of level `k` after a left operand. */
  function ParseOn(k: nat, l: Tree, s: seq<Word>): (p: Parsed)
    requires k < TOP
    ensures p.Reads? ==> |p.rest| <= |s|
    decreases |s|, 2
  {
    if !OpNext(k, s) then Reads(l, s) else
    match Parse(k + 1, s[1..])
    case Fails => Fails
    case Reads(r, rest) => ParseOn(k, Bin(s[0].op, l, r), rest)
  }

  function ParseTop(s: seq<Word>): (p: Parsed)
    ensures p.Reads? ==> |p.rest| < |s|
    decreases |s|, 0
  {
    if s == [] then Fails else
    match s[0]
    case CloseParen => Fails
    case OpenParen =>
      (match Parse(0, s[1..])
       case Fails => Fails
       case Reads(u, rest) => if rest != [] && rest[0] == CloseParen then Reads(Paren(u), rest[1..]) else Fails)
    case Key(k) =>
      (match k
       case QuoteWord => if |s| == 1 then Fails else Reads(Quote(s[1]), s[2..])
       case LengthWord =>
         (match ParseTop(s[1..])
          case Fails => Fails
          case Reads(u, rest) => Reads(LengthOf(u), rest))
       case SubstrWord =>
         (match ParseTwo(s[1..])
          case NotTwo => Fails
          case Two(a, b, rest) =>
            (match ParseTop(rest)
             case Fails => Fails
             case Reads(c, rest1) => Reads(SubstrOf(a, b, c), rest1)))
       case _ =>
         (match ParseTwo(s[1..])
          case NotTwo => Fails
          case Two(a, b, rest) => Reads(if k == MatchWord then MatchOf(a, b) else IndexOf(a, b), rest)))
    case _ => Reads(Lit(s[0]), s[1..])
  }

  datatype Operands = NotTwo | Two(a: Tree, b: Tree, rest: seq<Word>)

  function ParseTwo(s: seq<Word>): (p: Operands)
    ensures p.Two? ==> |p.rest| < |s|
    decreases |s|, 1
  {
    match ParseTop(s)
    case Fails => NotTwo
    case Reads(a, rest) =>
      (match ParseTop(rest)
       case Fails => NotTwo
       case Reads(b, rest1) => Two(a, b, rest1))
  }

  // Printing and parsing undo each other.

  /** Nothing in `s` goes on with an expression of level `k` or tighter. */
  predicate EndsAt(k: nat, s: seq<Word>) {
    s != [] && s[0].Operator? ==> LevelOf(s[0].op) < k
  }

  lemma {:induction false} ParseTree(k: nat, t: Tree, s: seq<Word>)
    requires k < TOP && Shaped(t) && Level(t) >= k && EndsAt(k + 1, s)
    ensures Parse(k, Print(t) + s) == ParseOn(k, t, s)
    decreases t, TOP - k, 1
  {
    if Level(t) > k {
      if k + 1 == TOP {
        ParseTopTree(t, s);
        assert Opened(LoopSeal, 0);
      } else {
        ParseTree(k + 1, t, s);
      }
    } else {
      ParseBin(k, t, s);
    }
  }

  lemma {:induction false} ParseBin(k: nat, t: Tree, s: seq<Word>)
    requires k < TOP && Shaped(t) && t.Bin? && Level(t) == k && EndsAt(k + 1, s)
    ensures Parse(k, Print(t) + s) == ParseOn(k, t, s)
    decreases t, TOP - k, 0
  {
    var s1 := Print(t.r) + s;
    var s2 := [Operator(t.op)] + s1;
    assert Print(t) + s == Print(t.l) + s2;
    ParseTree(k, t.l, s2);
    assert s2[1..] == s1;
    ParseWhole(k + 1, t.r, s);
  }

  /** A tree of level `k` and no more. */
  lemma {:induction false} ParseWhole(k: nat, t: Tree, s: seq<Word>)
    requires k <= TOP && Shaped(t) && Level(t) >= k && EndsAt(k, s)
    ensures Parse(k, Print(t) + s) == Reads(t, s)
    decreases t, TOP - k, 2
  {
    if k == TOP {
      ParseTopTree(t, s);
      assert Opened(LoopSeal, 0);
    } else {
      ParseTree(k, t, s);
    }
  }

  // What ParseTop does after its first argument.

  ghost predicate TopReads(s: seq<Word>, t: Tree, rest: seq<Word>) {
    forall k: int {:trigger Opened(LoopSeal, k)} :: Sealed(k) ==> ParseTop(s) == Reads(t, rest)
  }

  lemma TopLit(w: Word, s: seq<Word>)
    requires Operand(w)
    ensures TopReads([w] + s, Lit(w), s)
  {
    assert ([w] + s)[1..] == s;
    assert ParseTop([w] + s) == Reads(Lit(w), s);
  }

  lemma TopQuote(w: Word, s: seq<Word>)
    ensures TopReads([Key(QuoteWord)] + [w] + s, Quote(w), s)
  {
    var all := [Key(QuoteWord)] + [w] + s;
    assert all[0] == Key(QuoteWord) && all[1] == w && all[2..] == s;
    assert ParseTop(all) == Reads(Quote(w), s);
  }

  lemma TopParen(s: seq<Word>, u: Tree, rest: seq<Word>)
    requires Parse(0, s) == Reads(u, [CloseParen] + rest)
    ensures TopReads([OpenParen] + s, Paren(u), rest)
  {
    assert ([OpenParen] + s)[1..] == s && ([CloseParen] + rest)[1..] == rest;
    assert ParseTop([OpenParen] + s) == Reads(Paren(u), rest);
  }

  lemma TopLength(s: seq<Word>, u: Tree, rest: seq<Word>)
    requires TopReads(s, u, rest)
    ensures TopReads([Key(LengthWord)] + s, LengthOf(u), rest)
  {
    assert Opened(LoopSeal, 0);
    assert ([Key(LengthWord)] + s)[1..] == s;
  }

  lemma TopTwo(k: Keyword, s: seq<Word>, a: Tree, s1: seq<Word>, b: Tree, rest: seq<Word>)
    requires TopReads(s, a, s1) && TopReads(s1, b, rest) && (k == MatchWord || k == IndexWord)
    ensures TopReads([Key(k)] + s, if k == MatchWord then MatchOf(a, b) else IndexOf(a, b), rest)
  {
    assert Opened(LoopSeal, 0);
    assert ([Key(k)] + s)[1..] == s;
  }

  lemma TopThree(s: seq<Word>, a: Tree, s1: seq<Word>, b: Tree, s2: seq<Word>, c: Tree, rest: seq<Word>)
    requires TopReads(s, a, s1) && TopReads(s1, b, s2) && TopReads(s2, c, rest)
    ensures TopReads([Key(SubstrWord)] + s, SubstrOf(a, b, c), rest)
  {
    assert Opened(LoopSeal, 0);
    assert ([Key(SubstrWord)] + s)[1..] == s;
  }

  lemma JoinTwo(w: Word, a: seq<Word>, b: seq<Word>, s: seq<Word>)
    ensures [w] + a + b + s == [w] + (a + (b + s))
  {
  }

  lemma JoinThree(w: Word, a: seq<Word>, b: seq<Word>, c: seq<Word>, s: seq<Word>)
    ensures [w] + a + b + c + s == [w] + (a + (b + (c + s)))
  {
  }

  lemma JoinMore(w: Word, a: seq<Word>, b: seq<Word>, c: seq<Word>, rest: seq<Word>, s1: seq<Word>, tail: seq<Word>,
                 s: seq<Word>)
    requires s1 == c + rest && tail == a + b + s1 && s != [] && s[0] == w && s[1..] == tail
    ensures s == [w] + a + b + c + rest
  {
    assert s == [w] + tail;
  }

  /** The front of an argument list that begins with the printed tree `t`. */
  lemma {:induction false} ParseTopTree(t: Tree, s: seq<Word>)
    requires Shaped(t) && Level(t) == TOP
    ensures TopReads(Print(t) + s, t, s)
    decreases t, 0, 0
  {
    match t
    case Lit(w) => TopLit(w, s);
    case Quote(w) => TopQuote(w, s);
    case Paren(u) =>
      var s1 := Print(u) + ([CloseParen] + s);
      assert Print(t) + s == [OpenParen] + s1;
      ParseWhole(0, u, [CloseParen] + s);
      TopParen(s1, u, s);
    case LengthOf(u) =>
      var s1 := Print(u) + s;
      assert Print(t) + s == [Key(LengthWord)] + s1;
      ParseTopTree(u, s);
      TopLength(s1, u, s);
    case MatchOf(a, b) =>
      var s1 := Print(b) + s;
      JoinTwo(Key(MatchWord), Print(a), Print(b), s);
      ParseTopTree(a, s1);
      ParseTopTree(b, s);
      TopTwo(MatchWord, Print(a) + s1, a, s1, b, s);
    case IndexOf(a, b) =>
      var s1 := Print(b) + s;
      JoinTwo(Key(IndexWord), Print(a), Print(b), s);
      ParseTopTree(a, s1);
      ParseTopTree(b, s);
      TopTwo(IndexWord, Print(a) + s1, a, s1, b, s);
    case SubstrOf(a, b, c) =>
      var s2 := Print(c) + s;
      var s1 := Print(b) + s2;
      JoinThree(Key(SubstrWord), Print(a), Print(b), Print(c), s);
      ParseTopTree(a, s1);
      ParseTopTree(b, s2);
      ParseTopTree(c, s);
      TopThree(Print(a) + s1, a, s1, b, s2, c, s);
  }

  /** What has been parsed prints as what was read. */
  ghost predicate Sound(k: nat, p: Parsed, s: seq<Word>) {
    p.Reads? ==> Shaped(p.t) && Level(p.t) >= k && s == Print(p.t) + p.rest && EndsAt(k, p.rest)
  }

  lemma {:induction false} ParseSound(k: nat, s: seq<Word>)
    requires k <= TOP
    ensures Sound(k, Parse(k, s), s)
    decreases |s|, 1, TOP - k
  {
    if k == TOP {
      ParseTopSound(s);
    } else {
      ParseSound(k + 1, s);
      var p := Parse(k + 1, s);
      if p.Reads? {
        ParseOnSound(k, p.t, p.rest, s);
      }
    }
  }

  lemma {:induction false} ParseOnSound(k: nat, l: Tree, rest: seq<Word>, s: seq<Word>)
    requires k < TOP && Shaped(l) && Level(l) >= k && s == Print(l) + rest && EndsAt(k + 1, rest)
    ensures Sound(k, ParseOn(k, l, rest), s)
    decreases |rest|, 2
  {
    if OpNext(k, rest) {
      ParseSound(k + 1, rest[1..]);
      var p := Parse(k + 1, rest[1..]);
      if p.Reads? {
        var t := Bin(rest[0].op, l, p.t);
        assert rest == [rest[0]] + rest[1..];
        assert s == Print(t) + p.rest;
        ParseOnSound(k, t, p.rest, s);
      }
    }
  }

  lemma {:induction false} ParseTopSound(s: seq<Word>)
    ensures Sound(TOP, ParseTop(s), s)
    decreases |s|, 0
  {
    if s == [] {
      return;
    }
    var tail := s[1..];
    match s[0]
    case OpenParen =>
      ParseSound(0, tail);
      SoundParen(s, tail);
    case Key(k) =>
      if k == LengthWord {
        ParseTopSound(tail);
        SoundLength(s, tail);
      } else if k == SubstrWord {
        ParseTwoSound(tail);
        var p := ParseTwo(tail);
        if p.Two? {
          ParseTopSound(p.rest);
        }
        SoundThree(s, tail);
      } else if k != QuoteWord {
        ParseTwoSound(tail);
        SoundTwo(s, tail);
      }
    case _ =>
  }

  lemma SoundParen(s: seq<Word>, tail: seq<Word>)
    requires s != [] && s[0] == OpenParen && tail == s[1..] && Sound(0, Parse(0, tail), tail)
    ensures Sound(TOP, ParseTop(s), s)
  {
    var p := Parse(0, tail);
    if p.Reads? && p.rest != [] && p.rest[0] == CloseParen {
      assert p.rest == [CloseParen] + p.rest[1..];
      assert s == [OpenParen] + tail;
    }
  }

  lemma SoundLength(s: seq<Word>, tail: seq<Word>)
    requires s != [] && s[0] == Key(LengthWord) && tail == s[1..] && Sound(TOP, ParseTop(tail), tail)
    ensures Sound(TOP, ParseTop(s), s)
  {
    assert s == [s[0]] + tail;
  }

  ghost predicate SoundPair(p: Operands, s: seq<Word>) {
    p.Two? ==>
      && Shaped(p.a) && Shaped(p.b) && Level(p.a) == TOP && Level(p.b) == TOP
      && s == Print(p.a) + Print(p.b) + p.rest && EndsAt(TOP, p.rest)
  }

  lemma SoundTwo(s: seq<Word>, tail: seq<Word>)
    requires s != [] && (s[0] == Key(MatchWord) || s[0] == Key(IndexWord)) && tail == s[1..]
    requires SoundPair(ParseTwo(tail), tail)
    ensures Sound(TOP, ParseTop(s), s)
  {
    var p := ParseTwo(tail);
    if p.Two? {
      assert s == [s[0]] + tail == [s[0]] + Print(p.a) + Print(p.b) + p.rest;
    }
  }

  lemma SoundThree(s: seq<Word>, tail: seq<Word>)
    requires s != [] && s[0] == Key(SubstrWord) && tail == s[1..] && SoundPair(ParseTwo(tail), tail)
    requires ParseTwo(tail).Two? ==> Sound(TOP, ParseTop(ParseTwo(tail).rest), ParseTwo(tail).rest)
    ensures Sound(TOP, ParseTop(s), s)
  {
    var p := ParseTwo(tail);
    if p.Two? && ParseTop(p.rest).Reads? {
      var q := ParseTop(p.rest);
      JoinMore(s[0], Print(p.a), Print(p.b), Print(q.t), q.rest, p.rest, tail, s);
    }
  }

  lemma {:induction false} ParseTwoSound(s: seq<Word>)
    ensures SoundPair(ParseTwo(s), s)
    decreases |s|, 1
  {
    ParseTopSound(s);
    if ParseTop(s).Reads? {
      ParseTopSound(ParseTop(s).rest);
    }
  }

  /** An argument list has at most one tree, and the parser finds it. */
  lemma ParseIff(s: seq<Word>, t: Tree)
    ensures Parse(0, s) == Reads(t, []) <==> Shaped(t) && s == Print(t)
  {
    ParseSound(0, s);
    assert Print(t) + [] == Print(t);
    if Shaped(t) {
      ParseWhole(0, t, []);
    }
  }
}
