/** What the operators and keywords of expr compute, and how tightly they bind, without reference to how it is done. */
module ExprLaws {
  import opened Bits
  import opened ExprValue
  import opened ExprSyntax

  // ----- numbers -----

  ghost predicate AllSpaces(s: string) {
    forall c :: c in s ==> IsSpace(c)
  }

  ghost predicate AllDigits(s: string) {
    s != [] && forall c :: c in s ==> IsDigit(c)
  }

  /** Blanks, perhaps a sign, and digits. */
  ghost predicate WrittenAs(s: string, blanks: string, sign: string, digits: string) {
    AllSpaces(blanks) && sign in {"", "-", "+"} && AllDigits(digits) && s == blanks + sign + digits
  }

  lemma {:induction false} SkipsAll(blanks: string, t: string)
    requires AllSpaces(blanks) && (t == [] || !IsSpace(t[0]))
    ensures SkipSpaces(blanks + t) == t
  {
    if blanks == [] {
      assert blanks + t == t;
    } else {
      assert (blanks + t)[1..] == blanks[1..] + t;
      SkipsAll(blanks[1..], t);
    }
  }

  lemma {:induction false} SkippedSpaces(s: string) returns (blanks: string)
    ensures AllSpaces(blanks) && s == blanks + SkipSpaces(s)
  {
    if s != [] && IsSpace(s[0]) {
      var b := SkippedSpaces(s[1..]);
      blanks := [s[0]] + b;
    } else {
      blanks := "";
    }
  }

  /** A text is a number exactly when it is written as one, and then its value is that of the digits, with the sign. */
  lemma NumberWritten(s: string, blanks: string, sign: string, digits: string)
    requires WrittenAs(s, blanks, sign, digits)
    ensures var n: int := DigitsValue(digits); Number(s) == Some(if sign == "-" then -n else n)
  {
    var t := sign + digits;
    assert digits[0] in digits && IsDigit(digits[0]);
    assert s == blanks + t;
    if sign == "" {
      assert t == digits;
    } else {
      assert sign == "-" || sign == "+";
      assert t[0] == sign[0] && t[1..] == digits;
    }
    SkipsAll(blanks, t);
    assert SkipSpaces(s) == t;
  }

  lemma WrittenNumber(s: string) returns (blanks: string, sign: string, digits: string)
    requires Number(s).Some?
    ensures WrittenAs(s, blanks, sign, digits)
  {
    blanks := SkippedSpaces(s);
    var t := SkipSpaces(s);
    if t != [] && (t[0] == '-' || t[0] == '+') {
      sign, digits := [t[0]], t[1..];
    } else {
      sign, digits := "", t;
    }
    assert t == sign + digits;
  }

  /** The place values of digits: the first of n + 1 digits counts ten to the n. */
  lemma {:induction false} FirstDigit(c: char, s: string)
    requires IsDigit(c) && forall d :: d in s ==> IsDigit(d)
    ensures forall d :: d in [c] + s ==> IsDigit(d)
    ensures DigitsValue([c] + s) == DigitValue(c) * Tens(|s|) + DigitsValue(s)
  {
    var all := [c] + s;
    if s == [] {
      assert all[..0] == [];
    } else {
      var k := |s| - 1;
      assert s[k] in s && all[..|s|] == [c] + s[..k];
      FirstDigit(c, s[..k]);
      TenTimes(DigitValue(c), Tens(k), DigitsValue(s[..k]), DigitValue(s[k]));
    }
  }

  lemma TenTimes(d: nat, t: nat, x: nat, y: nat)
    ensures 10 * (d * t + x) + y == d * (10 * t) + (10 * x + y)
  {
  }

  function Tens(n: nat): nat {
    if n == 0 then 1 else 10 * Tens(n - 1)
  }

  /** A value counts as a number when its text is one. */
  lemma NumericText(v: Value)
    ensures ToArith(v).Int? <==> Number(Text(v)).Some?
    ensures ToArith(v).Int? ==> Number(Text(v)) == Some(ToArith(v).i)
  {
    if v.Int? { DecimalReads(v.i); }
  }

  // ----- arithmetic -----

  /** The result for two numbers. */
  function OfInts(op: Op, a: int, b: int): Result {
    Arithmetic(op, Int(a), Int(b))
  }

  /** Arithmetic is on the numbers that the texts stand for; anything else is an error. */
  lemma ArithmeticOnTexts(op: Op, l: Value, r: Value)
    ensures if Number(Text(l)).Some? && Number(Text(r)).Some?
            then Arithmetic(op, l, r) == OfInts(op, Number(Text(l)).value, Number(Text(r)).value)
            else Arithmetic(op, l, r) == Err(NonNumeric)
  {
    NumericText(l);
    NumericText(r);
  }

  /** Division by zero is the only other error. */
  lemma ArithmeticFails(op: Op, a: int, b: int)
    ensures OfInts(op, a, b).Err? <==> (op == Div || op == Mod) && b == 0
    ensures OfInts(op, a, b).Err? ==> OfInts(op, a, b) == Err(ZeroDivision)
    ensures OfInts(op, a, b).Ok? ==> OfInts(op, a, b).v.Int?
  {
  }

  /** A sum less one summand is the other; a difference and the subtrahend make the minuend. */
  lemma SumAndDifference(a: int, b: int)
    ensures var sum := OfInts(Add, a, b).v.i; sum - b == a && sum - a == b
    ensures OfInts(Sub, a, b).v.i + b == a
  {
  }

  /** A product is repeated addition, in both directions from zero. */
  lemma ProductLaw(a: int, b: int)
    ensures OfInts(Mul, a, 0).v.i == 0 && OfInts(Mul, a, b + 1).v.i == OfInts(Mul, a, b).v.i + a
  {
    assert a * (b + 1) == a * b + a;
  }

  /** Quotient and remainder: together they give the dividend, and the remainder is smaller than the divisor and has the
  sign of the dividend. */
  lemma QuotientLaw(a: int, b: int)
    requires b != 0
    ensures var q, m := OfInts(Div, a, b).v.i, OfInts(Mod, a, b).v.i;
            && b * q + m == a && Abs(m) < Abs(b) && (m != 0 ==> (m < 0) == (a < 0))
  {
    DivisionLaw(a, b);
  }

  // ----- comparisons -----

  predicate Ordered(op: Op, x: int, y: int) {
    match op
    case Lt => x < y
    case Le => x <= y
    case Eq => x == y
    case EqEq => x == y
    case Ne => x != y
    case Gt => x > y
    case _ => x >= y
  }

  /** Numbers whose difference fits in 32 bits compare as numbers; the answer is 1 or 0. */
  lemma ComparesNumbers(re: Regex, op: Op, l: Value, r: Value, x: int, y: int)
    requires Comparison(op) && Number(Text(l)) == Some(x) && Number(Text(r)) == Some(y)
    requires -(INT_RANGE / 2) <= x - y < INT_RANGE / 2
    ensures Apply(re, op, l, r) == Ok(Int(if Ordered(op, x, y) then 1 else 0))
  {
    NumericText(l);
    NumericText(r);
    ComparisonExact(x, y);
  }

  /** The text of a value in a comparison: numbers are written anew. */
  function Rewritten(v: Value): string {
    Text(ToArith(v))
  }

  /** Everything else compares as texts do in a dictionary. */
  lemma ComparesTexts(re: Regex, op: Op, l: Value, r: Value)
    requires Comparison(op) && (Number(Text(l)).None? || Number(Text(r)).None?)
    ensures Apply(re, op, l, r) == Ok(Int(1)) <==> TextsOrdered(op, Rewritten(l), Rewritten(r))
    ensures Apply(re, op, l, r) == Ok(Int(0)) <==> !TextsOrdered(op, Rewritten(l), Rewritten(r))
    ensures Number(Text(l)).None? ==> Rewritten(l) == Text(l)
  {
    NumericText(l);
    NumericText(r);
  }

  // ----- the other operators and the keywords -----

  /** Empty texts and the text 0 count as false. */
  lemma NullText(v: Value)
    ensures Null(v) <==> Text(v) == "" || Text(v) == "0"
  {
    if v.Int? {
      DecimalReads(v.i);
      assert Number("0") == Some(0) by {
        assert SkipSpaces("0") == "0" && "0"[..0] == [];
      }
    }
  }

  /** `|` gives its first operand that is not false, or else the second; `&` the first, or 0 if either is false. */
  lemma Choices(re: Regex, l: Value, r: Value)
    ensures Apply(re, Or, l, r) == Ok(if Text(l) == "" || Text(l) == "0" then r else l)
    ensures Apply(re, And, l, r) == if Text(l) in {"", "0"} || Text(r) in {"", "0"} then Ok(Int(0)) else Ok(l)
  {
    NullText(l);
    NullText(r);
  }

  /** `index` gives the first position, counted from 1, of a character that the second text has; 0 if none does. */
  lemma IndexLaw(l: Value, r: Value)
    ensures var s, set_, i := Text(l), Text(r), Index(l, r);
            && i.Int? && 0 <= i.i <= |s|
            && (i.i == 0 <==> forall k :: 0 <= k < |s| ==> s[k] !in set_)
            && (i.i > 0 ==> s[i.i - 1] in set_ && forall k :: 0 <= k < i.i - 1 ==> s[k] !in set_)
  {
  }

  /** `substr` gives the part of the text that begins at a position, counted from 1, as long as asked for or as it goes
  on; anything out of range or not numeric gives the empty text. */
  lemma SubstrLaw(l: Value, from: Value, count: Value)
    ensures var s, i, n := Text(l), Number(Text(from)), Number(Text(count));
            var part := Substr(l, from, count);
            && part.Str?
            && if i.Some? && n.Some? && 1 <= i.value <= |s| && n.value >= 1
               then && i.value - 1 + |part.s| <= |s| && s[i.value - 1..][..|part.s|] == part.s
                    && (|part.s| == n.value || (|part.s| < n.value && i.value - 1 + |part.s| == |s|))
               else part.s == ""
  {
    NumericText(from);
    NumericText(count);
  }

  // ----- precedence -----

  /** The operators from the loosest to the tightest. */
  const LEVELS: seq<set<Op>> := [{Or}, {And}, {Lt, Le, Eq, EqEq, Ne, Ge, Gt}, {Add, Sub}, {Mul, Div, Mod}, {Colon}]

  lemma LevelsAre(op: Op, k: nat)
    requires k < |LEVELS|
    ensures LevelOf(op) == k <==> op in LEVELS[k]
  {
  }

  lemma ShapedTwo(op: Op, a: Word, b: Word)
    requires Operand(a) && Operand(b)
    ensures Shaped(Bin(op, Lit(a), Lit(b))) && Shaped(Lit(a)) && Shaped(Lit(b))
  {
    assert Shaped(Lit(a)) && Shaped(Lit(b));
  }

  lemma PrintTwo(op: Op, a: Word, b: Word)
    ensures Print(Bin(op, Lit(a), Lit(b))) == [a] + [Operator(op)] + [b]
  {
  }

  /** `a p b q c`: the tighter operator first, and from left to right between equals. */
  lemma TwoOperators(a: Word, p: Op, b: Word, q: Op, c: Word, i: nat, j: nat)
    requires Operand(a) && Operand(b) && Operand(c) && i < |LEVELS| && j < |LEVELS|
    requires p in LEVELS[i] && q in LEVELS[j]
    ensures Parse(0, [a] + [Operator(p)] + [b] + [Operator(q)] + [c])
            == Reads(if j > i then Bin(p, Lit(a), Bin(q, Lit(b), Lit(c)))
                     else Bin(q, Bin(p, Lit(a), Lit(b)), Lit(c)), [])
  {
    LevelsAre(p, i);
    LevelsAre(q, j);
    var t := if j > i then Bin(p, Lit(a), Bin(q, Lit(b), Lit(c))) else Bin(q, Bin(p, Lit(a), Lit(b)), Lit(c));
    var s := [a] + [Operator(p)] + [b] + [Operator(q)] + [c];
    PrintTwo(p, a, b);
    PrintTwo(q, b, c);
    assert Print(Lit(a)) == [a] && Print(Lit(c)) == [c];
    assert Print(t) == s;
    ShapedTwo(p, a, b);
    ShapedTwo(q, b, c);
    assert |LEVELS| == 6 && Level(Lit(a)) == 6 && Level(Lit(c)) == 6;
    assert Shaped(t);
    ParseIff(s, t);
  }
}
