/** The values of expr and the operations on them. */
module ExprValue {
  import opened Bits

  datatype Value = Int(i: int) | Str(s: string)

  datatype Error = Syntax | NonNumeric | ZeroDivision | BadRegex
  datatype Result = Ok(v: Value) | Err(e: Error)

  /** The match of a string against a pattern: the value of the `:` operator, or none for an invalid pattern. */
  type Regex = (string, string) -> Option<Value>

  datatype Op = Or | And | Lt | Le | Eq | EqEq | Ne | Ge | Gt | Add | Sub | Mul | Div | Mod | Colon

  // Numbers and their decimal notation.

  predicate IsDigit(c: char) {
    '0' <= c <= '9'
  }

  predicate IsSpace(c: char) {
    c == ' ' || '\t' <= c <= '\r'
  }

  function DigitValue(c: char): nat
    requires IsDigit(c)
  {
    c as int - '0' as int
  }

  function DigitsValue(s: string): (n: nat)
    requires forall c :: c in s ==> IsDigit(c)
  {
    if s == [] then 0 else
      assert s[|s| - 1] in s;
      10 * DigitsValue(s[..|s| - 1]) + DigitValue(s[|s| - 1])
  }

  function SkipSpaces(s: string): string {
    if s != [] && IsSpace(s[0]) then SkipSpaces(s[1..]) else s
  }

  /** What strtol reads, provided that it reads something and reads all of it. */
  function Number(s: string): Option<int> {
    var t := SkipSpaces(s);
    var digits := if t != [] && (t[0] == '-' || t[0] == '+') then t[1..] else t;
    if digits != [] && forall c :: c in digits ==> IsDigit(c)
    then Some(var n: int := DigitsValue(digits); if t[0] == '-' then -n else n)
    else None
  }

  function DigitChar(d: int): char
    requires 0 <= d < 10
  {
    ('0' as int + d) as char
  }

  function DecimalNat(n: nat): (s: string)
    ensures s != [] && forall c :: c in s ==> IsDigit(c)
  {
    if n < 10 then [DigitChar(n)] else DecimalNat(n / 10) + [DigitChar(n % 10)]
  }

  function Decimal(i: int): string {
    if i < 0 then "-" + DecimalNat(-i) else DecimalNat(i)
  }

  lemma {:induction false} DecimalNatReads(n: nat)
    ensures DigitsValue(DecimalNat(n)) == n
  {
    var s := DecimalNat(n);
    if n < 10 {
      assert s[..0] == [];
    } else {
      DecimalNatReads(n / 10);
      assert s[..|s| - 1] == DecimalNat(n / 10);
    }
  }

  /** Printing an integer and reading it again gives it back. */
  lemma DecimalReads(i: int)
    ensures Number(Decimal(i)) == Some(i)
  {
    if i < 0 {
      DecimalNatReads(-i);
      var s := Decimal(i);
      assert SkipSpaces(s) == s;
      assert s[1..] == DecimalNat(-i);
    } else {
      DecimalNatReads(i);
      var s := Decimal(i);
      assert IsDigit(s[0]);
      assert SkipSpaces(s) == s;
    }
  }

  // Coercions.

  /** toarith: a string that reads as a number becomes that number; any other value stays. */
  function ToArith(v: Value): Value {
    if v.Str? && Number(v.s).Some? then Int(Number(v.s).value) else v
  }

  function Text(v: Value): string {
    if v.Int? then Decimal(v.i) else v.s
  }

  predicate Null(v: Value) {
    match v
    case Int(i) => i == 0
    case Str(s) => s == "" || s == "0"
  }

  // Comparison.

  function StrCmp(a: string, b: string): int {
    if a == [] then (if b == [] then 0 else -1)
    else if b == [] then 1
    else if a[0] != b[0] then a[0] as int - b[0] as int
    else StrCmp(a[1..], b[1..])
  }

  /** `a` comes before `b` in a dictionary: it is a proper prefix, or smaller where they first differ. */
  ghost predicate Precedes(a: string, b: string) {
    a != b && (a <= b || exists k :: DiffersAt(a, b, k) && a[k] < b[k])
  }

  ghost predicate DiffersAt(a: string, b: string, k: int) {
    0 <= k < |a| && k < |b| && a[..k] == b[..k] && a[k] != b[k]
  }

  /** strcmp orders strings as a dictionary does. */
  lemma {:induction false} StrCmpSign(a: string, b: string)
    ensures StrCmp(a, b) == 0 <==> a == b
    ensures StrCmp(a, b) < 0 <==> Precedes(a, b)
    decreases |a|
  {
    if a != [] && b != [] {
      if a[0] == b[0] {
        StrCmpSign(a[1..], b[1..]);
        SameFirst(a, b);
      } else {
        assert DiffersAt(a, b, 0);
      }
    }
  }

  lemma SameFirst(a: string, b: string)
    requires a != [] && b != [] && a[0] == b[0]
    ensures a == b <==> a[1..] == b[1..]
    ensures Precedes(a, b) <==> Precedes(a[1..], b[1..])
  {
    assert a == [a[0]] + a[1..] && b == [b[0]] + b[1..];
    if k :| DiffersAt(a, b, k) && a[k] < b[k] {
      assert a[1..][..k - 1] == a[..k][1..] && b[1..][..k - 1] == b[..k][1..];
      assert DiffersAt(a[1..], b[1..], k - 1);
    }
    if k :| DiffersAt(a[1..], b[1..], k) && a[1..][k] < b[1..][k] {
      assert a[..k + 1] == [a[0]] + a[1..][..k] && b[..k + 1] == [b[0]] + b[1..][..k];
      assert DiffersAt(a, b, k + 1);
    }
  }

  const INT_RANGE := 0x1_0000_0000

  /** The conversion to a 32-bit `int`. */
  function ToInt32(d: int): int {
    var m := d % INT_RANGE;
    if m < INT_RANGE / 2 then m else m - INT_RANGE
  }

  predicate Holds(op: Op, cmpval: int) {
    match op
    case Lt => cmpval < 0
    case Le => cmpval <= 0
    case Eq => cmpval == 0
    case EqEq => cmpval == 0
    case Ne => cmpval != 0
    case Gt => cmpval > 0
    case _ => cmpval >= 0
  }

  /** The order of two texts that a comparison asks for. */
  ghost predicate TextsOrdered(op: Op, a: string, b: string) {
    match op
    case Lt => Precedes(a, b)
    case Le => a == b || Precedes(a, b)
    case Eq => a == b
    case EqEq => a == b
    case Ne => a != b
    case Gt => a != b && !Precedes(a, b)
    case _ => !Precedes(a, b)
  }

  /** Values that are not both integers are compared as their texts are in a dictionary. */
  function Compared(op: Op, l: Value, r: Value): (holds: bool)
    ensures !(l.Int? && r.Int?) ==> holds == TextsOrdered(op, Text(l), Text(r))
  {
    StrCmpSign(Text(l), Text(r));
    if l.Int? && r.Int? then Holds(op, ToInt32(l.i - r.i)) else Holds(op, StrCmp(Text(l), Text(r)))
  }

  predicate Comparison(op: Op) {
    op in {Lt, Le, Eq, EqEq, Ne, Ge, Gt}
  }

  /**
   * The comparisons of two integers are those of the integers exactly when the 32-bit variable that holds the
   * difference keeps its sign. Differences that fit in 32 bits do.
   */
  lemma ComparisonExact(l: int, r: int)
    ensures (forall op :: Comparison(op) ==> Compared(op, Int(l), Int(r)) == Holds(op, l - r))
            <==> (var d := l - r; var m := d % INT_RANGE;
                  d == 0 || (d > 0 && 0 < m < INT_RANGE / 2) || (d < 0 && m >= INT_RANGE / 2))
    ensures -(INT_RANGE / 2) <= l - r < INT_RANGE / 2 ==> ToInt32(l - r) == l - r
  {
    var d := l - r;
    if forall op :: Comparison(op) ==> Compared(op, Int(l), Int(r)) == Holds(op, d) {
      assert Comparison(Lt) && Comparison(Gt);
      assert Compared(Lt, Int(l), Int(r)) == Holds(Lt, d);
      assert Compared(Gt, Int(l), Int(r)) == Holds(Gt, d);
    }
  }

  /** Two numbers that are 2^32 apart compare as equal. */
  lemma ComparisonWraps()
    ensures Compared(Eq, Int(0x1_0000_0000), Int(0)) && !Compared(Gt, Int(0x1_0000_0000), Int(0))
  {
  }

  // Arithmetic.

  function Abs(a: int): nat {
    if a < 0 then -a else a
  }

  /** Division as in C: towards zero. */
  function Quotient(a: int, b: int): int
    requires b != 0
  {
    var q: int := Abs(a) / Abs(b);
    if (a < 0) == (b < 0) then q else -q
  }

  /** The remainder as in C: with the sign of the dividend. */
  function Remainder(a: int, b: int): int
    requires b != 0
  {
    var m: int := Abs(a) % Abs(b);
    if a < 0 then -m else m
  }

  lemma Product(x: int, y: int)
    ensures (-x) * y == -(x * y) == x * (-y) && (-x) * (-y) == x * y
  {
  }

  /** Quotient and remainder belong together. */
  lemma DivisionLaw(a: int, b: int)
    requires b != 0
    ensures b * Quotient(a, b) + Remainder(a, b) == a
  {
    var x: int, y: int := Abs(a), Abs(b);
    var q := x / y;
    assert y * q + x % y == x;
    Product(y, q);
    if a < 0 && b < 0 {
      assert b * Quotient(a, b) == -(y * q);
    } else if a < 0 {
      assert b * Quotient(a, b) == -(y * q);
    } else if b < 0 {
      assert b * Quotient(a, b) == y * q;
    } else {
      assert b * Quotient(a, b) == y * q;
    }
  }

  /** A remainder fits its quotient: together they give the dividend back. */
  function Arithmetic(op: Op, l: Value, r: Value): (o: Result)
    ensures o.Ok? && op == Mod ==>
              var a, b := ToArith(l), ToArith(r);
              a.Int? && b.Int? && b.i != 0 && o.v.Int? && b.i * Quotient(a.i, b.i) + o.v.i == a.i
  {
    var a, b := ToArith(l), ToArith(r);
    if a.Str? || b.Str? then Err(NonNumeric)
    else if (op == Div || op == Mod) && b.i == 0 then Err(ZeroDivision)
    else Ok(Int(match op
                case Add => a.i + b.i
                case Sub => a.i - b.i
                case Mul => a.i * b.i
                case Div => if b.i == 0 then 0 else Quotient(a.i, b.i)
                case _ => if b.i == 0 then 0 else DivisionLaw(a.i, b.i); Remainder(a.i, b.i)))
  }

  function Matched(re: Regex, l: Value, r: Value): Result {
    match re(Text(l), Text(r))
    case None => Err(BadRegex)
    case Some(v) => Ok(v)
  }

  /** The value of a binary operator whose operands both have values. */
  function Apply(re: Regex, op: Op, l: Value, r: Value): Result {
    match op
    case Or => Ok(if Null(l) then r else l)
    case And => Ok(if Null(l) || Null(r) then Int(0) else l)
    case Add => Arithmetic(op, l, r)
    case Sub => Arithmetic(op, l, r)
    case Mul => Arithmetic(op, l, r)
    case Div => Arithmetic(op, l, r)
    case Mod => Arithmetic(op, l, r)
    case Colon => Matched(re, l, r)
    case _ => Ok(Int(if Compared(op, ToArith(l), ToArith(r)) then 1 else 0))
  }

  // The keywords.

  function Length(v: Value): Value {
    Int(|Text(v)|)
  }

  /** strcspn: how many characters stand before the first one that is in `set`. */
  function Span(s: string, set_: string): (n: nat)
    ensures n <= |s|
    ensures n < |s| ==> s[n] in set_
    ensures forall k :: 0 <= k < n ==> s[k] !in set_
  {
    if s == [] || s[0] in set_ then 0 else 1 + Span(s[1..], set_)
  }

  function Index(l: Value, r: Value): Value {
    var n := Span(Text(l), Text(r));
    if n == |Text(l)| then Int(0) else Int(n + 1)
  }

  function Substr(l: Value, from: Value, count: Value): Value {
    var s, i, n := Text(l), ToArith(from), ToArith(count);
    if i.Str? || n.Str? || i.i > |s| || i.i <= 0 || n.i <= 0 then Str("")
    else Str(s[i.i - 1..if i.i - 1 + n.i <= |s| then i.i - 1 + n.i else |s|])
  }
}
