/** The Fibonacci numbers, which bound the depth of Huffman trees. */
module Fibonacci {

  function Fib(n: nat): (r: nat)
    ensures n > 0 ==> r > 0
  {
    if n < 2 then n else Fib(n - 1) + Fib(n - 2)
  }

  lemma {:induction false} FibMono(a: nat, b: nat)
    requires a <= b
    ensures Fib(a) <= Fib(b)
  {
    if a < b {
      FibMono(a, b - 1);
    }
  }

  lemma FibStep(n: nat, a: nat, b: nat)
    requires Fib(n) >= a && Fib(n + 1) >= b
    ensures Fib(n + 2) >= a + b && Fib(n + 3) >= a + 2 * b
  {
    assert Fib(n + 2) == Fib(n + 1) + Fib(n);
    assert Fib(n + 3) == Fib(n + 2) + Fib(n + 1);
  }

  /** A 16-bit total is less than the 25th of them. */
  lemma Fib25(n: nat)
    requires n >= 25
    ensures Fib(n) >= 65536
  {
    assert Fib(3) == 2 && Fib(4) == 3;
    FibStep(3, 2, 3);
    FibStep(5, 5, 8);
    FibStep(7, 13, 21);
    FibStep(9, 34, 55);
    FibStep(11, 89, 144);
    FibStep(13, 233, 377);
    FibStep(15, 610, 987);
    FibStep(17, 1597, 2584);
    FibStep(19, 4181, 6765);
    FibStep(21, 10946, 17711);
    FibStep(23, 28657, 46368);
    FibMono(25, n);
  }
}
