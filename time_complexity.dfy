/** The complexity exhibits of PracticeQuestionOnTimeComplexity.ts.

    Each routine's `console.log` calls are modelled as the sequence of values
    it logs, returned to the caller; the length of that sequence is the
    routine's count of elementary actions. JavaScript's `number` is modelled
    by `int`: `Math.floor(n / 2)` on the positive values where it is used is
    Dafny's `n / 2`, and `Math.pow(2, n)` is `Pow2(n)` for a natural `n`. */
module TimeComplexity {

  // ---------------------------------------------------------------------
  // Arithmetic used by the contracts

  /** 2 raised to the n, the bound `Math.pow(2, n)` of example4. */
  function Pow2(n: nat): (r: nat)
    ensures r >= 1
  {
    if n == 0 then 1 else 2 * Pow2(n - 1)
  }

  /** Index of the first entry of the i-th block when blocks of sizes
      1, 2, 3, ... are laid end to end: 1 + 2 + ... + (i - 1). */
  function BlockStart(i: nat): nat {
    (i - 1) * i / 2
  }

  lemma BlockStartNext(i: nat)
    ensures BlockStart(i + 1) == BlockStart(i) + i
  {
  }

  // ---------------------------------------------------------------------
  // example1: nested loops, quadratic

  /** What the inner loop logs for outer value i: (i, 1), (i, 2), ..., (i, i). */
  function Row(i: nat): seq<(int, int)> {
    seq(i, j => (i, j + 1))
  }

  /** Everything example1(n) logs: the rows for i = 1 .. n, in order. */
  function Pairs(n: int): seq<(int, int)>
    decreases if n <= 0 then 0 else n
  {
    if n <= 0 then [] else Pairs(n - 1) + Row(n)
  }

  /** example1 logs 1 + 2 + ... + n = n(n+1)/2 pairs. */
  lemma {:induction false} PairsLength(n: nat)
    ensures |Pairs(n)| == n * (n + 1) / 2
  {
    if n > 0 {
      PairsLength(n - 1);
      BlockStartNext(n);
    }
  }

  /** The pair (i, j) with 1 <= j <= i <= n is logged at position
      BlockStart(i) + (j - 1): all of row i - 1 before it, then row i in
      increasing j. With PairsLength this says the log is exactly the pairs
      1 <= j <= i <= n in increasing i, then increasing j, order. */
  lemma {:induction false} PairsAt(n: nat, i: nat, j: nat)
    requires 1 <= j <= i <= n
    ensures BlockStart(i) + j - 1 < |Pairs(n)|
    ensures Pairs(n)[BlockStart(i) + j - 1] == (i, j)
  {
    PairsLength(n - 1);
    BlockStartNext(n);
    if i < n {
      PairsAt(n - 1, i, j);
    }
  }

  /** Every logged pair (i, j) has 1 <= j <= i <= n, and the log goes up in
      increasing i, then increasing j, order. */
  lemma {:induction false} PairsOrdered(n: int)
    ensures forall k :: 0 <= k < |Pairs(n)| ==> 1 <= Pairs(n)[k].1 <= Pairs(n)[k].0 <= n
    ensures forall k :: 0 < k < |Pairs(n)| ==>
      Pairs(n)[k - 1].0 < Pairs(n)[k].0 ||
      (Pairs(n)[k - 1].0 == Pairs(n)[k].0 && Pairs(n)[k - 1].1 < Pairs(n)[k].1)
  {
    if n > 0 {
      PairsOrdered(n - 1);
    }
  }

  /** example1: the outer loop runs i over 1 .. n, the inner loop j over 1 .. i,
      and every inner step logs (i, j). */
  method Example1(n: int) returns (log: seq<(int, int)>)
    ensures log == Pairs(n)
    ensures n >= 0 ==> |log| == n * (n + 1) / 2
  {
    log := [];
    var i := 1;
    while i <= n
      invariant 1 <= i <= (if n >= 0 then n + 1 else 1)
      invariant log == Pairs(i - 1)
    {
      var j := 1;
      while j <= i
        invariant 1 <= j <= i + 1
        invariant log == Pairs(i - 1) + Row(i)[..j - 1]
      {
        log := log + [(i, j)];
        j := j + 1;
      }
      assert Row(i)[..i] == Row(i);
      i := i + 1;
    }
    if n >= 0 {
      PairsLength(n);
    }
  }

  // ---------------------------------------------------------------------
  // example2: halving recursion, logarithmic

  /** example2: 1 for every n <= 1, otherwise one more than example2 of
      n halved and rounded down. */
  function Example2(n: int): (r: int)
    ensures r >= 1
  {
    if n <= 1 then 1 else Example2(n / 2) + 1
  }

  /** For n >= 1, example2(n) is the bit length of n, floor(log2 n) + 1:
      the unique r with 2^(r-1) <= n < 2^r. */
  lemma {:induction false} Example2IsBitLength(n: int)
    requires n >= 1
    ensures Pow2(Example2(n) - 1) <= n < Pow2(Example2(n))
  {
    if n > 1 {
      Example2IsBitLength(n / 2);
    }
  }

  /** Sample values: n = 3 gives 2, n = 4 gives 3, and every n <= 1,
      negative ones included, gives 1. */
  lemma Example2Values()
    ensures Example2(3) == 2 && Example2(4) == 3
    ensures Example2(1) == 1 && Example2(0) == 1 && Example2(-5) == 1
  {
  }

  /** The number of calls of example2 that evaluating example2(n) makes,
      the call itself included: one call for n <= 1, otherwise one call plus
      those of the call on n halved. */
  function Example2Calls(n: int): (r: nat)
    ensures r >= 1
  {
    if n <= 1 then 1 else 1 + Example2Calls(n / 2)
  }

  /** example2 returns exactly its own number of calls, so by
      Example2IsBitLength it makes floor(log2 n) + 1 calls for n >= 1. */
  lemma {:induction false} Example2CountsCalls(n: int)
    ensures Example2Calls(n) == Example2(n)
  {
    if n > 1 {
      Example2CountsCalls(n / 2);
    }
  }

  // ---------------------------------------------------------------------
  // example3 with recursiveHelper: a loop calling a linear recursion

  /** recursiveHelper(m): logs m, m - 1, ..., 1, and nothing when m <= 0. */
  function RecursiveHelper(m: int): (log: seq<int>)
    ensures |log| == (if m <= 0 then 0 else m)
    ensures forall k :: 0 <= k < |log| ==> log[k] == m - k
    decreases if m <= 0 then 0 else m
  {
    if m <= 0 then [] else [m] + RecursiveHelper(m - 1)
  }

  /** Everything example3(n) logs: the helper's logs for i = 1 .. n, in order. */
  function HelperLogs(n: int): seq<int>
    decreases if n <= 0 then 0 else n
  {
    if n <= 0 then [] else HelperLogs(n - 1) + RecursiveHelper(n)
  }

  /** example3 logs 1 + 2 + ... + n = n(n+1)/2 values. */
  lemma {:induction false} HelperLogsLength(n: nat)
    ensures |HelperLogs(n)| == n * (n + 1) / 2
  {
    if n > 0 {
      HelperLogsLength(n - 1);
      BlockStartNext(n);
    }
  }

  /** The k-th value logged by the call recursiveHelper(i), for 1 <= i <= n,
      sits at position BlockStart(i) + k of example3's log and is i - k. */
  lemma {:induction false} HelperLogsAt(n: nat, i: nat, k: nat)
    requires 1 <= i <= n && k < i
    ensures BlockStart(i) + k < |HelperLogs(n)|
    ensures HelperLogs(n)[BlockStart(i) + k] == i - k
  {
    HelperLogsLength(n - 1);
    BlockStartNext(n);
    if i < n {
      HelperLogsAt(n - 1, i, k);
    }
  }

  /** example3: for i over 1 .. n, call recursiveHelper(i). */
  method Example3(n: int) returns (log: seq<int>)
    ensures log == HelperLogs(n)
    ensures n >= 0 ==> |log| == n * (n + 1) / 2
  {
    log := [];
    var i := 1;
    while i <= n
      invariant 1 <= i <= (if n >= 0 then n + 1 else 1)
      invariant log == HelperLogs(i - 1)
    {
      log := log + RecursiveHelper(i);
      i := i + 1;
    }
    if n >= 0 {
      HelperLogsLength(n);
    }
  }

  // ---------------------------------------------------------------------
  // example4: a loop to 2^n, exponential

  /** example4: for i over 0 .. 2^n - 1, log i. It logs exactly 2^n values,
      0, 1, ..., 2^n - 1. */
  method Example4(n: nat) returns (log: seq<int>)
    ensures |log| == Pow2(n)
    ensures forall k :: 0 <= k < |log| ==> log[k] == k
  {
    log := [];
    var i := 0;
    while i < Pow2(n)
      invariant 0 <= i <= Pow2(n)
      invariant |log| == i
      invariant forall k :: 0 <= k < i ==> log[k] == k
    {
      log := log + [i];
      i := i + 1;
    }
  }

  // ---------------------------------------------------------------------
  // fibonacci: doubly recursive, exponential

  /** fibonacci: n itself for n <= 1 (negative n included), otherwise the sum
      of the two preceding values. Never negative for n >= 0. */
  function Fibonacci(n: int): (r: int)
    ensures n >= 0 ==> r >= 0
  {
    if n <= 1 then n else Fibonacci(n - 1) + Fibonacci(n - 2)
  }

  /** A linear reference definition: the pair (F(n), F(n + 1)) built by
      repeatedly shifting (a, b) to (b, a + b) from (0, 1). */
  function FibonacciPair(n: nat): (int, int) {
    if n == 0 then (0, 1)
    else
      var p := FibonacciPair(n - 1);
      (p.1, p.0 + p.1)
  }

  /** The doubly recursive fibonacci agrees with the linear definition, so it
      computes the standard Fibonacci numbers. */
  lemma {:induction false} FibonacciMatchesPair(n: nat)
    ensures FibonacciPair(n) == (Fibonacci(n), Fibonacci(n + 1))
  {
    if n > 0 {
      FibonacciMatchesPair(n - 1);
    }
  }

  /** Sample values: F(0) = 0, F(1) = 1, F(5) = 5, F(10) = 55, and
      a negative argument is returned unchanged. */
  lemma FibonacciValues()
    ensures Fibonacci(0) == 0 && Fibonacci(1) == 1
    ensures Fibonacci(5) == 5 && Fibonacci(10) == 55
    ensures Fibonacci(-1) == -1
  {
  }

  /** The number of calls of fibonacci that evaluating fibonacci(n) makes,
      the call itself included: one call for n <= 1, otherwise one call plus
      those of the two recursive calls. The calls form a tree in which every
      call either makes no call or makes two, so their number is odd. */
  function Calls(n: int): (r: nat)
    ensures r >= 1
    ensures r % 2 == 1
    decreases if n <= 0 then 0 else n
  {
    if n <= 1 then 1 else 1 + Calls(n - 1) + Calls(n - 2)
  }

  /** The call count exactly: C(n) = 2 F(n + 1) - 1. */
  lemma {:induction false} CallsClosedForm(n: nat)
    ensures Calls(n) == 2 * Fibonacci(n + 1) - 1
  {
    if n >= 2 {
      CallsClosedForm(n - 1);
      CallsClosedForm(n - 2);
    }
  }

  /** The call count never decreases as n grows. */
  lemma CallsMonotone(n: nat)
    requires n >= 1
    ensures Calls(n - 1) <= Calls(n)
  {
  }

  /** The call count is exponential: 2^(n/2) <= C(n) <= 2^n. */
  lemma {:induction false} CallsExponential(n: nat)
    ensures Pow2(n / 2) <= Calls(n) <= Pow2(n)
  {
    if n >= 2 {
      CallsExponential(n - 1);
      CallsExponential(n - 2);
      CallsMonotone(n - 1);
      assert (n - 2) / 2 + 1 == n / 2;
      assert Pow2(n - 1) == 2 * Pow2(n - 2);
    }
  }
}
