# DSA-In-TypeScript practice routines, modelled in Dafny

This project models the two teaching files of the repository and proves what
their code and their accompanying analyses promise.

- `array_practice.dfy`, module `ArrayPractice`, models
  `PracticeQuestionOnArray.Ts`: the largest-element scan `fnFindLargestEle`
  and its copy `fnFindSecLargestEle`. Both are methods over an `array<int>`
  with a `while` loop. The loop invariant ties the running maximum to
  `ScanTo(s, i)`. This function executes the loop body for the indices
  `1 .. i-1`. Its step treats an index past the end as "not greater", which is
  how the out-of-range read `arr[arr.length]` behaves in the source.
  The source loops while `i <= arr.length`, which is `ScanTo(s, |s| + 1)`. The
  methods scan in bounds and are proved to return that same value. They are
  also proved to return the maximum (`IsMaxOf`: it occurs in the array, and
  no element exceeds it).
- `time_complexity.dfy`, module `TimeComplexity`, models
  `PracticeQuestionOnTimeComplexity.ts`: `example1`, `example2`, `example3`
  with `recursiveHelper`, `example4` and `fibonacci`. Each `console.log` is
  modelled as appending to a log that the routine returns. The length of the
  log is the routine's count of elementary actions. `example1`, `example3` and
  `example4` are methods with loops, each proved against a function that
  describes its whole log (`Pairs`, `HelperLogs`) or against an explicit
  description of it. `example2`, `recursiveHelper` and `fibonacci` are
  recursive functions. `Example2Calls(n)` and `Calls(n)` count the
  invocations that evaluating `example2(n)` and `fibonacci(n)` make.

Behaviour of the code worth noting:

- `example2(n)` for `n >= 1` is `floor(log2 n) + 1`, the bit length of `n`.
  For example, `example2(3)` is 2 and `example2(4)` is 3. It makes exactly
  that many calls.
- Negative arguments are accepted. `fibonacci(-1)` returns -1, and
  `example2` of a negative number returns 1. `example1` and `example3` log
  nothing for `n <= 0`.
- No routine limits the size of `n`.
- On an empty array the scan returns `undefined`. The model requires a
  non-empty array instead of modelling that value.

`fnFindSecLargestEle` has the same body as `fnFindLargestEle`. Despite its
name it returns the largest element. The model keeps that behaviour. Both
methods ensure the same deterministic value, `ScanTo(arr[..], arr.Length + 1)`,
so they agree on every array.

## Model

| member | source | states |
|---|---|---|
| `ArrayPractice.Step` | PracticeQuestionOnArray.Ts:6-8 | one iteration of the loop body: the running maximum never decreases, and either stays or becomes `arr[i]`; at an index past the end (where the source reads `undefined`, which compares as not greater) it stays |
| `ArrayPractice.ScanTo` | PracticeQuestionOnArray.Ts:4-9 | the running maximum after the loop has run for the indices below a bound; `ScanTo(s, arr.length + 1)` is the source's `i <= arr.length` loop; the value is always an element of the array and at least `arr[0]` |
| `ArrayPractice.ScanToIsMaxOfPrefix` | PracticeQuestionOnArray.Ts:4-9 | the running maximum after the iterations up to index i-1 is the maximum of `arr[0..i)`: it is one of those elements and none of them is greater |
| `ArrayPractice.ExtraStepHarmless` | PracticeQuestionOnArray.Ts:5-7 | the extra iteration at `i = arr.length` never changes the result, so the `<=` bound and the in-bounds `<` bound agree, and the result is the array's maximum |
| `ArrayPractice.FindLargest` | PracticeQuestionOnArray.Ts:3-12 | for a non-empty array, returns exactly what the source's `<=` loop computes; that value occurs in the array and is at least every element; a one-element array gives `arr[0]`; the array is not modified (no modifies clause) |
| `ArrayPractice.FindSecLargest` | PracticeQuestionOnArray.Ts:20-29 | the same guarantees as `FindLargest`, with the same determined value, so it returns the maximum and not the second largest element |
| `ArrayPractice.LargestOfDriverArray` | PracticeQuestionOnArray.Ts:1-14 | the scan of `[-45, -34, -2, -34, -7, -5]` returns -2 |
| `ArrayPractice.SecLargestOfDriverArray` | PracticeQuestionOnArray.Ts:18-31 | the second routine on `[2, 9, 6, 35, 30, 12, 11, 32]` returns 35, the largest element, not 32 |
| `TimeComplexity.Pow2` | PracticeQuestionOnTimeComplexity.ts:209 | the integer bound `Math.pow(2, n)` for natural n, always at least 1 |
| `TimeComplexity.Example1` | PracticeQuestionOnTimeComplexity.ts:1-9 | the log of the nested loops is `Pairs(n)`, the rows `(i,1) .. (i,i)` for i = 1 .. n; for n >= 0 it has n(n+1)/2 entries |
| `TimeComplexity.PairsLength` | PracticeQuestionOnTimeComplexity.ts:48-57 | example1 performs 1 + 2 + ... + n = n(n+1)/2 inner steps |
| `TimeComplexity.PairsAt` | PracticeQuestionOnTimeComplexity.ts:2-6 | each pair (i, j) with 1 <= j <= i <= n is logged, at position (i-1)i/2 + j - 1 |
| `TimeComplexity.PairsOrdered` | PracticeQuestionOnTimeComplexity.ts:2-6 | every logged pair has 1 <= j <= i <= n, and the log is in increasing i, then increasing j, order |
| `TimeComplexity.Example2` | PracticeQuestionOnTimeComplexity.ts:74-77 | the halving recursion terminates on every integer and returns at least 1 |
| `TimeComplexity.Example2IsBitLength` | PracticeQuestionOnTimeComplexity.ts:74-77 | for n >= 1 the result r satisfies 2^(r-1) <= n < 2^r, so it is floor(log2 n) + 1, the number of halvings to reach the base case plus one |
| `TimeComplexity.Example2Calls` | PracticeQuestionOnTimeComplexity.ts:74-77 | the number of calls evaluating example2(n) makes, itself included; always at least 1 |
| `TimeComplexity.Example2CountsCalls` | PracticeQuestionOnTimeComplexity.ts:103-107 | example2 returns exactly its own number of calls, so with `Example2IsBitLength` it makes floor(log2 n) + 1 calls for n >= 1 |
| `TimeComplexity.Example2Values` | PracticeQuestionOnTimeComplexity.ts:75-76 | example2(3) = 2, example2(4) = 3, and example2 of 1, 0 or a negative number is 1 |
| `TimeComplexity.RecursiveHelper` | PracticeQuestionOnTimeComplexity.ts:134-138 | recursiveHelper(m) logs m, m-1, ..., 1: exactly max(m, 0) values, the k-th being m - k, and nothing when m <= 0 |
| `TimeComplexity.Example3` | PracticeQuestionOnTimeComplexity.ts:127-132 | the log is the helper's logs for i = 1 .. n in order; for n >= 0 it has n(n+1)/2 entries |
| `TimeComplexity.HelperLogsLength` | PracticeQuestionOnTimeComplexity.ts:180-186 | example3 performs 1 + 2 + ... + n = n(n+1)/2 logging steps |
| `TimeComplexity.HelperLogsAt` | PracticeQuestionOnTimeComplexity.ts:127-138 | the k-th value logged by recursiveHelper(i) is i - k, at position (i-1)i/2 + k of example3's log |
| `TimeComplexity.Example4` | PracticeQuestionOnTimeComplexity.ts:208-213 | for n >= 0 the loop logs exactly 2^n values, 0, 1, ..., 2^n - 1 |
| `TimeComplexity.Fibonacci` | PracticeQuestionOnTimeComplexity.ts:263-266 | the doubly recursive definition terminates on every integer and is never negative for n >= 0 |
| `TimeComplexity.FibonacciMatchesPair` | PracticeQuestionOnTimeComplexity.ts:263-266 | fibonacci agrees with the linear pair-shifting definition starting at (0, 1), so it yields the standard Fibonacci numbers |
| `TimeComplexity.FibonacciValues` | PracticeQuestionOnTimeComplexity.ts:263-266 | fibonacci(0) = 0, fibonacci(1) = 1, fibonacci(5) = 5, fibonacci(10) = 55, fibonacci(-1) = -1 |
| `TimeComplexity.Calls` | PracticeQuestionOnTimeComplexity.ts:263-265 | the number of calls evaluating fibonacci(n) makes, itself included: one for n <= 1, otherwise one plus those of the two recursive calls; always at least 1 and odd |
| `TimeComplexity.CallsClosedForm` | PracticeQuestionOnTimeComplexity.ts:263-266 | the number of calls C(n), with C(0) = C(1) = 1 and C(n) = 1 + C(n-1) + C(n-2), equals 2 fibonacci(n+1) - 1 |
| `TimeComplexity.CallsExponential` | PracticeQuestionOnTimeComplexity.ts:293-302 | the number of calls is exponential: 2^(n/2) <= C(n) <= 2^n |

## Left out

- `console.log` and the actual printing: each routine returns the sequence of values it would log instead.
- The top-level driver statements of `PracticeQuestionOnArray.Ts` (the arrays declared at lines 1 and 18, the calls at lines 14 and 31) are modelled only by the two driver methods above; the printing at lines 16 and 33 is left out.
- JavaScript `number` is a double: `Math.pow(2, n)`, `Math.floor(n / 2)` and overflow of `fibonacci` at large n are modelled with unbounded integers, `n / 2` and `Pow2`.
- Example4: takes a natural `n`; the fractional bounds `Math.pow` yields for negative or fractional `n` are not modelled.
- Fractional arguments to any routine are not modelled; all arguments are integers.
- The value `undefined` that `arr[arr.length]` yields is not modelled as a value; only its effect, a comparison that is false, is captured by `Step` and the lemma `ExtraStepHarmless`.
- FindLargest: requires a non-empty array, because the source's result on an empty array is `undefined`; FindSecLargest likewise.
- The analysis prose blocks of `PracticeQuestionOnTimeComplexity.ts` are sources of the properties above, not code.
