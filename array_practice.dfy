/** The largest-element scan of PracticeQuestionOnArray.Ts.

    Both routines seed a running maximum with the first element and make one
    pass from index 1, replacing the maximum by any strictly greater element.
    The source's loop runs while `i <= arr.length`, one step past the last
    element; the value read there compares as "not greater", so that step
    never changes the result. The methods below scan in bounds and are proved
    to return exactly what the source's longer loop computes. */
module ArrayPractice {

  /** m is the greatest element of s: it occurs in s and no element exceeds it. */
  predicate IsMaxOf(m: int, s: seq<int>) {
    m in s && forall k :: 0 <= k < |s| ==> s[k] <= m
  }

  /** One execution of the loop body at index i. An index at or past the end
      reads a value for which `> m` is false, so the running maximum stays. */
  function Step(s: seq<int>, m: int, i: nat): (r: int)
    ensures r >= m
    ensures r == m || (i < |s| && r == s[i])
    ensures i >= |s| ==> r == m
  {
    if i < |s| && s[i] > m then s[i] else m
  }

  /** The running maximum after `let m = s[0]; for (let i = 1; i < bound; i++)`
      followed by the loop body. The source's loop `i <= arr.length` is
      `ScanTo(s, |s| + 1)`; the in-bounds loop `i < arr.length` is
      `ScanTo(s, |s|)`. */
  function ScanTo(s: seq<int>, bound: nat): (r: int)
    requires |s| > 0
    ensures r in s && r >= s[0]
  {
    if bound <= 1 then s[0] else Step(s, ScanTo(s, bound - 1), bound - 1)
  }

  /** Scanning the first `bound` elements yields their maximum. */
  lemma {:induction false} ScanToIsMaxOfPrefix(s: seq<int>, bound: nat)
    requires 1 <= bound <= |s|
    ensures IsMaxOf(ScanTo(s, bound), s[..bound])
  {
    if bound > 1 {
      ScanToIsMaxOfPrefix(s, bound - 1);
      assert s[..bound] == s[..bound - 1] + [s[bound - 1]];
    }
  }

  /** The out-of-range iteration at `i = arr.length` never updates the
      result: the `<=` bound of the source and the in-bounds `<` bound give
      the same answer, and that answer is the maximum of the whole array. */
  lemma ExtraStepHarmless(s: seq<int>)
    requires |s| > 0
    ensures ScanTo(s, |s| + 1) == ScanTo(s, |s|)
    ensures IsMaxOf(ScanTo(s, |s| + 1), s)
  {
    ScanToIsMaxOfPrefix(s, |s|);
    assert s[..|s|] == s;
  }

  /** fnFindLargestEle: the maximum of a non-empty array. The method has no
      modifies clause, so the array is left unchanged. */
  method FindLargest(arr: array<int>) returns (maxArrEle: int)
    requires arr.Length > 0
    ensures maxArrEle == ScanTo(arr[..], arr.Length + 1)
    ensures IsMaxOf(maxArrEle, arr[..])
    ensures arr.Length == 1 ==> maxArrEle == arr[0]
  {
    maxArrEle := arr[0];
    var i := 1;
    while i < arr.Length
      invariant 1 <= i <= arr.Length
      invariant maxArrEle == ScanTo(arr[..], i)
    {
      if arr[i] > maxArrEle {
        maxArrEle := arr[i];
      }
      i := i + 1;
    }
    ExtraStepHarmless(arr[..]);
  }

  /** fnFindSecLargestEle: the source gives it the very same body as
      fnFindLargestEle, so despite its name it returns the maximum, the same
      value FindLargest returns on every array. */
  method FindSecLargest(arr: array<int>) returns (maxArrEle: int)
    requires arr.Length > 0
    ensures maxArrEle == ScanTo(arr[..], arr.Length + 1)
    ensures IsMaxOf(maxArrEle, arr[..])
    ensures arr.Length == 1 ==> maxArrEle == arr[0]
  {
    maxArrEle := arr[0];
    var i := 1;
    while i < arr.Length
      invariant 1 <= i <= arr.Length
      invariant maxArrEle == ScanTo(arr[..], i)
    {
      if arr[i] > maxArrEle {
        maxArrEle := arr[i];
      }
      i := i + 1;
    }
    ExtraStepHarmless(arr[..]);
  }

  /** The first driver: the largest of [-45, -34, -2, -34, -7, -5] is -2. */
  method LargestOfDriverArray() returns (largest: int)
    ensures largest == -2
  {
    var driverArray := new int[6] [-45, -34, -2, -34, -7, -5];
    largest := FindLargest(driverArray);
    assert driverArray[..] == [-45, -34, -2, -34, -7, -5];
    assert driverArray[2] == -2;
  }

  /** The second driver: on [2, 9, 6, 35, 30, 12, 11, 32] the routine named
      for the second largest element returns 35, the largest; the second
      largest element, 32, is not what it returns. */
  method SecLargestOfDriverArray() returns (secLargest: int)
    ensures secLargest == 35
  {
    var secLargArray := new int[8] [2, 9, 6, 35, 30, 12, 11, 32];
    secLargest := FindSecLargest(secLargArray);
    assert secLargArray[..] == [2, 9, 6, 35, 30, 12, 11, 32];
    assert secLargArray[3] == 35;
  }
}
