/** The behavioural oracle of the search: the table cases of `TestLowerBound`
    and `TestLowerBoundAdvanced`, the "32-overflow" case, and the result the
    benchmark expects on the slice s[i] = i. */
module SearchTests {
  import opened Int64
  import opened Search

  /** One row of a test table: a slice, a target and the expected index. */
  datatype TestCase = TestCase(name: string, arg: seq<int64>, value: int64, result: int64)

  const BasicCases: seq<TestCase> := [
    TestCase("exact match", [1, 2, 3, 4], 3, 2),
    TestCase("empty", [], 100, 0),
    TestCase("none", [10, 20, 30], 5, 0),
    TestCase("last", [5, 6, 7], 11, 3),
    TestCase("one", [-1], -1, 0),
    TestCase("one", [-1], 1, 1),
    TestCase("first", [5, 10, 15], 7, 1),
    TestCase("lower match", [1, 2, 6, 8], 7, 3),
    TestCase("multiple repeating", [1, 2, 2, 2, 3, 4], 2, 1)
  ]

  const AdvancedCases: seq<TestCase> := [
    TestCase("all equal == value (leftmost)", [5, 5, 5, 5], 5, 0),
    TestCase("all equal < value -> end", [3, 3, 3], 4, 3),
    TestCase("all equal > value -> 0", [9, 9, 9, 9], 1, 0),
    TestCase("duplicates at start (leftmost among equals)", [2, 2, 2, 3, 4], 2, 0),
    TestCase("duplicates at end (first >= target at tail)", [1, 2, 3, 4, 4, 4], 4, 3),
    TestCase("negative values exact match (leftmost)", [-10, -5, -5, -2, 0, 7], -5, 1),
    TestCase("negative values insert position", [-10, -6, -3, 1, 8], -4, 2),
    TestCase("insert at beginning", [10, 20, 30], 1, 0),
    TestCase("insert in middle (gap)", [1, 4, 7, 10], 6, 2),
    TestCase("insert at end (all < value)", [1, 4, 7, 10], 99, 4),
    TestCase("first greater than value", [5, 6, 7], 5, 0),
    TestCase("value between equal blocks", [1, 1, 1, 3, 3, 3, 5, 5], 4, 6)
  ]

  /** A row is well formed when its slice is sorted and short enough for
      `int64` indices, and it passes when the reference count agrees. */
  predicate WellFormed(c: TestCase) {
    |c.arg| <= MAX && Sorted(c.arg)
  }

  predicate Passes(c: TestCase) {
    CountLess(c.arg, c.value) == c.result as int
  }

  /** The case is decided by its insertion point alone: checking the two
      neighbours of the expected index proves the expected count. */
  lemma CaseByInsertionPoint(c: TestCase)
    requires WellFormed(c)
    requires IsInsertionPoint(c.arg, c.value, c.result as int)
    ensures Passes(c)
  {
    InsertionPointIffCount(c.arg, c.value, c.result as int);
  }

  /** Every row of `TestLowerBound`'s table is sorted and expects the count
      of smaller elements. */
  lemma BasicCasesPass()
    ensures forall i :: 0 <= i < |BasicCases| ==> WellFormed(BasicCases[i]) && Passes(BasicCases[i])
  {
  }

  /** Every row of `TestLowerBoundAdvanced`'s table is sorted and expects the
      count of smaller elements. */
  lemma AdvancedCasesPass()
    ensures forall i :: 0 <= i < |AdvancedCases| ==> WellFormed(AdvancedCases[i]) && Passes(AdvancedCases[i])
  {
    forall i | 0 <= i < |AdvancedCases|
      ensures WellFormed(AdvancedCases[i]) && Passes(AdvancedCases[i])
    {
      CaseByInsertionPoint(AdvancedCases[i]);
    }
  }

  /** The "32-overflow" slice: ten elements, the first five zero, the last
      five 1<<33 .. 1<<37, values that do not fit in 32 bits. */
  const Overflow32Slice: seq<int64> := [
    0, 0, 0, 0, 0,
    0x2_0000_0000, 0x4_0000_0000, 0x8_0000_0000, 0x10_0000_0000, 0x20_0000_0000
  ]

  /** Querying 1<<35 in the "32-overflow" slice yields len - 3 = 7. */
  lemma Overflow32Passes()
    ensures Sorted(Overflow32Slice)
    ensures CountLess(Overflow32Slice, 0x8_0000_0000) == |Overflow32Slice| - 3
  {
  }

  /** The slice s[i] = i of length `n`, as the benchmark builds it. */
  function Identity(n: nat): (s: seq<int64>)
    requires n <= MAX + 1
    ensures |s| == n && forall i :: 0 <= i < n ==> s[i] as int == i
  {
    seq(n, i requires 0 <= i < n => i as int64)
  }

  /** On s[i] = i, querying any `k` in [0, n] yields `k`: an exact unique
      match is found at its own index. */
  lemma IdentityQuery(n: nat, k: int64)
    requires n <= MAX
    requires 0 <= k as int <= n
    ensures Sorted(Identity(n))
    ensures CountLess(Identity(n), k) == k as int
  {
    CountLessOfSplit(Identity(n), k, k as int);
  }

  /** Runs the search on every row of a table, as the `t.Run` loop does,
      and reports the index each row produced. */
  method RunTable(cases: seq<TestCase>) returns (got: seq<int64>)
    requires forall i :: 0 <= i < |cases| ==> WellFormed(cases[i])
    ensures |got| == |cases|
    ensures forall i :: 0 <= i < |cases| ==> got[i] as int == CountLess(cases[i].arg, cases[i].value)
  {
    got := [];
    var j := 0;
    while j < |cases|
      invariant 0 <= j <= |cases|
      invariant |got| == j
      invariant forall i :: 0 <= i < j ==> got[i] as int == CountLess(cases[i].arg, cases[i].value)
    {
      var r, _ := LowerBound(cases[j].arg, cases[j].value);
      got := got + [r];
      j := j + 1;
    }
  }

  /** Running both tables yields exactly the expected column of each. */
  method RunTestLowerBound() returns (basic: seq<int64>, advanced: seq<int64>)
    ensures |basic| == |BasicCases| && forall i :: 0 <= i < |BasicCases| ==> basic[i] == BasicCases[i].result
    ensures |advanced| == |AdvancedCases| && forall i :: 0 <= i < |AdvancedCases| ==> advanced[i] == AdvancedCases[i].result
  {
    BasicCasesPass();
    AdvancedCasesPass();
    basic := RunTable(BasicCases);
    advanced := RunTable(AdvancedCases);
  }
}
