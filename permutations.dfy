/**
 * `generatePermutations`: every visiting order of the access points, in the
 * order the recursive `permute` closure pushes them.
 */
module Permutations {

  function Factorial(n: nat): (r: nat)
    ensures r >= 1
  {
    if n == 0 then 1 else n * Factorial(n - 1)
  }

  /** `arr.slice()` followed by `splice(i, 1)`: `arr` without its element at `i`. */
  function RemoveAt<T>(arr: seq<T>, i: nat): (r: seq<T>)
    requires i < |arr|
    ensures |r| == |arr| - 1
    ensures multiset(r) + multiset{arr[i]} == multiset(arr)
  {
    assert arr == arr[..i] + [arr[i]] + arr[i + 1..];
    arr[..i] + arr[i + 1..]
  }

  /**
   * What `permute(arr, m)` pushes, in push order: `m` itself when `arr` is
   * empty, otherwise the pushes of the first `|arr|` branches.
   */
  function Permute<T>(arr: seq<T>, m: seq<T>): seq<seq<T>>
    decreases |arr|, 1, 0
  {
    if |arr| == 0 then [m] else Branches(arr, m, |arr|)
  }

  /** The pushes of the first `i` iterations of `permute`'s loop, in order. */
  function Branches<T>(arr: seq<T>, m: seq<T>, i: nat): seq<seq<T>>
    requires i <= |arr|
    decreases |arr|, 0, i
  {
    if i == 0 then []
    else Branches(arr, m, i - 1) + Permute(RemoveAt(arr, i - 1), m + [arr[i - 1]])
  }

  /** The enumeration `generatePermutations(arr)` returns. */
  function AllOrders<T>(arr: seq<T>): seq<seq<T>>
  {
    Permute(arr, [])
  }

  /**
   * The recursive closure `permute`: appends to `acc` (the shared
   * `permutations` array) what it pushes for `arr` and the prefix `m`.
   */
  method PermuteInto<T>(arr: seq<T>, m: seq<T>, acc: seq<seq<T>>) returns (out: seq<seq<T>>)
    ensures out == acc + Permute(arr, m)
    decreases |arr|
  {
    if |arr| == 0 {
      out := acc + [m];
    } else {
      out := acc;
      for i := 0 to |arr|
        invariant out == acc + Branches(arr, m, i)
      {
        var curr := arr[..i] + arr[i + 1..];
        var next := [arr[i]];
        out := PermuteInto(curr, m + next, out);
      }
    }
  }

  /** `generatePermutations`: every ordering of `arr`, `n!` of them. */
  method GeneratePermutations<T>(arr: seq<T>) returns (perms: seq<seq<T>>)
    ensures perms == AllOrders(arr)
    ensures |perms| == Factorial(|arr|)
    ensures forall k :: 0 <= k < |perms| ==> multiset(perms[k]) == multiset(arr)
  {
    perms := PermuteInto(arr, [], []);
    AllOrdersCount(arr);
    forall k | 0 <= k < |perms|
      ensures multiset(perms[k]) == multiset(arr)
    {
      PermuteShape(arr, [], perms[k]);
      assert perms[k][0..] == perms[k];
    }
  }

  // ---------------------------------------------------------------------
  // Count

  lemma {:induction false} PermuteCount<T>(arr: seq<T>, m: seq<T>)
    ensures |Permute(arr, m)| == Factorial(|arr|)
    decreases |arr|, 1
  {
    if |arr| > 0 {
      BranchesCount(arr, m, |arr|);
    }
  }

  lemma {:induction false} BranchesCount<T>(arr: seq<T>, m: seq<T>, i: nat)
    requires 0 < |arr| && i <= |arr|
    ensures |Branches(arr, m, i)| == i * Factorial(|arr| - 1)
    decreases |arr|, 0, i
  {
    if i > 0 {
      BranchesCount(arr, m, i - 1);
      PermuteCount(RemoveAt(arr, i - 1), m + [arr[i - 1]]);
      MulSucc(i - 1, Factorial(|arr| - 1));
    }
  }

  lemma MulSucc(a: nat, b: nat)
    ensures a * b + b == (a + 1) * b
  {
  }

  /** `generatePermutations` yields exactly `n!` orders; one empty order for an empty input. */
  lemma AllOrdersCount<T>(arr: seq<T>)
    ensures |AllOrders(arr)| == Factorial(|arr|)
    ensures arr == [] ==> AllOrders(arr) == [[]]
  {
    PermuteCount(arr, []);
  }

  // ---------------------------------------------------------------------
  // Soundness: every pushed order is `m` followed by a rearrangement of `arr`

  lemma {:induction false} PermuteShape<T>(arr: seq<T>, m: seq<T>, p: seq<T>)
    requires p in Permute(arr, m)
    ensures |p| == |m| + |arr| && p[..|m|] == m && multiset(p[|m|..]) == multiset(arr)
    decreases |arr|, 1
  {
    if |arr| > 0 {
      BranchesShape(arr, m, |arr|, p);
    }
  }

  lemma {:induction false} BranchesShape<T>(arr: seq<T>, m: seq<T>, i: nat, p: seq<T>)
    requires 0 < i <= |arr| && p in Branches(arr, m, i)
    ensures |p| == |m| + |arr| && p[..|m|] == m && multiset(p[|m|..]) == multiset(arr)
    decreases |arr|, 0, i
  {
    if p in Branches(arr, m, i - 1) {
      BranchesShape(arr, m, i - 1, p);
    } else {
      var rest, m' := RemoveAt(arr, i - 1), m + [arr[i - 1]];
      PermuteShape(rest, m', p);
      assert p[..|m|] == p[..|m'|][..|m|];
      assert p[|m|..] == [arr[i - 1]] + p[|m'|..];
    }
  }

  // ---------------------------------------------------------------------
  // Completeness: every rearrangement of `arr` is pushed

  lemma {:induction false} PermuteComplete<T>(arr: seq<T>, m: seq<T>, q: seq<T>)
    requires multiset(q) == multiset(arr)
    ensures m + q in Permute(arr, m)
    decreases |arr|, 1
  {
    if |arr| == 0 {
      assert |q| == 0 by { assert |multiset(q)| == 0; }
      assert m + q == m;
    } else {
      var i := FirstMatches(arr, q);
      var rest := RemoveAt(arr, i);
      PermuteComplete(rest, m + [arr[i]], q[1..]);
      assert m + [arr[i]] + q[1..] == m + q;
      BranchesContain(arr, m, |arr|, i, m + q);
    }
  }

  /** For a non-empty rearrangement `q` of `arr`: an index of `q[0]` in `arr`, whose removal leaves a rearrangement of `q[1..]`. */
  lemma FirstMatches<T>(arr: seq<T>, q: seq<T>) returns (i: nat)
    requires |arr| > 0 && multiset(q) == multiset(arr)
    ensures |q| > 0 && i < |arr| && arr[i] == q[0]
    ensures multiset(q[1..]) == multiset(RemoveAt(arr, i))
  {
    assert |q| == |arr| by { assert |multiset(q)| == |multiset(arr)|; }
    assert q == [q[0]] + q[1..];
    assert q[0] in multiset(arr);
    i :| 0 <= i < |arr| && arr[i] == q[0];
    assert multiset(q[1..]) == multiset(q) - multiset{q[0]};
  }

  /** Branch `j` belongs to every loop prefix that has passed it. */
  lemma {:induction false} BranchesContain<T>(arr: seq<T>, m: seq<T>, i: nat, j: nat, p: seq<T>)
    requires j < i <= |arr|
    requires p in Permute(RemoveAt(arr, j), m + [arr[j]])
    ensures p in Branches(arr, m, i)
    decreases i
  {
    if j < i - 1 {
      BranchesContain(arr, m, i - 1, j, p);
    }
  }

  /** `generatePermutations` is complete: every rearrangement of its input is among the orders it returns. */
  lemma AllOrdersComplete<T>(arr: seq<T>, q: seq<T>)
    requires multiset(q) == multiset(arr)
    ensures q in AllOrders(arr)
  {
    PermuteComplete(arr, [], q);
    assert [] + q == q;
  }

  /** Every order `generatePermutations` returns is a rearrangement of its input. */
  lemma AllOrdersSound<T>(arr: seq<T>, q: seq<T>)
    requires q in AllOrders(arr)
    ensures multiset(q) == multiset(arr)
  {
    PermuteShape(arr, [], q);
    assert q[0..] == q;
  }
}
