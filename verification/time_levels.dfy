/** Time-level cycling (mtx::cycle / blitz cycleArrays): the storage of the
    levels is relabelled, never copied. Two levels swap; three levels rotate so
    that n-1 takes n's storage, n takes n+1's and n+1 takes the oldest. */
module TimeLevels {
  import opened Outcomes

  /** Levels n and n+1 exchange storage. */
  function Swap<T>(bank: seq<T>, n: int): (s: seq<T>)
    requires 0 <= n && n + 1 < |bank|
    ensures |s| == |bank|
    ensures s[n] == bank[n + 1] && s[n + 1] == bank[n]
    ensures forall l :: 0 <= l < |bank| && l != n && l != n + 1 ==> s[l] == bank[l]
  {
    seq(|bank|, l requires 0 <= l < |bank| => if l == n then bank[n + 1] else if l == n + 1 then bank[n] else bank[l])
  }

  /** A swap relabels storage without duplicating or dropping any. */
  lemma SwapPermutes<T>(bank: seq<T>, n: int)
    requires 0 <= n && n + 1 < |bank|
    ensures multiset(Swap(bank, n)) == multiset(bank)
  {
    assert Swap(bank, n) == bank[..n] + [bank[n + 1], bank[n]] + bank[n + 2..];
    assert bank == bank[..n] + [bank[n], bank[n + 1]] + bank[n + 2..];
  }

  /** Levels n-1, n, n+1 take the storage of n, n+1, n-1: two adjacent swaps. */
  function Rotate<T>(bank: seq<T>, n: int): (s: seq<T>)
    requires 1 <= n && n + 1 < |bank|
    ensures |s| == |bank|
    ensures s[n - 1] == bank[n] && s[n] == bank[n + 1] && s[n + 1] == bank[n - 1]
    ensures forall l :: 0 <= l < |bank| && (l < n - 1 || l > n + 1) ==> s[l] == bank[l]
  {
    Swap(Swap(bank, n - 1), n)
  }

  /** cycle_arrays: swap for two levels, rotate for three, fail for any other count. */
  function Cycle<T>(bank: seq<T>, n: int, levels: int): (r: Result<seq<T>>)
    requires levels == 2 ==> 0 <= n && n + 1 < |bank|
    requires levels == 3 ==> 1 <= n && n + 1 < |bank|
    ensures r.Ok? <==> levels == 2 || levels == 3
    ensures r.Err? ==> r.error == UnsupportedTimeLevels(levels)
    ensures r.Ok? ==> |r.value| == |bank|
    ensures r.Ok? ==> r.value[n] == bank[n + 1] && r.value[n + 1] == bank[n + 2 - levels]
    ensures levels == 3 ==> r.value[n - 1] == bank[n]
    ensures r.Ok? ==> forall l :: 0 <= l < |bank| && (l < n + 2 - levels || l > n + 1) ==> r.value[l] == bank[l]
  {
    if levels == 2 then Ok(Swap(bank, n))
    else if levels == 3 then Ok(Rotate(bank, n))
    else Err(UnsupportedTimeLevels(levels))
  }

  /** Cycling is a permutation of the levels' storage: nothing is copied or lost. */
  lemma CyclePermutes<T>(bank: seq<T>, n: int, levels: int)
    requires levels == 2 ==> 0 <= n && n + 1 < |bank|
    requires levels == 3 ==> 1 <= n && n + 1 < |bank|
    ensures Cycle(bank, n, levels).Ok? ==> multiset(Cycle(bank, n, levels).value) == multiset(bank)
  {
    if levels == 2 {
      SwapPermutes(bank, n);
    } else if levels == 3 {
      SwapPermutes(bank, n - 1);
      SwapPermutes(Swap(bank, n - 1), n);
    }
  }

  /** Two swaps restore the original assignment of storage to levels. */
  lemma TwoLevelPeriod<T>(bank: seq<T>, n: int)
    requires 0 <= n && n + 1 < |bank|
    ensures Cycle(Cycle(bank, n, 2).value, n, 2) == Ok(bank)
  {
    var once := Cycle(bank, n, 2).value;
    var twice := Cycle(once, n, 2).value;
    assert twice == bank;
  }

  /** Three rotations restore the original assignment of storage to levels. */
  lemma ThreeLevelPeriod<T>(bank: seq<T>, n: int)
    requires 1 <= n && n + 1 < |bank|
    ensures Cycle(Cycle(Cycle(bank, n, 3).value, n, 3).value, n, 3) == Ok(bank)
  {
    var once := Rotate(bank, n);
    var twice := Rotate(once, n);
    var thrice := Rotate(twice, n);
    forall l | 0 <= l < |bank|
      ensures thrice[l] == bank[l]
    {
      if l == n - 1 {
        assert thrice[l] == twice[n] == once[n + 1] == bank[n - 1];
      } else if l == n {
        assert thrice[l] == twice[n + 1] == once[n - 1] == bank[n];
      } else if l == n + 1 {
        assert thrice[l] == twice[n - 1] == once[n] == bank[n + 1];
      }
    }
    assert thrice == bank;
    assert Cycle(bank, n, 3).value == once;
  }

  /** A single rotation of three levels is not the identity when the three
      storages are distinct: the period is exactly three, not one. */
  lemma ThreeLevelRotationMoves<T>(bank: seq<T>, n: int)
    requires 1 <= n && n + 1 < |bank|
    requires bank[n - 1] != bank[n]
    ensures Cycle(bank, n, 3).value != bank
  {
    assert Cycle(bank, n, 3).value[n - 1] == bank[n];
  }
}
