/** How tests are dealt out to shards, as a matter of the list of "runnable" flags alone (gtest.cc). */
module Sharding {
  import opened Arithmetic
  import opened CStrings

  /** A sharding request: this process is shard `index` of `total`. */
  datatype Shard = Shard(total: int, index: int)

  /** Is the test with the given number run on this shard? */
  predicate ShouldRunTestOnShard(total: int, index: int, testId: nat)
    requires 0 <= index < total
  {
    testId % total == index
  }

  predicate ValidShard(shard: Option<Shard>) {
    shard.Some? ==> 0 <= shard.value.index < shard.value.total
  }

  /** The number of runnable tests among the first `n`. */
  function Count(flags: seq<bool>, n: nat): nat
    requires n <= |flags|
  {
    if n == 0 then 0 else Count(flags, n - 1) + if flags[n - 1] then 1 else 0
  }

  /** Is test `k` selected? */
  predicate Selects(shard: Option<Shard>, flags: seq<bool>, k: nat)
    requires ValidShard(shard) && k < |flags|
  {
    flags[k] && (shard.None? || ShouldRunTestOnShard(shard.value.total, shard.value.index, Count(flags, k)))
  }

  /** The number of selected tests among the first `n`. */
  function SelectedCount(shard: Option<Shard>, flags: seq<bool>, n: nat): nat
    requires ValidShard(shard) && n <= |flags|
  {
    if n == 0 then 0 else SelectedCount(shard, flags, n - 1) + if Selects(shard, flags, n - 1) then 1 else 0
  }

  /** Every runnable test is selected by exactly one shard, and no other test by any. */
  lemma ExactlyOneShard(total: int, flags: seq<bool>, k: nat)
    requires total >= 1 && k < |flags|
    ensures forall i :: 0 <= i < total ==>
      (Selects(Some(Shard(total, i)), flags, k) <==> flags[k] && i == Count(flags, k) % total)
    ensures 0 <= Count(flags, k) % total < total
  {
  }

  /** The tests among the first `n` that the first `m` shards select together. */
  function SumOverShards(total: int, m: nat, flags: seq<bool>, n: nat): nat
    requires m <= total && n <= |flags|
  {
    if m == 0 then 0
    else SumOverShards(total, m - 1, flags, n) + SelectedCount(Some(Shard(total, m - 1)), flags, n)
  }

  lemma {:induction false} SumStep(total: int, m: nat, flags: seq<bool>, n: nat)
    requires m <= total && 1 <= total && 0 < n <= |flags|
    ensures SumOverShards(total, m, flags, n) == SumOverShards(total, m, flags, n - 1) +
            if flags[n - 1] && Count(flags, n - 1) % total < m then 1 else 0
  {
    if m > 0 {
      SumStep(total, m - 1, flags, n);
    }
  }

  lemma {:induction false} SumEmpty(total: int, m: nat, flags: seq<bool>)
    requires m <= total
    ensures SumOverShards(total, m, flags, 0) == 0
  {
    if m > 0 {
      SumEmpty(total, m - 1, flags);
    }
  }

  /** Together the shards run as many tests as there are runnable ones. */
  lemma {:induction false} ShardsSumToRunnable(total: int, flags: seq<bool>, n: nat)
    requires total >= 1 && n <= |flags|
    ensures SumOverShards(total, total, flags, n) == Count(flags, n)
  {
    if n == 0 {
      SumEmpty(total, total, flags);
    } else {
      SumStep(total, total, flags, n);
      ShardsSumToRunnable(total, flags, n - 1);
    }
  }

  /** The share of shard `index`: the runnable tests, rounded up from the shard's own offset. */
  lemma {:induction false} ShardShare(total: int, index: int, flags: seq<bool>, n: nat)
    requires 0 <= index < total && n <= |flags|
    ensures SelectedCount(Some(Shard(total, index)), flags, n) == (Count(flags, n) + total - 1 - index) / total
  {
    if n == 0 {
      DivMod(total - 1 - index, total, 0, total - 1 - index);
    } else {
      ShardShare(total, index, flags, n - 1);
      var c := Count(flags, n - 1);
      Carry(c, total - 1 - index, total);
      if total == 1 {
        DivMod(c + 1, 1, c + 1, 0);
        DivMod(c, 1, c, 0);
      } else {
        Carry(c + total - 1 - index, 1, total);
      }
    }
  }

  /** Adding less than the divisor carries at most once. */
  lemma Carry(n: nat, k: nat, d: nat)
    requires k < d
    ensures var c := if n % d + k >= d then 1 else 0;
      (n + k) / d == n / d + c && (n + k) % d == n % d + k - c * d
  {
    var q, r := n / d, n % d;
    assert n == d * q + r;
    if r + k < d {
      DivMod(n + k, d, q, r + k);
    } else {
      assert d * (q + 1) == d * q + d;
      DivMod(n + k, d, q + 1, r + k - d);
    }
  }

  /** The shards' shares differ by at most one. */
  lemma SharesAreBalanced(total: int, i: int, j: int, flags: seq<bool>, n: nat)
    requires 0 <= i < j < total && n <= |flags|
    ensures var a, b := SelectedCount(Some(Shard(total, i)), flags, n), SelectedCount(Some(Shard(total, j)), flags, n);
      b <= a <= b + 1
  {
    ShardShare(total, i, flags, n);
    ShardShare(total, j, flags, n);
    Carry(Count(flags, n) + total - 1 - j, j - i, total);
  }
}
