/** Record types shared by the kernel-side registry and the user-side tools
    (user/lockstat.h and kernel/lockstat.h), and two small helpers used by both. */
module Records {

  /** Capacity of the statistics table. */
  const MaxLocks: nat := 64

  /** Size of the fixed name buffer of an entry, terminating NUL included. */
  const MaxLockName: nat := 32

  /** The C string terminator. */
  const Nul: char := '\0'

  datatype Option<T> = None | Some(value: T)

  /** One entry of the statistics table, and its raw image exported to user space.
      `name` is the whole fixed-size buffer, so it has MaxLockName characters once
      the entry is valid.  All seven counters of the user-side header are here,
      although the kernel header declares only the first four of them. */
  datatype LockStat = LockStat(
    name: seq<char>,
    acquireCount: nat,
    contentionCount: nat,
    totalHoldTime: nat,
    totalWaitTime: nat,
    maxHoldTime: nat,
    maxWaitTime: nat,
    lastAcquireTime: nat,
    enabled: bool)

  /** A zero-filled entry: the state of every slot of a statically allocated table. */
  function EmptyStat(): LockStat {
    LockStat(seq(MaxLockName, _ => Nul), 0, 0, 0, 0, 0, 0, 0, false)
  }

  /** The number of rows a loop `for (i = 0; i < count; i++)` visits. */
  function RowCount(count: int): nat {
    if count < 0 then 0 else count
  }

  /** The positions of `s` whose element satisfies `p`, in increasing order:
      the rows a printing loop that skips elements failing `p` visits. */
  function Select<T>(s: seq<T>, p: T -> bool): (idx: seq<nat>)
    ensures forall k :: 0 <= k < |idx| ==> idx[k] < |s| && p(s[idx[k]])
    ensures forall k, l :: 0 <= k < l < |idx| ==> idx[k] < idx[l]
    ensures forall i :: 0 <= i < |s| && p(s[i]) ==> i in idx
  {
    if s == [] then []
    else
      var front := Select(s[..|s| - 1], p);
      if p(s[|s| - 1]) then front + [|s| - 1] else front
  }

  // Facts about truncating division of naturals, used by the metrics of
  // both tools.

  lemma DivAtMost(x: nat, d: nat, q: nat)
    requires d > 0 && x < (q + 1) * d
    ensures x / d <= q
  {
    assert (x / d) * d <= x < (q + 1) * d;
  }

  lemma DivAtLeast(x: nat, d: nat, q: nat)
    requires d > 0 && q * d <= x
    ensures q <= x / d
  {
    var r := x / d;
    assert x == r * d + x % d;
    assert (r + 1) * d == r * d + d;
    assert q * d < (r + 1) * d;
  }

  lemma DivMonotone(x: nat, y: nat, d: nat)
    requires x <= y && d > 0
    ensures x / d <= y / d
  {
    var q := y / d;
    assert y == q * d + y % d;
    assert (q + 1) * d == q * d + d;
    DivAtMost(x, d, q);
  }
}
