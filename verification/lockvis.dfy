/** The heatmap viewer of user/lockvis.c: bar scaling against the largest
    contention count, the `enabled` filter, the guarded divisions of the
    detail section and the exit codes.

    Printed text is not modelled: a bar is its 50 cells, a row the tuple of
    values it shows. */
module LockVis {
  import opened Records

  const BarWidth: nat := 50

  // ----------------------------------------------------------------- bars

  /** bar_len: the value scaled to BarWidth cells of maxValue, truncated;
      a zero maximum divides by 1. */
  function BarLen(value: nat, maxValue: nat): (r: nat)
    ensures maxValue > 0 ==> r * maxValue <= value * BarWidth < (r + 1) * maxValue
    ensures maxValue == 0 ==> r == value * BarWidth
  {
    value * BarWidth / (if maxValue > 0 then maxValue else 1)
  }

  /** The cells print_bar draws between its brackets. */
  function Bar(value: nat, maxValue: nat): (cells: seq<char>)
    ensures |cells| == BarWidth
  {
    seq(BarWidth, i => if i < BarLen(value, maxValue) then '#' else ' ')
  }

  /** print_bar: draws the bar cell by cell. */
  method PrintBar(value: nat, maxValue: nat) returns (cells: seq<char>)
    ensures cells == Bar(value, maxValue)
  {
    var barLen := value * BarWidth / (if maxValue > 0 then maxValue else 1);
    cells := [];
    var i := 0;
    while i < BarWidth
      invariant 0 <= i <= BarWidth
      invariant |cells| == i
      invariant forall k :: 0 <= k < i ==> cells[k] == if k < barLen then '#' else ' '
    {
      if i < barLen {
        cells := cells + ['#'];
      } else {
        cells := cells + [' '];
      }
      i := i + 1;
    }
  }

  /** The number of '#' cells of a sequence of cells. */
  function Filled(cells: seq<char>): nat {
    if cells == [] then 0
    else (if cells[|cells| - 1] == '#' then 1 else 0) + Filled(cells[..|cells| - 1])
  }

  /** The bar of a value no larger than the maximum shows exactly bar_len
      cells, and that is at most the whole width. */
  lemma {:induction false} BarFits(value: nat, maxValue: nat)
    requires value <= maxValue
    ensures BarLen(value, maxValue) <= BarWidth
    ensures Filled(Bar(value, maxValue)) == BarLen(value, maxValue)
  {
    var b, cells := BarLen(value, maxValue), Bar(value, maxValue);
    if maxValue > 0 {
      assert value * 50 < 51 * maxValue;
      DivAtMost(value * 50, maxValue, 50);
    }
    FilledPrefix(cells, BarWidth, b);
    assert cells[..BarWidth] == cells;
  }

  /** Counting the cells of a bar whose first b cells are '#' and the rest
      blank. */
  lemma {:induction false} FilledPrefix(cells: seq<char>, n: nat, b: nat)
    requires n <= |cells| && b <= |cells|
    requires forall i :: 0 <= i < |cells| ==> (cells[i] == '#' <==> i < b)
    ensures Filled(cells[..n]) == if n < b then n else b
    decreases n
  {
    if n > 0 {
      FilledPrefix(cells, n - 1, b);
      assert cells[..n][..n - 1] == cells[..n - 1];
    } else {
      assert cells[..n] == [];
    }
  }

  /** The largest value fills the whole bar. */
  lemma FullBarAtMax(maxValue: nat)
    requires maxValue > 0
    ensures forall i :: 0 <= i < BarWidth ==> Bar(maxValue, maxValue)[i] == '#'
  {
    DivAtLeast(maxValue * 50, maxValue, 50);
    DivAtMost(maxValue * 50, maxValue, 50);
  }

  /** A larger value never draws a shorter bar. */
  lemma BarMonotone(v1: nat, v2: nat, maxValue: nat)
    requires v1 <= v2
    ensures BarLen(v1, maxValue) <= BarLen(v2, maxValue)
    ensures forall i :: 0 <= i < BarWidth && Bar(v1, maxValue)[i] == '#' ==> Bar(v2, maxValue)[i] == '#'
  {
    var d := if maxValue > 0 then maxValue else 1;
    DivMonotone(v1 * 50, v2 * 50, d);
  }

  // ------------------------------------------------------------ max scan

  /** The largest contention count among the first n entries, 0 if none. */
  function MaxContentionOf(stats: seq<LockStat>, n: nat): (largest: nat)
    requires n <= |stats|
  {
    if n == 0 then 0
    else
      var m := MaxContentionOf(stats, n - 1);
      if stats[n - 1].contentionCount > m then stats[n - 1].contentionCount else m
  }

  /** It bounds every entry and is the count of one of them (or 0). */
  lemma {:induction false} MaxContentionSpec(stats: seq<LockStat>, n: nat)
    requires n <= |stats|
    ensures forall i :: 0 <= i < n ==> stats[i].contentionCount <= MaxContentionOf(stats, n)
    ensures MaxContentionOf(stats, n) == 0 ||
            exists i :: 0 <= i < n && stats[i].contentionCount == MaxContentionOf(stats, n)
  {
    if n > 0 {
      MaxContentionSpec(stats, n - 1);
    }
  }

  /** The scan of main for max_contention over the first `count` entries. */
  method MaxContention(stats: seq<LockStat>, count: int) returns (maxContention: nat)
    requires count <= |stats|
    ensures maxContention == MaxContentionOf(stats, RowCount(count))
  {
    maxContention := 0;
    var i := 0;
    while i < count
      invariant 0 <= i <= RowCount(count)
      invariant maxContention == MaxContentionOf(stats, i)
    {
      if stats[i].contentionCount > maxContention {
        maxContention := stats[i].contentionCount;
      }
      i := i + 1;
    }
  }

  // ----------------------------------------------------------------- rows

  /** A heatmap line: the name, the bar and the contention count. */
  datatype HeatRow = HeatRow(name: seq<char>, bar: seq<char>, contentions: nat)

  /** A detail block: the name, acquisitions, contentions, the contention
      percentage and the average hold and wait times. */
  datatype DetailRow = DetailRow(name: seq<char>, acquires: nat, contentions: nat,
                                 percent: nat, avgHold: nat, avgWait: nat)

  /** `x / (d > 0 ? d : 1)`. */
  function GuardedDiv(x: nat, d: nat): (q: nat)
    ensures d > 0 ==> q * d <= x < (q + 1) * d
    ensures d == 0 ==> q == x
  {
    x / (if d > 0 then d else 1)
  }

  /** The positions both sections print: enabled entries among the first
      `count`, in table order. */
  function Listed(stats: seq<LockStat>, count: int): seq<nat>
    requires count <= |stats|
  {
    Select(stats[..RowCount(count)], (e: LockStat) => e.enabled)
  }

  function HeatRowOf(e: LockStat, maxValue: nat): HeatRow {
    HeatRow(e.name, Bar(e.contentionCount, maxValue), e.contentionCount)
  }

  /** One detail block: the contention percentage, the average hold time and
      the average wait time are truncated quotients, and a zero divisor
      leaves the dividend as it is. */
  function DetailRowOf(e: LockStat): (r: DetailRow)
    ensures r.name == e.name && r.acquires == e.acquireCount && r.contentions == e.contentionCount
    ensures e.acquireCount > 0 ==>
              && r.percent * e.acquireCount <= e.contentionCount * 100 < (r.percent + 1) * e.acquireCount
              && r.avgHold * e.acquireCount <= e.totalHoldTime < (r.avgHold + 1) * e.acquireCount
    ensures e.acquireCount == 0 ==> r.percent == e.contentionCount * 100 && r.avgHold == e.totalHoldTime
    ensures e.contentionCount > 0 ==>
              r.avgWait * e.contentionCount <= e.totalWaitTime < (r.avgWait + 1) * e.contentionCount
    ensures e.contentionCount == 0 ==> r.avgWait == e.totalWaitTime
  {
    DetailRow(e.name, e.acquireCount, e.contentionCount,
              GuardedDiv(e.contentionCount * 100, e.acquireCount),
              GuardedDiv(e.totalHoldTime, e.acquireCount),
              GuardedDiv(e.totalWaitTime, e.contentionCount))
  }

  function Heatmap(stats: seq<LockStat>, count: int, maxValue: nat): (rows: seq<HeatRow>)
    requires count <= |stats|
    ensures |rows| == |Listed(stats, count)|
    ensures forall k :: 0 <= k < |rows| ==> |rows[k].bar| == BarWidth
  {
    var idx := Listed(stats, count);
    seq(|idx|, k requires 0 <= k < |idx| => HeatRowOf(stats[idx[k]], maxValue))
  }

  function Details(stats: seq<LockStat>, count: int): (rows: seq<DetailRow>)
    requires count <= |stats|
    ensures |rows| == |Listed(stats, count)|
  {
    var idx := Listed(stats, count);
    seq(|idx|, k requires 0 <= k < |idx| => DetailRowOf(stats[idx[k]]))
  }

  /** Both sections list the same locks in the same order: exactly the
      enabled entries among the first `count`, each once. */
  lemma SectionsAgree(stats: seq<LockStat>, count: int, maxValue: nat)
    requires count <= |stats|
    ensures var h, d, idx := Heatmap(stats, count, maxValue), Details(stats, count), Listed(stats, count);
            && |h| == |d|
            && (forall k :: 0 <= k < |h| ==>
                  && idx[k] < RowCount(count) && stats[idx[k]].enabled
                  && h[k].name == d[k].name == stats[idx[k]].name
                  && h[k].contentions == d[k].contentions == stats[idx[k]].contentionCount)
            && (forall k, l :: 0 <= k < l < |idx| ==> idx[k] < idx[l])
            && (forall i :: 0 <= i < RowCount(count) && stats[i].enabled ==> i in idx)
  {
    var pre := stats[..RowCount(count)];
    var idx := Listed(stats, count);
    forall i | 0 <= i < RowCount(count) && stats[i].enabled
      ensures i in idx
    {
      assert pre[i].enabled;
    }
  }

  /** Scaled against the largest count of the table, no heatmap bar
      overflows: each shows exactly bar_len cells, the most contended lock
      (when any was contended) fills its bar, and bars follow the counts. */
  lemma HeatmapScaled(stats: seq<LockStat>, count: int)
    requires count <= |stats|
    ensures var m := MaxContentionOf(stats, RowCount(count));
            var rows := Heatmap(stats, count, m);
            forall k :: 0 <= k < |rows| ==>
              && BarLen(rows[k].contentions, m) <= BarWidth
              && Filled(rows[k].bar) == BarLen(rows[k].contentions, m)
              && (rows[k].contentions == m > 0 ==> forall i :: 0 <= i < BarWidth ==> rows[k].bar[i] == '#')
  {
    var m := MaxContentionOf(stats, RowCount(count));
    var rows, idx := Heatmap(stats, count, m), Listed(stats, count);
    MaxContentionSpec(stats, RowCount(count));
    forall k | 0 <= k < |rows|
      ensures BarLen(rows[k].contentions, m) <= BarWidth
      ensures Filled(rows[k].bar) == BarLen(rows[k].contentions, m)
      ensures rows[k].contentions == m > 0 ==> forall i :: 0 <= i < BarWidth ==> rows[k].bar[i] == '#'
    {
      assert rows[k] == HeatRowOf(stats[idx[k]], m);
      BarFits(stats[idx[k]].contentionCount, m);
      if rows[k].contentions == m > 0 {
        FullBarAtMax(m);
      }
    }
  }

  /** An entry contended no more often than it was acquired shows at most
      100%, and one never acquired shows its contention count times 100. */
  lemma PercentBounded(e: LockStat)
    ensures e.acquireCount == 0 ==> DetailRowOf(e).percent == e.contentionCount * 100
    ensures e.contentionCount <= e.acquireCount ==> DetailRowOf(e).percent <= 100
  {
    if 0 < e.acquireCount && e.contentionCount <= e.acquireCount {
      DivAtMost(e.contentionCount * 100, e.acquireCount, 100);
    }
  }

  // ---------------------------------------------------------------- driver

  /** main of lockvis.  `count` is what getlockstats returned into `stats`.
      A negative count exits with 1 and prints nothing else; otherwise both
      sections are printed, listing exactly the enabled entries, and the
      exit code is 0. */
  method LockvisMain(count: int, stats: seq<LockStat>)
    returns (exitCode: int, heatmap: Option<seq<HeatRow>>, details: Option<seq<DetailRow>>)
    requires |stats| == MaxLocks && count <= MaxLocks
    ensures count < 0 <==> exitCode == 1
    ensures count < 0 ==> heatmap == None && details == None
    ensures count >= 0 ==> exitCode == 0
    ensures count >= 0 ==>
              && heatmap == Some(Heatmap(stats, count, MaxContentionOf(stats, count)))
              && details == Some(Details(stats, count))
  {
    if count < 0 {
      return 1, None, None;
    }
    var maxContention := MaxContention(stats, count);
    heatmap := Some(Heatmap(stats, count, maxContention));
    details := Some(Details(stats, count));
    exitCode := 0;
  }
}
