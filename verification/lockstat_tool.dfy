/** The offline analysis of user/lockstat.c: derived metrics, the stable
    descending ranking by contention rate, severity bands, the fixed-point
    percent split, row filtering and the driver's exit codes and modes.

    Output text (column layout, ANSI colours) is not modelled: a printed row
    is the tuple of values it shows. */
module LockStatTool {
  import opened Records

  /** struct lock_stat_data: the raw entry plus the two derived metrics. */
  datatype Analyzed = Analyzed(raw: LockStat, contentionX10: nat, avgHoldTime: nat)

  /** An entry of the zero-initialised static analysis array. */
  function ZeroAnalyzed(): Analyzed {
    Analyzed(EmptyStat(), 0, 0)
  }

  // ------------------------------------------------------------- metrics

  /** Contention rate in tenths of a percent, truncated; 0 for an entry
      that was never acquired. */
  function ContentionX10(raw: LockStat): (r: nat)
    ensures raw.acquireCount > 0 ==>
              r * raw.acquireCount <= raw.contentionCount * 1000 < (r + 1) * raw.acquireCount
    ensures raw.acquireCount == 0 ==> r == 0
  {
    if raw.acquireCount > 0 then raw.contentionCount * 1000 / raw.acquireCount else 0
  }

  /** Average hold time, truncated; 0 for an entry that was never acquired. */
  function AvgHold(raw: LockStat): (r: nat)
    ensures raw.acquireCount > 0 ==>
              r * raw.acquireCount <= raw.totalHoldTime < (r + 1) * raw.acquireCount
    ensures raw.acquireCount == 0 ==> r == 0
  {
    if raw.acquireCount > 0 then raw.totalHoldTime / raw.acquireCount else 0
  }

  /** An entry with its metrics filled in from its raw counters. */
  function WithMetrics(e: Analyzed): Analyzed {
    e.(contentionX10 := ContentionX10(e.raw), avgHoldTime := AvgHold(e.raw))
  }

  /** calculate_metrics: fills in the metrics of the first lock_count entries
      and never touches their raw counters. */
  method CalculateMetrics(stats: array<Analyzed>, lockCount: int)
    requires lockCount <= stats.Length
    modifies stats
    ensures forall i :: 0 <= i < stats.Length ==>
              stats[i] == if i < lockCount then WithMetrics(old(stats[i])) else old(stats[i])
  {
    var i := 0;
    while i < lockCount
      invariant 0 <= i <= RowCount(lockCount)
      invariant forall k :: 0 <= k < stats.Length ==>
                  stats[k] == if k < i then WithMetrics(old(stats[k])) else old(stats[k])
    {
      var raw := stats[i].raw;
      if raw.acquireCount > 0 {
        stats[i] := stats[i].(contentionX10 := raw.contentionCount * 1000 / raw.acquireCount);
        stats[i] := stats[i].(avgHoldTime := raw.totalHoldTime / raw.acquireCount);
      } else {
        stats[i] := stats[i].(contentionX10 := 0);
        stats[i] := stats[i].(avgHoldTime := 0);
      }
      i := i + 1;
    }
  }

  /** An entry never contended more often than it was acquired has a rate of
      at most 100.0%. */
  lemma RateAtMostThousand(raw: LockStat)
    requires raw.contentionCount <= raw.acquireCount
    ensures ContentionX10(raw) <= 1000
  {
    if raw.acquireCount > 0 {
      DivAtMost(raw.contentionCount * 1000, raw.acquireCount, 1000);
    }
  }

  /** 3 contentions in 8 acquisitions holding 400 cycles in all: 37.5% and
      50 cycles on average. */
  lemma MetricsExample()
    ensures var raw := EmptyStat().(acquireCount := 8, contentionCount := 3, totalHoldTime := 400);
            ContentionX10(raw) == 375 && AvgHold(raw) == 50
  {
  }

  // -------------------------------------------------------------- ranking

  /** Non-increasing contention rate. */
  predicate SortedDesc(s: seq<Analyzed>) {
    forall k, l :: 0 <= k < l < |s| ==> s[k].contentionX10 >= s[l].contentionX10
  }

  /** The entries of `s` whose rate is `v`, in their order in `s`. */
  function KeyRun(s: seq<Analyzed>, v: nat): (run: seq<Analyzed>) {
    if s == [] then []
    else (if s[0].contentionX10 == v then [s[0]] else []) + KeyRun(s[1..], v)
  }

  /** `s` and `t` hold the same entries, and entries of equal rate appear in
      the same relative order: t is a stable rearrangement of s. */
  ghost predicate SameRuns(s: seq<Analyzed>, t: seq<Analyzed>) {
    forall v: nat :: KeyRun(s, v) == KeyRun(t, v)
  }

  lemma {:induction false} KeyRunConcat(a: seq<Analyzed>, b: seq<Analyzed>, v: nat)
    ensures KeyRun(a + b, v) == KeyRun(a, v) + KeyRun(b, v)
    decreases |a|
  {
    if a == [] {
      assert a + b == b;
    } else {
      var h := if a[0].contentionX10 == v then [a[0]] else [];
      assert (a + b)[0] == a[0] && (a + b)[1..] == a[1..] + b;
      KeyRunConcat(a[1..], b, v);
      assert KeyRun(a + b, v) == h + (KeyRun(a[1..], v) + KeyRun(b, v));
      assert KeyRun(a, v) == h + KeyRun(a[1..], v);
    }
  }

  lemma {:induction false} KeyRunMembers(s: seq<Analyzed>, v: nat, x: Analyzed)
    requires x in KeyRun(s, v)
    ensures x in s && x.contentionX10 == v
    decreases |s|
  {
    if s != [] && !(s[0].contentionX10 == v && x == s[0]) {
      assert x in KeyRun(s[1..], v);
      KeyRunMembers(s[1..], v, x);
    }
  }

  /** Exchanging two neighbours of different rate keeps every run. */
  lemma SwapKeepsRuns(s: seq<Analyzed>, j: nat)
    requires j + 1 < |s| && s[j].contentionX10 != s[j + 1].contentionX10
    ensures SameRuns(s[j := s[j + 1]][j + 1 := s[j]], s)
  {
    var t := s[j := s[j + 1]][j + 1 := s[j]];
    assert s == s[..j] + ([s[j], s[j + 1]] + s[j + 2..]);
    assert t == s[..j] + ([s[j + 1], s[j]] + s[j + 2..]);
    forall v: nat
      ensures KeyRun(t, v) == KeyRun(s, v)
    {
      KeyRunConcat(s[..j], [s[j], s[j + 1]] + s[j + 2..], v);
      KeyRunConcat([s[j], s[j + 1]], s[j + 2..], v);
      KeyRunConcat(s[..j], [s[j + 1], s[j]] + s[j + 2..], v);
      KeyRunConcat([s[j + 1], s[j]], s[j + 2..], v);
      assert [s[j], s[j + 1]][1..] == [s[j + 1]];
      assert [s[j + 1], s[j]][1..] == [s[j]];
    }
  }

  /** Runs of a sequence are the runs of its two parts, so a stable
      rearrangement of a prefix is one of the whole. */
  lemma SameRunsPrefix(x: seq<Analyzed>, y: seq<Analyzed>, rest: seq<Analyzed>)
    requires SameRuns(x, y)
    ensures SameRuns(x + rest, y + rest)
  {
    forall v: nat
      ensures KeyRun(x + rest, v) == KeyRun(y + rest, v)
    {
      KeyRunConcat(x, rest, v);
      KeyRunConcat(y, rest, v);
    }
  }

  /** A pass that rearranges the first m entries stably and leaves the
      others alone rearranges the whole table stably. */
  lemma PrefixPassKeepsRuns(before: seq<Analyzed>, after: seq<Analyzed>, m: nat)
    requires m <= |before| == |after|
    requires forall k :: m <= k < |after| ==> after[k] == before[k]
    requires SameRuns(after[..m], before[..m])
    ensures SameRuns(after, before)
  {
    assert after == after[..m] + before[m..];
    assert before == before[..m] + before[m..];
    SameRunsPrefix(after[..m], before[..m], before[m..]);
  }

  lemma SameRunsTrans(a: seq<Analyzed>, b: seq<Analyzed>, c: seq<Analyzed>)
    requires SameRuns(a, b) && SameRuns(b, c)
    ensures SameRuns(a, c)
  {
  }

  /** There is only one stable descending ranking of a table: two sequences
      sorted by rate that are stable rearrangements of each other are equal. */
  lemma {:induction false} StableRankingUnique(s: seq<Analyzed>, t: seq<Analyzed>)
    requires SortedDesc(s) && SortedDesc(t) && SameRuns(s, t)
    ensures s == t
    decreases |s|
  {
    if s == [] || t == [] {
      if s != [] {
        assert KeyRun(s, s[0].contentionX10) != [];
        assert KeyRun(t, s[0].contentionX10) == [];
        assert false;
      }
      if t != [] {
        assert KeyRun(t, t[0].contentionX10) != [];
        assert KeyRun(s, t[0].contentionX10) == [];
        assert false;
      }
    } else {
      var a, b := s[0].contentionX10, t[0].contentionX10;
      if a != b {
        // The larger of the two leading rates is missing from the other side.
        var u: seq<Analyzed> := if a > b then s else t;
        var w: seq<Analyzed> := if a > b then t else s;
        var top := u[0].contentionX10;
        assert KeyRun(u, top)[0] == u[0];
        assert KeyRun(w, top) == KeyRun(u, top);
        var x := KeyRun(w, top)[0];
        KeyRunMembers(w, top, x);
        assert false;
      }
      assert KeyRun(s, a) == [s[0]] + KeyRun(s[1..], a);
      assert KeyRun(t, a) == [t[0]] + KeyRun(t[1..], a);
      forall v: nat
        ensures KeyRun(s[1..], v) == KeyRun(t[1..], v)
      {
        if v != a {
          assert KeyRun(s, v) == KeyRun(s[1..], v);
          assert KeyRun(t, v) == KeyRun(t[1..], v);
        } else {
          assert ([s[0]] + KeyRun(s[1..], a))[1..] == KeyRun(s[1..], a);
          assert ([t[0]] + KeyRun(t[1..], a))[1..] == KeyRun(t[1..], a);
        }
      }
      StableRankingUnique(s[1..], t[1..]);
      assert s == [s[0]] + s[1..];
      assert t == [t[0]] + t[1..];
    }
  }

  /** Inserts x in front of the first entry of s whose rate does not exceed
      its own. */
  function Insert(x: Analyzed, s: seq<Analyzed>): (r: seq<Analyzed>)
    ensures |r| == |s| + 1
    ensures r[0] == x || (s != [] && r[0] == s[0])
  {
    if s == [] || x.contentionX10 >= s[0].contentionX10 then [x] + s
    else [s[0]] + Insert(x, s[1..])
  }

  /** The reference ranking: a stable insertion sort by descending rate,
      independent of the bubble sort the tool runs. */
  function Ranking(s: seq<Analyzed>): (r: seq<Analyzed>)
    ensures |r| == |s|
  {
    if s == [] then [] else Insert(s[0], Ranking(s[1..]))
  }

  lemma {:induction false} InsertSorted(x: Analyzed, s: seq<Analyzed>)
    requires SortedDesc(s)
    ensures SortedDesc(Insert(x, s))
    ensures forall k :: 0 <= k < |s| + 1 ==> Insert(x, s)[k] == x || Insert(x, s)[k] in s
    decreases |s|
  {
    if s != [] && x.contentionX10 < s[0].contentionX10 {
      InsertSorted(x, s[1..]);
      var r := Insert(x, s);
      assert r == [s[0]] + Insert(x, s[1..]);
      forall k | 0 <= k < |r|
        ensures r[k] == x || r[k] in s
      {
        if k > 0 {
          assert r[k] == Insert(x, s[1..])[k - 1];
        }
      }
      forall k, l | 0 <= k < l < |r|
        ensures r[k].contentionX10 >= r[l].contentionX10
      {
        assert r[l] == Insert(x, s[1..])[l - 1];
        if k > 0 {
          assert r[k] == Insert(x, s[1..])[k - 1];
        }
      }
    }
  }

  lemma {:induction false} InsertRuns(x: Analyzed, s: seq<Analyzed>, v: nat)
    ensures KeyRun(Insert(x, s), v) == KeyRun([x] + s, v)
    decreases |s|
  {
    if s != [] && x.contentionX10 < s[0].contentionX10 {
      InsertRuns(x, s[1..], v);
      assert ([s[0]] + Insert(x, s[1..]))[1..] == Insert(x, s[1..]);
      assert ([x] + s)[1..] == s;
      assert ([x] + s[1..])[1..] == s[1..];
    }
  }

  /** The reference ranking is sorted by descending rate and a stable
      rearrangement of its input. */
  lemma {:induction false} RankingSpec(s: seq<Analyzed>)
    ensures SortedDesc(Ranking(s)) && SameRuns(Ranking(s), s)
    decreases |s|
  {
    if s != [] {
      RankingSpec(s[1..]);
      InsertSorted(s[0], Ranking(s[1..]));
      forall v: nat
        ensures KeyRun(Ranking(s), v) == KeyRun(s, v)
      {
        InsertRuns(s[0], Ranking(s[1..]), v);
        assert ([s[0]] + Ranking(s[1..]))[1..] == Ranking(s[1..]);
      }
    }
  }

  /** The exchange of stats[j] and stats[j + 1] through a temporary, done
      when the left one has the lower rate. */
  method SwapDown(stats: array<Analyzed>, j: nat, m: nat)
    requires j + 1 < m <= stats.Length
    requires stats[j].contentionX10 < stats[j + 1].contentionX10
    modifies stats
    ensures stats[j] == old(stats[j + 1]) && stats[j + 1] == old(stats[j])
    ensures forall k :: 0 <= k < stats.Length && k != j && k != j + 1 ==> stats[k] == old(stats[k])
    ensures SameRuns(stats[..m], old(stats[..m]))
  {
    ghost var before := stats[..m];
    var temp := stats[j];
    stats[j] := stats[j + 1];
    stats[j + 1] := temp;
    assert stats[..m] == before[j := before[j + 1]][j + 1 := before[j]];
    SwapKeepsRuns(before, j);
  }

  /** The reference ranking holds the same entries as its input. */
  lemma {:induction false} RankingPermutes(s: seq<Analyzed>)
    ensures multiset(Ranking(s)) == multiset(s)
    decreases |s|
  {
    if s != [] {
      RankingPermutes(s[1..]);
      InsertPermutes(s[0], Ranking(s[1..]));
      assert s == [s[0]] + s[1..];
    }
  }

  lemma {:induction false} InsertPermutes(x: Analyzed, s: seq<Analyzed>)
    ensures multiset(Insert(x, s)) == multiset([x] + s)
    decreases |s|
  {
    if s != [] && x.contentionX10 < s[0].contentionX10 {
      InsertPermutes(x, s[1..]);
      assert s == [s[0]] + s[1..];
    }
  }

  /** One inner pass of sort_stats over stats[0..m): every swap moves the
      lower rate right, so the pass leaves the lowest rate of the prefix at
      position m - 1.  `floor` is a bound every rate of the prefix respects. */
  method BubblePass(stats: array<Analyzed>, m: nat, ghost floor: nat)
    requires 1 <= m <= stats.Length
    requires forall k :: 0 <= k < m ==> stats[k].contentionX10 >= floor
    modifies stats
    ensures forall k :: 0 <= k < m ==> stats[k].contentionX10 >= stats[m - 1].contentionX10
    ensures forall k :: 0 <= k < m ==> stats[k].contentionX10 >= floor
    ensures forall k :: m <= k < stats.Length ==> stats[k] == old(stats[k])
    ensures SameRuns(stats[..m], old(stats[..m]))
  {
    var j := 0;
    while j < m - 1
      invariant 0 <= j <= m - 1
      invariant forall k :: 0 <= k <= j ==> stats[k].contentionX10 >= stats[j].contentionX10
      invariant forall k :: 0 <= k < m ==> stats[k].contentionX10 >= floor
      invariant forall k :: m <= k < stats.Length ==> stats[k] == old(stats[k])
      invariant SameRuns(stats[..m], old(stats[..m]))
    {
      if stats[j].contentionX10 < stats[j + 1].contentionX10 {
        ghost var before := stats[..m];
        SwapDown(stats, j, m);
        SameRunsTrans(stats[..m], before, old(stats[..m]));
      }
      j := j + 1;
    }
  }

  /** After the outer loop has run n - m times, the entries from m on are
      in their final order: sorted, and none above an entry before m. */
  ghost predicate RankedTail(s: seq<Analyzed>, m: nat) {
    && m <= |s|
    && (forall k, l :: m <= k < l < |s| ==> s[k].contentionX10 >= s[l].contentionX10)
    && (forall k, l :: 0 <= k < m <= l < |s| ==> s[k].contentionX10 >= s[l].contentionX10)
  }

  /** A pass over the first m entries that sinks their lowest rate to m - 1,
      keeps them above the ranked tail and leaves the tail alone, extends
      the ranked tail by one entry. */
  lemma PassExtends(before: seq<Analyzed>, after: seq<Analyzed>, m: nat)
    requires 1 <= m <= |before| == |after|
    requires RankedTail(before, m)
    requires forall k :: m <= k < |after| ==> after[k] == before[k]
    requires forall k :: 0 <= k < m ==> after[k].contentionX10 >= after[m - 1].contentionX10
    requires m < |after| ==> forall k :: 0 <= k < m ==> after[k].contentionX10 >= before[m].contentionX10
    ensures RankedTail(after, m - 1)
  {
  }

  lemma RankedTailSorted(s: seq<Analyzed>, m: nat)
    requires RankedTail(s, m) && m <= 1
    ensures SortedDesc(s)
  {
  }

  /** One iteration of the outer loop of sort_stats, the pass over the
      first m of the n entries sorted: it grows the ranked tail by one. */
  method OuterPass(stats: array<Analyzed>, ghost n: nat, m: nat)
    requires 1 <= m <= n <= stats.Length
    requires RankedTail(stats[..n], m)
    modifies stats
    ensures RankedTail(stats[..n], m - 1)
    ensures forall k :: n <= k < stats.Length ==> stats[k] == old(stats[k])
    ensures SameRuns(stats[..n], old(stats[..n]))
  {
    ghost var before := stats[..n];
    ghost var floor := if m < n then before[m].contentionX10 else 0;
    ghost var prefix := stats[..m];
    BubblePass(stats, m, floor);
    assert prefix == before[..m];
    assert stats[..n][..m] == stats[..m];
    PassExtends(before, stats[..n], m);
    PrefixPassKeepsRuns(before, stats[..n], m);
  }

  /** sort_stats: a bubble sort of the first `count` entries by descending
      rate.  It swaps only on a strict `<`, so entries of equal rate keep
      their order; entries from `count` on are untouched. */
  method SortStats(stats: array<Analyzed>, count: int)
    requires count <= stats.Length
    modifies stats
    ensures SortedDesc(stats[..RowCount(count)])
    ensures SameRuns(stats[..RowCount(count)], old(stats[..RowCount(count)]))
    ensures multiset(stats[..RowCount(count)]) == multiset(old(stats[..RowCount(count)]))
    ensures forall k :: RowCount(count) <= k < stats.Length ==> stats[k] == old(stats[k])
    ensures stats[..RowCount(count)] == Ranking(old(stats[..RowCount(count)]))
  {
    ghost var n := RowCount(count);
    var i := 0;
    while i < count - 1
      invariant 0 <= i <= n && (n > 0 ==> i < n)
      invariant RankedTail(stats[..n], n - i)
      invariant forall k :: n <= k < stats.Length ==> stats[k] == old(stats[k])
      invariant SameRuns(stats[..n], old(stats[..n]))
    {
      ghost var before := stats[..n];
      OuterPass(stats, n, count - i);
      SameRunsTrans(stats[..n], before, old(stats[..n]));
      i := i + 1;
    }
    RankedTailSorted(stats[..n], n - i);
    RankingSpec(old(stats[..n]));
    SameRunsTrans(stats[..n], old(stats[..n]), Ranking(old(stats[..n])));
    StableRankingUnique(stats[..n], Ranking(old(stats[..n])));
    RankingPermutes(old(stats[..n]));
  }

  /** Four locks with rates 20.0%, 50.0%, 50.0% and 10.0% rank as B, C, A, D:
      the two locks at 50.0% keep their original order. */
  lemma StableRankingExample(out: seq<Analyzed>)
    requires SortedDesc(out)
    requires SameRuns(out, [Sample('A', 200), Sample('B', 500), Sample('C', 500), Sample('D', 100)])
    ensures out == [Sample('B', 500), Sample('C', 500), Sample('A', 200), Sample('D', 100)]
  {
    var input := [Sample('A', 200), Sample('B', 500), Sample('C', 500), Sample('D', 100)];
    var want := [Sample('B', 500), Sample('C', 500), Sample('A', 200), Sample('D', 100)];
    forall v: nat
      ensures KeyRun(want, v) == KeyRun(input, v)
    {
      assert want == [want[0]] + ([want[1]] + ([want[2]] + [want[3]]));
      assert input == [input[0]] + ([input[1]] + ([input[2]] + [input[3]]));
      KeyRunConcat([want[0]], [want[1]] + ([want[2]] + [want[3]]), v);
      KeyRunConcat([want[1]], [want[2]] + [want[3]], v);
      KeyRunConcat([want[2]], [want[3]], v);
      KeyRunConcat([input[0]], [input[1]] + ([input[2]] + [input[3]]), v);
      KeyRunConcat([input[1]], [input[2]] + [input[3]], v);
      KeyRunConcat([input[2]], [input[3]], v);
    }
    StableRankingUnique(out, want);
  }

  /** An analysed entry named by one letter, with the given rate. */
  function Sample(letter: char, x10: nat): Analyzed {
    Analyzed(EmptyStat().(name := [letter, Nul]), x10, 0)
  }

  // ------------------------------------------------------------- printing

  datatype Severity = Normal | High | Critical

  /** The severity marker of a row: "!!!" above 20.0%, "**" above 10.0%,
      "-" otherwise, judged on the rate as the row prints it. */
  function SeverityOf(x10: nat): (sev: Severity)
    ensures var pct := PercentSplit(x10);
            && (sev == Critical <==> pct.0 > 20 || (pct.0 == 20 && pct.1 > 0))
            && (sev == Normal <==> pct.0 < 10 || (pct.0 == 10 && pct.1 == 0))
  {
    if x10 > 200 then Critical
    else if x10 > 100 then High
    else Normal
  }

  /** The "!!!" band, in terms of the raw counters: strictly more than 20.0%
      once truncated to tenths, i.e. at least 20.1% of acquisitions contended. */
  lemma CriticalBand(raw: LockStat)
    requires raw.acquireCount > 0
    ensures SeverityOf(ContentionX10(raw)) == Critical <==>
              raw.contentionCount * 1000 >= 201 * raw.acquireCount
  {
    var x, a := raw.contentionCount * 1000, raw.acquireCount;
    if x >= 201 * a {
      DivAtLeast(x, a, 201);
    } else {
      DivAtMost(x, a, 200);
    }
  }

  /** In a ranking, rows never rise in severity further down. */
  lemma SeverityFollowsRanking(s: seq<Analyzed>, k: nat, l: nat)
    requires SortedDesc(s) && k < l < |s|
    ensures SeverityOf(s[l].contentionX10) == Critical ==> SeverityOf(s[k].contentionX10) == Critical
    ensures SeverityOf(s[l].contentionX10) == High ==> SeverityOf(s[k].contentionX10) != Normal
  {
  }

  /** The integer and tenths parts printed for a rate. */
  function PercentSplit(x10: nat): (r: (nat, nat))
    ensures r.0 * 10 + r.1 == x10 && r.1 <= 9
  {
    (x10 / 10, x10 % 10)
  }

  /** A row of the ranking table: its rank, name, acquisitions, rate,
      average hold time and severity. */
  datatype TableRow = TableRow(rank: nat, name: seq<char>, acquires: nat,
                               pctInt: nat, pctFrac: nat, avgHold: nat, severity: Severity)

  /** A CSV row: name, acquisitions, contentions, rate and average hold time. */
  datatype CsvRow = CsvRow(name: seq<char>, acquires: nat, contentions: nat,
                           pctInt: nat, pctFrac: nat, avgHold: nat)

  /** Whether the printers show an entry: it was acquired at least once. */
  predicate Shown(e: Analyzed) {
    e.raw.acquireCount > 0
  }

  /** The positions of the entries both printers show, in table order. */
  function PrintedRows(stats: seq<Analyzed>, count: int): seq<nat>
    requires count <= |stats|
  {
    Select(stats[..RowCount(count)], Shown)
  }

  function TableRowOf(e: Analyzed, i: nat): TableRow {
    var pct := PercentSplit(e.contentionX10);
    TableRow(i + 1, e.raw.name, e.raw.acquireCount, pct.0, pct.1, e.avgHoldTime,
             SeverityOf(e.contentionX10))
  }

  function CsvRowOf(e: Analyzed): CsvRow {
    var pct := PercentSplit(e.contentionX10);
    CsvRow(e.raw.name, e.raw.acquireCount, e.raw.contentionCount, pct.0, pct.1, e.avgHoldTime)
  }

  /** print_results: one row per shown entry, in order, ranked by position. */
  function Table(stats: seq<Analyzed>, count: int): (rows: seq<TableRow>)
    requires count <= |stats|
    ensures |rows| == |PrintedRows(stats, count)|
    ensures forall k :: 0 <= k < |rows| ==> rows[k].acquires > 0 && 1 <= rows[k].rank <= RowCount(count)
  {
    var idx := PrintedRows(stats, count);
    seq(|idx|, k requires 0 <= k < |idx| => TableRowOf(stats[idx[k]], idx[k]))
  }

  /** print_csv: one row per shown entry, in order. */
  function Csv(stats: seq<Analyzed>, count: int): (rows: seq<CsvRow>)
    requires count <= |stats|
    ensures |rows| == |PrintedRows(stats, count)|
    ensures forall k :: 0 <= k < |rows| ==> rows[k].acquires > 0
  {
    var idx := PrintedRows(stats, count);
    seq(|idx|, k requires 0 <= k < |idx| => CsvRowOf(stats[idx[k]]))
  }

  /** Every printed row shows an acquired entry among the first `count`:
      the rank is the entry's position plus one, the table and the CSV agree
      on the row, and the rate is split exactly. */
  lemma PrintedRowsShowEntries(stats: seq<Analyzed>, count: int)
    requires count <= |stats|
    ensures var t, c := Table(stats, count), Csv(stats, count);
            && |t| == |c|
            && forall k :: 0 <= k < |t| ==>
                 && 1 <= t[k].rank <= RowCount(count)
                 && var e := stats[t[k].rank - 1];
                 && e.raw.acquireCount > 0
                 && t[k].name == c[k].name == e.raw.name
                 && t[k].acquires == c[k].acquires == e.raw.acquireCount
                 && t[k].pctInt == c[k].pctInt && t[k].pctFrac == c[k].pctFrac
                 && t[k].pctInt * 10 + t[k].pctFrac == e.contentionX10
  {
    var t, idx := Table(stats, count), PrintedRows(stats, count);
    forall k | 0 <= k < |t|
      ensures t[k] == TableRowOf(stats[idx[k]], idx[k]) && Csv(stats, count)[k] == CsvRowOf(stats[idx[k]])
      ensures idx[k] < RowCount(count) && stats[idx[k]].raw.acquireCount > 0
    {
      assert Shown(stats[..RowCount(count)][idx[k]]);
    }
  }

  /** Rows are printed in table order, each entry at most once. */
  lemma PrintedRowsInOrder(stats: seq<Analyzed>, count: int)
    requires count <= |stats|
    ensures var t := Table(stats, count);
            forall k, l :: 0 <= k < l < |t| ==> t[k].rank < t[l].rank
  {
    var t, idx := Table(stats, count), PrintedRows(stats, count);
    assert forall k :: 0 <= k < |t| ==> t[k].rank == idx[k] + 1;
  }

  /** Every acquired entry among the first `count` is printed. */
  lemma PrintedRowsComplete(stats: seq<Analyzed>, count: int)
    requires count <= |stats|
    ensures var t := Table(stats, count);
            forall i :: 0 <= i < RowCount(count) && stats[i].raw.acquireCount > 0 ==>
              exists k :: 0 <= k < |t| && t[k].rank == i + 1
  {
    var t, idx := Table(stats, count), PrintedRows(stats, count);
    var pre := stats[..RowCount(count)];
    forall i | 0 <= i < RowCount(count) && stats[i].raw.acquireCount > 0
      ensures exists k :: 0 <= k < |t| && t[k].rank == i + 1
    {
      assert Shown(pre[i]);
      var k :| 0 <= k < |idx| && idx[k] == i;
      assert t[k].rank == i + 1;
    }
  }

  // --------------------------------------------------------------- driver

  datatype Mode = TableOnly | CsvOnly | Both

  /** Mode selection from the first argument: "-c" for CSV, "-b" for both,
      anything else (or nothing) for the table. */
  function ModeOf(args: seq<string>): (mode: Mode)
    ensures mode == CsvOnly <==> |args| > 1 && args[1] == "-c"
    ensures mode == Both <==> |args| > 1 && args[1] == "-b"
  {
    if |args| > 1 then
      if args[1] == "-c" then CsvOnly
      else if args[1] == "-b" then Both
      else TableOnly
    else TableOnly
  }

  /** The analysis array after the copy loop and calculate_metrics: the
      first n raw entries with their metrics. */
  function Prepared(buffer: seq<LockStat>, n: nat): (s: seq<Analyzed>)
    requires n <= |buffer|
    ensures |s| == n
  {
    seq(n, i requires 0 <= i < n => WithMetrics(ZeroAnalyzed().(raw := buffer[i])))
  }

  /** main of the lockstat tool.  `returned` is what the lockstat system call
      returned and `buffer` the raw table it filled.  No data or an error
      exits with 1 and prints nothing else; otherwise the table, the CSV or
      both are printed from the one ranked array, and the exit code is 0.
      `ranked` is that array, whose first `returned` entries are the
      reference ranking of the analysed entries. */
  method LockstatMain(args: seq<string>, returned: int, buffer: seq<LockStat>)
    returns (exitCode: int, table: Option<seq<TableRow>>, csv: Option<seq<CsvRow>>,
             ranked: seq<Analyzed>)
    requires |buffer| == MaxLocks && returned <= MaxLocks
    ensures returned <= 0 ==> exitCode == 1 && table == None && csv == None
    ensures returned > 0 ==> exitCode == 0
    ensures returned > 0 ==> (table != None <==> ModeOf(args) != CsvOnly)
    ensures returned > 0 ==> (csv != None <==> ModeOf(args) != TableOnly)
    ensures returned > 0 ==>
              && |ranked| == MaxLocks
              && ranked[..returned] == Ranking(Prepared(buffer, returned))
              && (table != None ==> table.value == Table(ranked, returned))
              && (csv != None ==> csv.value == Csv(ranked, returned))
  {
    if returned <= 0 {
      return 1, None, None, [];
    }
    var analyzed := new Analyzed[MaxLocks](_ => ZeroAnalyzed());
    var i := 0;
    while i < returned
      invariant 0 <= i <= returned
      invariant forall k :: 0 <= k < MaxLocks ==>
                  analyzed[k] == if k < i then ZeroAnalyzed().(raw := buffer[k]) else ZeroAnalyzed()
    {
      analyzed[i] := analyzed[i].(raw := buffer[i]);
      i := i + 1;
    }
    CalculateMetrics(analyzed, returned);
    assert analyzed[..returned] == Prepared(buffer, returned);
    SortStats(analyzed, returned);
    ranked := analyzed[..];
    assert ranked[..returned] == analyzed[..returned];
    var mode := ModeOf(args);
    table, csv := None, None;
    if mode == Both {
      table := Some(Table(ranked, returned));
      csv := Some(Csv(ranked, returned));
    } else if mode == CsvOnly {
      csv := Some(Csv(ranked, returned));
    } else {
      table := Some(Table(ranked, returned));
    }
    exitCode := 0;
  }
}
