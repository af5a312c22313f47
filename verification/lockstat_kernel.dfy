/** The lock statistics registry of kernel/lockstat.c: the bounded name
    helpers, get-or-create lookup, the counter updates done on every
    acquire and release, and the export of a prefix of the table.

    Each operation is one sequential step.  The source updates the additive
    counters with fetch-and-add and the two maximum fields with an unlocked
    read-compare-write; under concurrency two CPUs can both read the old
    maximum and the smaller sample can be written last (a lost update).  A
    sequential model has no such interleaving, so here every maximum is exact. */
module LockStat {
  import opened Records
  import opened Spinlock

  function Min(a: int, b: int): (m: int) {
    if a < b then a else b
  }

  // ---------------------------------------------------------------- names

  /** A scan of at most `n` characters of `s` that stops at a NUL stays inside `s`. */
  predicate Bounded(s: seq<char>, n: nat) {
    n <= |s| || Nul in s
  }

  function NulScan(s: seq<char>, n: nat, i: nat): (k: nat)
    requires i <= n && i <= |s|
    requires forall j :: 0 <= j < i ==> s[j] != Nul
    ensures i <= k <= n && k <= |s|
    ensures forall j :: 0 <= j < k ==> s[j] != Nul
    ensures k < n && k < |s| ==> s[k] == Nul
    decreases n - i
  {
    if i == n || i == |s| then i
    else if s[i] == Nul then i
    else NulScan(s, n, i + 1)
  }

  /** The length of the C string at `s`, cut off at `n` characters. */
  function NulIndex(s: seq<char>, n: nat): (k: nat)
    requires Bounded(s, n)
    ensures k <= n && k <= |s|
    ensures forall j :: 0 <= j < k ==> s[j] != Nul
    ensures k < n ==> s[k] == Nul
  {
    NulScan(s, n, 0)
  }

  /** The two properties of NulIndex pin it down. */
  lemma NulIndexIs(s: seq<char>, n: nat, m: nat)
    requires Bounded(s, n) && m <= n && m <= |s|
    requires forall j :: 0 <= j < m ==> s[j] != Nul
    requires m < n ==> s[m] == Nul
    ensures NulIndex(s, n) == m
  {
  }

  /** How many characters mystrcmp compares when it finds no difference:
      up to the first NUL of either string, and at most `n`. */
  function Span(s1: seq<char>, s2: seq<char>, n: nat): (k: nat)
    requires Bounded(s1, n) && Bounded(s2, n)
  {
    Min(NulIndex(s1, n), NulIndex(s2, n))
  }

  /** The first k characters of a and b are the same. */
  predicate AgreeUpTo(a: seq<char>, b: seq<char>, k: nat) {
    k <= |a| && k <= |b| && forall j :: 0 <= j < k ==> a[j] == b[j]
  }

  /** mystrcmp(s1, s2, n) == 0: the strings agree on every character compared. */
  predicate NamesMatch(s1: seq<char>, s2: seq<char>, n: nat)
    requires Bounded(s1, n) && Bounded(s2, n)
  {
    AgreeUpTo(s1, s2, Span(s1, s2, n))
  }

  /** mystrcmp: 0 exactly when the names match; otherwise the difference of
      the first pair of characters that differ. */
  method StrCmp(s1: seq<char>, s2: seq<char>, n: nat) returns (r: int)
    requires Bounded(s1, n) && Bounded(s2, n)
    ensures r == 0 <==> NamesMatch(s1, s2, n)
    ensures r != 0 ==> exists k :: 0 <= k < Span(s1, s2, n) && AgreeUpTo(s1, s2, k)
                                   && r == s1[k] as int - s2[k] as int
  {
    var i := 0;
    while i < n && s1[i] != Nul && s2[i] != Nul
      invariant i <= n && i <= |s1| && i <= |s2|
      invariant forall j :: 0 <= j < i ==> s1[j] != Nul && s2[j] != Nul
      invariant AgreeUpTo(s1, s2, i)
    {
      if s1[i] != s2[i] {
        NulIndexPast(s1, n, i + 1);
        NulIndexPast(s2, n, i + 1);
        assert !AgreeUpTo(s1, s2, Span(s1, s2, n));
        return s1[i] as int - s2[i] as int;
      }
      i := i + 1;
      if i < n {
        BoundedStep(s1, n, i);
        BoundedStep(s2, n, i);
      }
    }
    NulIndexPast(s1, n, i);
    NulIndexPast(s2, n, i);
    if i < n {
      if s1[i] == Nul { NulIndexIs(s1, n, i); } else { NulIndexIs(s2, n, i); }
    }
    return 0;
  }

  /** A NUL-free prefix shorter than the bound does not exhaust a bounded string. */
  lemma BoundedStep(s: seq<char>, n: nat, i: nat)
    requires Bounded(s, n) && i < n && i <= |s|
    requires forall j :: 0 <= j < i ==> s[j] != Nul
    ensures i < |s|
  {
    if n > |s| {
      var m :| 0 <= m < |s| && s[m] == Nul;
      assert i <= m;
    }
  }

  /** NulIndex is at least the length of any NUL-free prefix. */
  lemma NulIndexPast(s: seq<char>, n: nat, i: nat)
    requires Bounded(s, n) && i <= n && i <= |s|
    requires forall j :: 0 <= j < i ==> s[j] != Nul
    ensures NulIndex(s, n) >= i
  {
  }

  /** The buffer mystrncpy(dst, src, n) leaves: at most n - 1 characters of
      src, a NUL, and the rest of dst as it was. */
  function CopiedName(dst: seq<char>, src: seq<char>, n: nat): (copied: seq<char>)
    requires 1 <= n <= |dst| && Bounded(src, n - 1)
  {
    var k := NulIndex(src, n - 1);
    src[..k] + [Nul] + dst[k + 1..]
  }

  /** Characters of the copy, one position at a time. */
  lemma CopiedNameAt(dst: seq<char>, src: seq<char>, n: nat)
    requires 1 <= n <= |dst| && Bounded(src, n - 1)
    ensures var k := NulIndex(src, n - 1);
            var c := CopiedName(dst, src, n);
            && |c| == |dst| && k < n && c[k] == Nul
            && (forall j :: 0 <= j < k ==> c[j] == src[j])
            && (forall j :: k < j < |dst| ==> c[j] == dst[j])
  {
  }

  /** mystrncpy. */
  method StrNCopy(dst: seq<char>, src: seq<char>, n: nat) returns (r: seq<char>)
    requires 1 <= n <= |dst| && Bounded(src, n - 1)
    ensures r == CopiedName(dst, src, n)
    ensures |r| == |dst| && NulIndex(r, n) < n
  {
    r := dst;
    var i := 0;
    while i < n - 1 && src[i] != Nul
      invariant i <= n - 1 && i <= |src|
      invariant forall j :: 0 <= j < i ==> src[j] != Nul
      invariant |r| == |dst|
      invariant forall j :: 0 <= j < i ==> r[j] == src[j]
      invariant forall j :: i <= j < |r| ==> r[j] == dst[j]
    {
      r := r[i := src[i]];
      i := i + 1;
      if i < n - 1 {
        BoundedStep(src, n - 1, i);
      }
    }
    r := r[i := Nul];
    NulIndexPast(src, n - 1, i);
    if i < n - 1 {
      NulIndexIs(src, n - 1, i);
    }
    CopiedNameAt(dst, src, n);
    assert r == CopiedName(dst, src, n);
    NulIndexIs(r, n, i);
  }

  /** A name copied into an entry is found again by comparing against its source. */
  lemma CopiedNameMatches(dst: seq<char>, src: seq<char>, n: nat)
    requires 1 <= n <= |dst| && Bounded(src, n)
    ensures Bounded(src, n - 1) && |CopiedName(dst, src, n)| == |dst|
    ensures NamesMatch(CopiedName(dst, src, n), src, n)
  {
    var k := NulIndex(src, n - 1);
    var c := CopiedName(dst, src, n);
    CopiedNameAt(dst, src, n);
    NulIndexIs(c, n, k);
    NulIndexPast(src, n, k);
  }

  /** The NUL terminating a NUL-free string `t` ends it, whatever follows. */
  lemma StringNulIndex(t: seq<char>, rest: seq<char>, n: nat)
    requires forall j :: 0 <= j < |t| ==> t[j] != Nul
    ensures Bounded(t + [Nul] + rest, n)
    ensures NulIndex(t + [Nul] + rest, n) == Min(|t|, n)
  {
    var s := t + [Nul] + rest;
    assert s[|t|] == Nul;
    NulIndexIs(s, n, Min(|t|, n));
  }

  /** The C string `t` followed by its NUL. */
  lemma StringNulIndexEnd(t: seq<char>, n: nat)
    requires forall j :: 0 <= j < |t| ==> t[j] != Nul
    ensures Bounded(t + [Nul], n)
    ensures NulIndex(t + [Nul], n) == Min(|t|, n)
  {
    StringNulIndex(t, [], n);
    assert t + [Nul] + [] == t + [Nul];
  }

  /** Copying the C string `t` keeps min(|t|, n - 1) of its characters. */
  lemma CopiedString(dst: seq<char>, t: seq<char>, n: nat)
    requires 1 <= n <= |dst|
    requires forall j :: 0 <= j < |t| ==> t[j] != Nul
    ensures Bounded(t + [Nul], n - 1) && Bounded(CopiedName(dst, t + [Nul], n), n)
    ensures var k := Min(|t|, n - 1);
            NulIndex(CopiedName(dst, t + [Nul], n), n) == k
            && AgreeUpTo(CopiedName(dst, t + [Nul], n), t, k)
  {
    StringNulIndexEnd(t, n - 1);
    var k := Min(|t|, n - 1);
    var c := CopiedName(dst, t + [Nul], n);
    CopiedNameAt(dst, t + [Nul], n);
    NulIndexIs(c, n, k);
  }

  /** mystrcmp stops at the first NUL of either string, so a name that is a
      prefix of another compares equal to it: a lookup of `p` finds an entry
      created for `p + q`. */
  lemma PrefixFindsLongerEntry(dst: seq<char>, p: seq<char>, q: seq<char>)
    requires |dst| == MaxLockName
    requires forall j :: 0 <= j < |p + q| ==> (p + q)[j] != Nul
    ensures Bounded(p + q + [Nul], MaxLockName - 1) && Bounded(p + [Nul], MaxLockName)
    ensures NamesMatch(CopiedName(dst, p + q + [Nul], MaxLockName), p + [Nul], MaxLockName)
  {
    assert forall j :: 0 <= j < |p| ==> p[j] == (p + q)[j];
    CopiedString(dst, p + q, MaxLockName);
    StringNulIndexEnd(p, MaxLockName);
  }

  /** The other direction: a lookup of `p + q` finds an entry created for `p`. */
  lemma LongerFindsPrefixEntry(dst: seq<char>, p: seq<char>, q: seq<char>)
    requires |dst| == MaxLockName
    requires forall j :: 0 <= j < |p + q| ==> (p + q)[j] != Nul
    ensures Bounded(p + [Nul], MaxLockName - 1) && Bounded(p + q + [Nul], MaxLockName)
    ensures NamesMatch(CopiedName(dst, p + [Nul], MaxLockName), p + q + [Nul], MaxLockName)
  {
    assert forall j :: 0 <= j < |p| ==> p[j] == (p + q)[j];
    CopiedString(dst, p, MaxLockName);
    StringNulIndexEnd(p + q, MaxLockName);
  }

  // ------------------------------------------------------------- the table

  /** The abstract state of the registry: the table, the number of entries in
      use and the global tracking flag. */
  datatype RegistryState = RegistryState(stats: seq<LockStat>, lockCount: nat, tracking: bool)

  /** The result of get_lock_index: the index (or -1) and the registry after it. */
  datatype LookupResult = LookupResult(index: int, after: RegistryState)

  /** What every entry keeps: a full name buffer, no more contended than
      total acquisitions, and maxima bounded by the totals they come from. */
  predicate EntryOk(e: LockStat) {
    && |e.name| == MaxLockName
    && e.contentionCount <= e.acquireCount
    && e.maxWaitTime <= e.totalWaitTime
    && e.maxHoldTime <= e.totalHoldTime
  }

  /** A slot past lock_count has never been counted in. */
  predicate Unused(e: LockStat) {
    && e.acquireCount == 0 && e.contentionCount == 0
    && e.totalHoldTime == 0 && e.totalWaitTime == 0
    && e.maxHoldTime == 0 && e.maxWaitTime == 0
  }

  predicate Wf(s: RegistryState) {
    && |s.stats| == MaxLocks
    && s.lockCount <= MaxLocks
    && (forall i :: 0 <= i < |s.stats| ==> EntryOk(s.stats[i]))
    && (forall i :: s.lockCount <= i < |s.stats| ==> Unused(s.stats[i]))
    && (!s.tracking ==> s.lockCount == 0)
  }

  /** Whether entry `e` is the one mystrcmp reports for lock name `key`. */
  predicate Matches(e: LockStat, key: seq<char>)
    requires EntryOk(e) && Bounded(key, MaxLockName)
  {
    NamesMatch(e.name, key, MaxLockName)
  }

  /** The index of the first entry in [from, count) whose name matches, or -1. */
  function FindFirst(stats: seq<LockStat>, count: nat, key: seq<char>, from: nat): (r: int)
    requires count <= |stats| && from <= count
    requires forall i :: 0 <= i < count ==> EntryOk(stats[i])
    requires Bounded(key, MaxLockName)
    ensures r == -1 || from <= r < count
    ensures r == -1 ==> forall j :: from <= j < count ==> !Matches(stats[j], key)
    ensures r >= 0 ==> Matches(stats[r], key)
    ensures r >= 0 ==> forall j :: from <= j < r ==> !Matches(stats[j], key)
    decreases count - from
  {
    if from == count then -1
    else if Matches(stats[from], key) then from
    else
      var r := FindFirst(stats, count, key, from + 1);
      assert r >= 0 ==> !Matches(stats[from], key) && from < r;
      r
  }

  /** The slot at lock_count after get_lock_index has claimed it for `key`. */
  function Claimed(e: LockStat, key: seq<char>): (r: LockStat)
    requires EntryOk(e) && Bounded(key, MaxLockName)
    ensures EntryOk(r) && Matches(r, key) && r.enabled
    ensures r.(name := e.name, enabled := e.enabled) == e
  {
    CopiedNameMatches(e.name, key, MaxLockName);
    e.(name := CopiedName(e.name, key, MaxLockName), enabled := true)
  }

  /** The registry after get_lock_index has appended an entry for `key`. */
  function Appended(s: RegistryState, key: seq<char>): (r: RegistryState)
    requires Wf(s) && s.tracking && s.lockCount < MaxLocks && Bounded(key, MaxLockName)
    ensures Wf(r) && r.tracking == s.tracking && r.lockCount == s.lockCount + 1
    ensures Matches(r.stats[s.lockCount], key)
  {
    s.(stats := s.stats[s.lockCount := Claimed(s.stats[s.lockCount], key)],
       lockCount := s.lockCount + 1)
  }

  /** get_lock_index: -1 for the registry's own guard lock; otherwise the
      first entry whose name matches, else a new entry at lock_count while
      there is room, else -1. */
  function Lookup(s: RegistryState, isGuard: bool, key: seq<char>): (r: LookupResult)
    requires Wf(s) && s.tracking && Bounded(key, MaxLockName)
    ensures Wf(r.after) && r.after.tracking
    ensures -1 <= r.index < r.after.lockCount
  {
    if isGuard then LookupResult(-1, s)
    else
      var i := FindFirst(s.stats, s.lockCount, key, 0);
      if i >= 0 then LookupResult(i, s)
      else if s.lockCount < MaxLocks then LookupResult(s.lockCount, Appended(s, key))
      else LookupResult(-1, s)
  }

  /** What get_lock_index promises.  The guard lock gets -1 and changes
      nothing.  Any index returned names the first entry that matches.  The
      registry either stays as it was or gains exactly one entry, appended
      at the old lock_count, and it gains one exactly when no entry matched
      and there was room; -1 always leaves it as it was. */
  lemma LookupSpec(s: RegistryState, isGuard: bool, key: seq<char>)
    requires Wf(s) && s.tracking && Bounded(key, MaxLockName)
    ensures var r := Lookup(s, isGuard, key);
            && (isGuard ==> r == LookupResult(-1, s))
            && (r.index == -1 ==> r.after == s)
            && (r.index >= 0 ==> Matches(r.after.stats[r.index], key))
            && (r.index >= 0 ==> forall j :: 0 <= j < r.index ==> !Matches(s.stats[j], key))
            && (r.after == s || (s.lockCount < MaxLocks && r == LookupResult(s.lockCount, Appended(s, key))))
            && (r.after != s <==>
                  !isGuard && s.lockCount < MaxLocks
                  && forall j :: 0 <= j < s.lockCount ==> !Matches(s.stats[j], key))
  {
    if !isGuard {
      var i := FindFirst(s.stats, s.lockCount, key, 0);
      if s.lockCount < MaxLocks {
        assert Appended(s, key).lockCount != s.lockCount;
      }
      if i >= 0 {
        assert !Matches(s.stats[i], key) ==> false;
      }
    }
  }

  /** The three outcomes of Lookup for a lock other than the guard, one per
      return statement of get_lock_index. */
  lemma LookupFinds(s: RegistryState, key: seq<char>, i: nat)
    requires Wf(s) && s.tracking && Bounded(key, MaxLockName) && i < s.lockCount
    requires Matches(s.stats[i], key)
    requires forall j :: 0 <= j < i ==> !Matches(s.stats[j], key)
    ensures Lookup(s, false, key) == LookupResult(i, s)
  {
    assert FindFirst(s.stats, s.lockCount, key, 0) == i;
  }

  lemma LookupAppends(s: RegistryState, key: seq<char>)
    requires Wf(s) && s.tracking && Bounded(key, MaxLockName) && s.lockCount < MaxLocks
    requires forall j :: 0 <= j < s.lockCount ==> !Matches(s.stats[j], key)
    ensures Lookup(s, false, key) == LookupResult(s.lockCount, Appended(s, key))
  {
    assert FindFirst(s.stats, s.lockCount, key, 0) == -1;
  }

  lemma LookupFull(s: RegistryState, key: seq<char>)
    requires Wf(s) && s.tracking && Bounded(key, MaxLockName) && s.lockCount == MaxLocks
    requires forall j :: 0 <= j < s.lockCount ==> !Matches(s.stats[j], key)
    ensures Lookup(s, false, key) == LookupResult(-1, s)
  {
    assert FindFirst(s.stats, s.lockCount, key, 0) == -1;
  }

  /** The entry after lockstat_record_acquire has counted one acquisition. */
  function RecordedAcquire(e: LockStat, wait: nat, now: nat): (r: LockStat)
    ensures EntryOk(e) ==> EntryOk(r)
    ensures r.acquireCount == e.acquireCount + 1
    ensures r.contentionCount == e.contentionCount + (if wait > 0 then 1 else 0)
    ensures r.totalWaitTime == e.totalWaitTime + wait
    ensures r.maxWaitTime >= e.maxWaitTime && r.maxWaitTime >= wait
    ensures r.maxWaitTime == e.maxWaitTime || r.maxWaitTime == wait
    ensures r.lastAcquireTime == now
    ensures r.(acquireCount := e.acquireCount, contentionCount := e.contentionCount,
               totalWaitTime := e.totalWaitTime, maxWaitTime := e.maxWaitTime,
               lastAcquireTime := e.lastAcquireTime) == e
  {
    var counted := e.(acquireCount := e.acquireCount + 1);
    var waited :=
      if wait > 0 then
        counted.(contentionCount := counted.contentionCount + 1,
                 totalWaitTime := counted.totalWaitTime + wait,
                 maxWaitTime := if wait > counted.maxWaitTime then wait else counted.maxWaitTime)
      else counted;
    waited.(lastAcquireTime := now)
  }

  /** The entry after lockstat_record_release has counted one hold. */
  function RecordedRelease(e: LockStat, hold: nat): (r: LockStat)
    ensures EntryOk(e) ==> EntryOk(r)
    ensures r.totalHoldTime == e.totalHoldTime + hold
    ensures r.maxHoldTime >= e.maxHoldTime && r.maxHoldTime >= hold
    ensures r.maxHoldTime == e.maxHoldTime || r.maxHoldTime == hold
    ensures r.(totalHoldTime := e.totalHoldTime, maxHoldTime := e.maxHoldTime) == e
  {
    var held := e.(totalHoldTime := e.totalHoldTime + hold);
    held.(maxHoldTime := if hold > held.maxHoldTime then hold else held.maxHoldTime)
  }

  /** lockstat_record_acquire: nothing while tracking is off or the lock is
      marked no_track, nothing when the lookup gives -1, else one acquisition
      counted in the entry found or created. */
  function AfterAcquire(s: RegistryState, isGuard: bool, noTrack: bool, key: seq<char>,
                        wait: nat, now: nat): (r: RegistryState)
    requires Wf(s) && Bounded(key, MaxLockName)
    ensures Wf(r) && r.tracking == s.tracking
  {
    if !s.tracking || noTrack then s
    else
      var l := Lookup(s, isGuard, key);
      if l.index < 0 then l.after
      else l.after.(stats := l.after.stats[l.index := RecordedAcquire(l.after.stats[l.index], wait, now)])
  }

  /** lockstat_record_release, gated the same way. */
  function AfterRelease(s: RegistryState, isGuard: bool, noTrack: bool, key: seq<char>,
                        hold: nat): (r: RegistryState)
    requires Wf(s) && Bounded(key, MaxLockName)
    ensures Wf(r) && r.tracking == s.tracking
  {
    if !s.tracking || noTrack then s
    else
      var l := Lookup(s, isGuard, key);
      if l.index < 0 then l.after
      else l.after.(stats := l.after.stats[l.index := RecordedRelease(l.after.stats[l.index], hold)])
  }

  /** AfterAcquire and AfterRelease once tracking is on and the lookup is done. */
  lemma AfterLookup(s: RegistryState, isGuard: bool, noTrack: bool, key: seq<char>,
                    wait: nat, now: nat, hold: nat, l: LookupResult)
    requires Wf(s) && s.tracking && !noTrack && Bounded(key, MaxLockName)
    requires l == Lookup(s, isGuard, key)
    ensures AfterAcquire(s, isGuard, noTrack, key, wait, now) ==
              if l.index < 0 then l.after
              else l.after.(stats := l.after.stats[l.index := RecordedAcquire(l.after.stats[l.index], wait, now)])
    ensures AfterRelease(s, isGuard, noTrack, key, hold) ==
              if l.index < 0 then l.after
              else l.after.(stats := l.after.stats[l.index := RecordedRelease(l.after.stats[l.index], hold)])
  {
  }

  /** A lookup that yields an entry yields the same entry again, and changes
      nothing, even after that entry's counters have moved: a lock is
      registered at most once. */
  lemma LookupAgain(s: RegistryState, key: seq<char>, e: LockStat)
    requires Wf(s) && s.tracking && Bounded(key, MaxLockName)
    requires Lookup(s, false, key).index >= 0 && EntryOk(e)
    requires e.name == Lookup(s, false, key).after.stats[Lookup(s, false, key).index].name
    ensures var l := Lookup(s, false, key);
            var t := l.after.(stats := l.after.stats[l.index := e]);
            Wf(t) && t.tracking && Lookup(t, false, key) == LookupResult(l.index, t)
  {
    var l := Lookup(s, false, key);
    LookupSpec(s, false, key);
    var t := l.after.(stats := l.after.stats[l.index := e]);
    assert Wf(t) && Matches(t.stats[l.index], key);
    forall j | 0 <= j < l.index
      ensures !Matches(t.stats[j], key)
    {
      assert t.stats[j] == s.stats[j];
    }
    LookupFinds(t, key, l.index);
  }

  lemma LookupIdempotent(s: RegistryState, key: seq<char>)
    requires Wf(s) && s.tracking && Bounded(key, MaxLockName)
    ensures var l := Lookup(s, false, key);
            l.index >= 0 ==> Lookup(l.after, false, key) == LookupResult(l.index, l.after)
  {
    var l := Lookup(s, false, key);
    if l.index >= 0 {
      LookupAgain(s, key, l.after.stats[l.index]);
      assert l.after.(stats := l.after.stats[l.index := l.after.stats[l.index]]) == l.after;
    }
  }

  /** Once a name has an entry, a lookup of any prefix of it reuses an entry
      at or before that one instead of creating a new entry. */
  lemma PrefixReusesEntry(s: RegistryState, p: seq<char>, q: seq<char>)
    requires Wf(s) && s.tracking
    requires forall j :: 0 <= j < |p + q| ==> (p + q)[j] != Nul
    ensures Bounded(p + q + [Nul], MaxLockName) && Bounded(p + [Nul], MaxLockName)
    ensures var l := Lookup(s, false, p + q + [Nul]);
            l.index >= 0 ==>
              var m := Lookup(l.after, false, p + [Nul]);
              0 <= m.index <= l.index && m.after == l.after
  {
    assert forall j :: 0 <= j < |p| ==> p[j] == (p + q)[j];
    StringNulIndexEnd(p + q, MaxLockName);
    StringNulIndexEnd(p, MaxLockName);
    var l := Lookup(s, false, p + q + [Nul]);
    if l.index >= 0 {
      LookupSpec(s, false, p + q + [Nul]);
      var e := l.after.stats[l.index];
      if l.after == s {
        // Found: the stored name matches p + q, and p is a prefix of that.
        PrefixMatchesStored(e.name, p, q);
      } else {
        // Created: the stored name is the copy of p + q.
        PrefixFindsLongerEntry(s.stats[l.index].name, p, q);
      }
      var f := FindFirst(l.after.stats, l.after.lockCount, p + [Nul], 0);
      assert f >= 0 && f <= l.index;
    }
  }

  /** A stored name that matches p + q also matches its prefix p. */
  lemma PrefixMatchesStored(name: seq<char>, p: seq<char>, q: seq<char>)
    requires |name| == MaxLockName
    requires forall j :: 0 <= j < |p + q| ==> (p + q)[j] != Nul
    requires Bounded(p + q + [Nul], MaxLockName) && Bounded(p + [Nul], MaxLockName)
    requires NamesMatch(name, p + q + [Nul], MaxLockName)
    ensures NamesMatch(name, p + [Nul], MaxLockName)
  {
    assert forall j :: 0 <= j < |p| ==> p[j] == (p + q)[j];
    StringNulIndexEnd(p + q, MaxLockName);
    StringNulIndexEnd(p, MaxLockName);
    var long, short := Span(name, p + q + [Nul], MaxLockName), Span(name, p + [Nul], MaxLockName);
    assert short <= long;
    forall j | 0 <= j < short
      ensures name[j] == (p + [Nul])[j]
    {
      assert name[j] == (p + q + [Nul])[j] == (p + q)[j];
    }
  }

  /** The total number of acquisitions counted in a table. */
  function SumAcquires(stats: seq<LockStat>): (total: nat) {
    if stats == [] then 0 else SumAcquires(stats[..|stats| - 1]) + stats[|stats| - 1].acquireCount
  }

  lemma {:induction false} SumAcquiresUpdate(stats: seq<LockStat>, i: nat, e: LockStat)
    requires i < |stats|
    ensures SumAcquires(stats[i := e]) + stats[i].acquireCount == SumAcquires(stats) + e.acquireCount
    decreases |stats|
  {
    var n := |stats| - 1;
    assert stats[i := e][..n] == if i == n then stats[..n] else stats[..n][i := e];
    if i < n {
      SumAcquiresUpdate(stats[..n], i, e);
    }
  }

  /** Every acquire that gets past the gates and finds or creates an entry
      adds exactly one to the table's total acquisition count; every release
      leaves that total alone. */
  lemma AcquireAddsOne(s: RegistryState, isGuard: bool, noTrack: bool, key: seq<char>,
                       wait: nat, now: nat, hold: nat)
    requires Wf(s) && Bounded(key, MaxLockName)
    ensures var counted := s.tracking && !noTrack && Lookup(s, isGuard, key).index >= 0;
            SumAcquires(AfterAcquire(s, isGuard, noTrack, key, wait, now).stats)
              == SumAcquires(s.stats) + (if counted then 1 else 0)
    ensures SumAcquires(AfterRelease(s, isGuard, noTrack, key, hold).stats) == SumAcquires(s.stats)
  {
    if s.tracking && !noTrack {
      var l := Lookup(s, isGuard, key);
      AfterLookup(s, isGuard, noTrack, key, wait, now, hold, l);
      LookupSpec(s, isGuard, key);
      if l.after != s {
        SumAcquiresUpdate(s.stats, s.lockCount, l.after.stats[s.lockCount]);
      }
      if l.index >= 0 {
        var e := l.after.stats[l.index];
        SumAcquiresUpdate(l.after.stats, l.index, RecordedAcquire(e, wait, now));
        SumAcquiresUpdate(l.after.stats, l.index, RecordedRelease(e, hold));
      }
    }
  }

  /** The number of entries lockstat_copy_to_user tries to copy. */
  function ExportCount(lockCount: nat, maxLocks: int): int {
    if lockCount < maxLocks then lockCount else maxLocks
  }

  /** The first slot in [i, n) whose copy to user memory fails, or n.  Slot j
      can be written when it lies inside the destination and copyOk[j] holds. */
  function FirstCopyFailure(copyOk: seq<bool>, n: nat, i: nat): (f: nat)
    requires i <= n
    ensures i <= f <= n
    ensures forall j :: i <= j < f ==> CopyOk(copyOk, j)
    ensures f < n ==> !CopyOk(copyOk, f)
    ensures f > i ==> f <= |copyOk|
    decreases n - i
  {
    if i == n then n
    else if !CopyOk(copyOk, i) then i
    else FirstCopyFailure(copyOk, n, i + 1)
  }

  /** Whether copyout of slot j succeeds: the slot lies inside the
      destination and the destination accepts the write. */
  predicate CopyOk(copyOk: seq<bool>, j: nat) {
    j < |copyOk| && copyOk[j]
  }

  // ---------------------------------------------------------- the registry

  /** The process-wide registry: the table, lock_count, the tracking flag and
      the lock that guards the table (lockstat_lock). */
  class Registry {
    const stats: array<LockStat>
    var lockCount: nat
    var trackingEnabled: bool
    const guard: Spinlock

    ghost function State(): RegistryState
      reads this, stats
    {
      RegistryState(stats[..], lockCount, trackingEnabled)
    }

    ghost predicate Valid()
      reads this, stats
    {
      stats.Length == MaxLocks && Wf(State())
    }

    /** The statically allocated registry before lockstat_init: all zero. */
    constructor ()
      ensures Valid() && fresh(stats) && fresh(guard)
      ensures lockCount == 0 && !trackingEnabled
      ensures forall i :: 0 <= i < MaxLocks ==> stats[i] == EmptyStat()
    {
      stats := new LockStat[MaxLocks](_ => EmptyStat());
      lockCount := 0;
      trackingEnabled := false;
      guard := new Spinlock();
    }

    /** lockstat_init: names the guard lock, clears the enabled flag and the
      four original counters of every slot, then turns tracking on.  It runs
      once, before tracking starts. */
    method Init()
      requires Valid() && !trackingEnabled
      modifies this, stats, guard
      ensures Valid() && trackingEnabled && lockCount == old(lockCount)
      ensures forall i :: 0 <= i < MaxLocks ==>
                stats[i] == old(stats[i]).(enabled := false, acquireCount := 0, contentionCount := 0,
                                           totalHoldTime := 0, totalWaitTime := 0)
      ensures guard.name == "lockstat" + [Nul] && !guard.locked && guard.cpu == null
      ensures guard.acquireTime == 0 && guard.noTrack == old(guard.noTrack)
    {
      guard.InitLock("lockstat" + [Nul]);
      for i := 0 to MaxLocks
        modifies stats
        invariant forall j :: 0 <= j < i ==>
                    stats[j] == old(stats[j]).(enabled := false, acquireCount := 0, contentionCount := 0,
                                               totalHoldTime := 0, totalWaitTime := 0)
        invariant forall j :: i <= j < MaxLocks ==> stats[j] == old(stats[j])
      {
        stats[i] := stats[i].(enabled := false);
        stats[i] := stats[i].(acquireCount := 0);
        stats[i] := stats[i].(contentionCount := 0);
        stats[i] := stats[i].(totalHoldTime := 0);
        stats[i] := stats[i].(totalWaitTime := 0);
      }
      trackingEnabled := true;
    }

    /** get_lock_index.  Only the record operations call it, after their
      tracking check, so tracking is on.  The source brackets the scan and the
      append with one acquisition of the guard lock; in a sequential model
      that acquisition is not observable in the table. */
    method GetLockIndex(lk: Spinlock) returns (idx: int)
      requires Valid() && trackingEnabled && Nul in lk.name
      modifies this`lockCount, stats
      ensures Valid()
      ensures Lookup(old(State()), lk == guard, lk.name) == LookupResult(idx, State())
    {
      if lk == guard {
        return -1;
      }
      ghost var s0 := State();
      var i := FindEntry(lk.name);
      if i >= 0 {
        LookupFinds(s0, lk.name, i);
        return i;
      }
      if lockCount < MaxLocks {
        LookupAppends(s0, lk.name);
        idx := Append(lk.name);
        return;
      }
      LookupFull(s0, lk.name);
      return -1;
    }

    /** The scan of get_lock_index over the entries in use: the first one
      whose name matches `key`, or -1 when none does. */
    method FindEntry(key: seq<char>) returns (i: int)
      requires Valid() && Bounded(key, MaxLockName)
      ensures -1 <= i < lockCount
      ensures i >= 0 ==> Matches(stats[i], key)
      ensures i >= 0 ==> forall j :: 0 <= j < i ==> !Matches(stats[j], key)
      ensures i == -1 ==> forall j :: 0 <= j < lockCount ==> !Matches(stats[j], key)
    {
      i := 0;
      while i < lockCount
        invariant i <= lockCount
        invariant forall j :: 0 <= j < i ==> !Matches(stats[j], key)
      {
        var c := StrCmp(stats[i].name, key, MaxLockName);
        if c == 0 {
          return i;
        }
        i := i + 1;
      }
      return -1;
    }

    /** The append of get_lock_index: lock_count grows by one and the slot
      it passed over is claimed for `key`. */
    method Append(key: seq<char>) returns (slot: nat)
      requires Valid() && trackingEnabled && Bounded(key, MaxLockName) && lockCount < MaxLocks
      modifies this`lockCount, stats
      ensures Valid() && slot == old(lockCount)
      ensures State() == Appended(old(State()), key)
    {
      slot := lockCount;
      lockCount := lockCount + 1;
      Claim(slot, key);
    }

    /** The name copy and the enabled flag get_lock_index writes into a new entry. */
    method Claim(slot: nat, key: seq<char>)
      requires slot < stats.Length && EntryOk(stats[slot]) && Bounded(key, MaxLockName)
      modifies stats
      ensures stats[..] == old(stats[..])[slot := Claimed(old(stats[slot]), key)]
    {
      var copied := StrNCopy(stats[slot].name, key, MaxLockName);
      stats[slot] := stats[slot].(name := copied);
      stats[slot] := stats[slot].(enabled := true);
    }

    /** lockstat_record_acquire; `now` is the clock reading stored as the
      entry's last acquire time. */
    method RecordAcquire(lk: Spinlock, waitTime: nat, now: nat)
      requires Valid() && Nul in lk.name
      modifies this`lockCount, stats
      ensures Valid()
      ensures State() == AfterAcquire(old(State()), lk == guard, lk.noTrack, lk.name, waitTime, now)
    {
      if !trackingEnabled || lk.noTrack {
        return;
      }
      ghost var s0 := State();
      var idx := GetLockIndex(lk);
      AfterLookup(s0, lk == guard, lk.noTrack, lk.name, waitTime, now, 0, LookupResult(idx, State()));
      if idx < 0 {
        return;
      }
      CountAcquire(idx, waitTime, now);
    }

    /** The counter updates of lockstat_record_acquire on entry idx. */
    method CountAcquire(idx: nat, waitTime: nat, now: nat)
      requires idx < stats.Length
      modifies stats
      ensures stats[..] == old(stats[..])[idx := RecordedAcquire(old(stats[idx]), waitTime, now)]
    {
      stats[idx] := stats[idx].(acquireCount := stats[idx].acquireCount + 1);
      if waitTime > 0 {
        stats[idx] := stats[idx].(contentionCount := stats[idx].contentionCount + 1);
        stats[idx] := stats[idx].(totalWaitTime := stats[idx].totalWaitTime + waitTime);
        if waitTime > stats[idx].maxWaitTime {
          stats[idx] := stats[idx].(maxWaitTime := waitTime);
        }
      }
      stats[idx] := stats[idx].(lastAcquireTime := now);
    }

    /** lockstat_record_release. */
    method RecordRelease(lk: Spinlock, holdTime: nat)
      requires Valid() && Nul in lk.name
      modifies this`lockCount, stats
      ensures Valid()
      ensures State() == AfterRelease(old(State()), lk == guard, lk.noTrack, lk.name, holdTime)
    {
      if !trackingEnabled || lk.noTrack {
        return;
      }
      ghost var s0 := State();
      var idx := GetLockIndex(lk);
      AfterLookup(s0, lk == guard, lk.noTrack, lk.name, 0, 0, holdTime, LookupResult(idx, State()));
      if idx < 0 {
        return;
      }
      CountRelease(idx, holdTime);
    }

    /** The counter updates of lockstat_record_release on entry idx. */
    method CountRelease(idx: nat, holdTime: nat)
      requires idx < stats.Length
      modifies stats
      ensures stats[..] == old(stats[..])[idx := RecordedRelease(old(stats[idx]), holdTime)]
    {
      stats[idx] := stats[idx].(totalHoldTime := stats[idx].totalHoldTime + holdTime);
      if holdTime > stats[idx].maxHoldTime {
        stats[idx] := stats[idx].(maxHoldTime := holdTime);
      }
    }

    /** lockstat_copy_to_user.  `dest` is the user buffer seen as entry slots
      and copyOk[j] says whether copyout of slot j succeeds. */
    method CopyToUser(maxLocks: int, dest: seq<LockStat>, copyOk: seq<bool>) returns (r: int, out: seq<LockStat>)
      requires Valid() && |copyOk| == |dest|
      ensures |out| == |dest|
      ensures ExportCount(lockCount, maxLocks) <= 0 ==> r == ExportCount(lockCount, maxLocks) && out == dest
      ensures ExportCount(lockCount, maxLocks) > 0 ==>
                var count := ExportCount(lockCount, maxLocks);
                var f := FirstCopyFailure(copyOk, count, 0);
                && r == (if f < count then -1 else count)
                && forall j :: 0 <= j < |out| ==> out[j] == if j < f then stats[j] else dest[j]
    {
      var count := if lockCount < maxLocks then lockCount else maxLocks;
      out := dest;
      var i := 0;
      while i < count
        invariant 0 <= i <= lockCount && (count > 0 ==> i <= count) && (count <= 0 ==> i == 0)
        invariant |out| == |dest| && i <= |dest|
        invariant forall j :: 0 <= j < |out| ==> out[j] == if j < i then stats[j] else dest[j]
        invariant count > 0 ==> FirstCopyFailure(copyOk, count, 0) == FirstCopyFailure(copyOk, count, i)
      {
        if !CopyOk(copyOk, i) {
          return -1, out;
        }
        out := out[i := stats[i]];
        i := i + 1;
      }
      return count, out;
    }
  }
}
