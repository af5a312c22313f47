/** acquire and release of kernel/spinlock.c, which tie the lock, the CPU's
    interrupt nesting and the statistics registry together.

    One call is one sequential step.  The spin itself is not modelled: the
    lock is free at the moment the winning test-and-set runs, `contended`
    says whether the first test-and-set found it taken, and the clock
    readings taken around the spin are parameters. */
module InstrumentedLock {
  import opened Records
  import opened Spinlock
  import opened LockStat

  /** acquire on CPU `c`.  `startTime` and `endTime` are the readings taken
      before and after the spin (`endTime` alone on the fast path), and
      `recordTime` the reading lockstat_record_acquire stores. */
  method Acquire(lk: Spinlock, c: Cpu, reg: Registry, contended: bool,
                 startTime: nat, endTime: nat, recordTime: nat)
    requires reg.Valid() && Nul in lk.name
    requires !lk.Holding(c)                  // panic("acquire")
    requires !lk.locked                      // the winning test-and-set finds it free
    requires contended ==> startTime <= endTime
    modifies lk, c, reg`lockCount, reg.stats
    ensures c.State() == PushedOff(old(c.State()))
    ensures c.noff == old(c.noff) + 1 && !c.intrOn
    ensures lk.locked && lk.cpu == c && lk.Holding(c) && lk.acquireTime == endTime
    ensures lk.name == old(lk.name) && lk.noTrack == old(lk.noTrack)
    ensures reg.Valid()
    ensures reg.State() == AfterAcquire(old(reg.State()), lk == reg.guard, lk.noTrack, lk.name,
                                        MeasuredWait(contended, startTime, endTime), recordTime)
  {
    c.PushOff();
    lk.locked := true;
    var waitTime := MeasuredWait(contended, startTime, endTime);
    lk.cpu := c;
    lk.acquireTime := endTime;
    reg.RecordAcquire(lk, waitTime, recordTime);
  }

  /** release on CPU `c`; `now` is the clock reading the hold time is
      measured against.  The statistics update is sequenced after the three
      stores that free the lock: it reads only the lock's name, its no_track
      flag and its identity, which those stores leave alone, so in this
      sequential model the order of the two parts is immaterial. */
  method Release(lk: Spinlock, c: Cpu, reg: Registry, now: nat)
    requires reg.Valid() && Nul in lk.name
    requires lk.Holding(c)                   // panic("release")
    requires lk.acquireTime <= now
    requires !c.intrOn && c.noff >= 1        // the two panics of pop_off
    modifies lk, c, reg`lockCount, reg.stats
    ensures c.State() == PoppedOff(old(c.State()))
    ensures !lk.locked && lk.cpu == null && !lk.Holding(c)
    ensures lk.acquireTime == old(lk.acquireTime)
    ensures lk.name == old(lk.name) && lk.noTrack == old(lk.noTrack)
    ensures reg.Valid()
    ensures reg.State() == AfterRelease(old(reg.State()), lk == reg.guard, lk.noTrack, lk.name,
                                        now - old(lk.acquireTime))
  {
    var holdTime := now - lk.acquireTime;
    lk.cpu := null;
    lk.locked := false;
    c.PopOff();
    reg.RecordRelease(lk, holdTime);
  }

  /** A critical section: acquire, then release on the same CPU.  The lock
      is free again, the CPU's nesting depth and interrupt state are what
      they were, and the registry has seen one acquire followed by one
      release whose hold time runs from the acquire's end time to `now`
      (SectionAfter); SectionCountsOnePair says what that does to the table. */
  method CriticalSection(lk: Spinlock, c: Cpu, reg: Registry, contended: bool,
                         startTime: nat, endTime: nat, recordTime: nat, now: nat)
    requires reg.Valid() && Nul in lk.name
    requires !lk.locked && NestingOk(c.State())
    requires contended ==> startTime <= endTime
    requires endTime <= now
    modifies lk, c, reg`lockCount, reg.stats
    ensures !lk.locked && lk.cpu == null && !lk.Holding(c)
    ensures lk.name == old(lk.name) && lk.noTrack == old(lk.noTrack) && lk.acquireTime == endTime
    ensures c.State() == PoppedOff(PushedOff(old(c.State())))
    ensures c.noff == old(c.noff) && c.intrOn == old(c.intrOn)
    ensures reg.Valid()
    ensures reg.State() == SectionAfter(old(reg.State()), lk == reg.guard, lk.noTrack, lk.name,
                                        MeasuredWait(contended, startTime, endTime), recordTime, now - endTime)
  {
    NestedSectionsRestore(c.State(), 1);
    Acquire(lk, c, reg, contended, startTime, endTime, recordTime);
    Release(lk, c, reg, now);
  }

  /** The registry after lockstat_record_acquire and then
      lockstat_record_release for the same lock. */
  function SectionAfter(s: RegistryState, isGuard: bool, noTrack: bool, key: seq<char>,
                        wait: nat, now: nat, hold: nat): (r: RegistryState)
    requires Wf(s) && Bounded(key, MaxLockName)
    ensures Wf(r) && r.tracking == s.tracking
  {
    AfterRelease(AfterAcquire(s, isGuard, noTrack, key, wait, now), isGuard, noTrack, key, hold)
  }

  /** One critical section of a lock that finds or creates an entry updates
      that entry twice, and the lookup of the release finds the entry the
      acquire used. */
  lemma SectionUpdatesEntry(s: RegistryState, key: seq<char>, wait: nat, now: nat, hold: nat)
    requires Wf(s) && s.tracking && Bounded(key, MaxLockName)
    requires Lookup(s, false, key).index >= 0
    ensures var l := Lookup(s, false, key);
            SectionAfter(s, false, false, key, wait, now, hold)
              == l.after.(stats := l.after.stats[l.index :=
                            RecordedRelease(RecordedAcquire(l.after.stats[l.index], wait, now), hold)])
  {
    var l := Lookup(s, false, key);
    var e := RecordedAcquire(l.after.stats[l.index], wait, now);
    var mid := l.after.(stats := l.after.stats[l.index := e]);
    AfterLookup(s, false, false, key, wait, now, 0, l);
    LookupAgain(s, key, e);
    AfterLookup(mid, false, false, key, 0, 0, hold, Lookup(mid, false, key));
    assert mid.stats[l.index := RecordedRelease(e, hold)] == l.after.stats[l.index := RecordedRelease(e, hold)];
  }

  /** The registry after one critical section.  A lock that is not tracked
      (tracking off, no_track set, or the registry's own guard) and a lock
      that gets no entry because the table is full leave the registry as it
      was.  Otherwise one acquisition, its contention and its hold time are
      counted in the lock's entry, the lock is registered at most once, and
      no other entry changes. */
  lemma SectionCountsOnePair(s: RegistryState, isGuard: bool, noTrack: bool, key: seq<char>,
                             wait: nat, now: nat, hold: nat)
    requires Wf(s) && Bounded(key, MaxLockName)
    ensures !s.tracking || noTrack || isGuard ==> SectionAfter(s, isGuard, noTrack, key, wait, now, hold) == s
    ensures s.tracking && !noTrack && !isGuard ==>
              var l := Lookup(s, false, key);
              var t := SectionAfter(s, isGuard, noTrack, key, wait, now, hold);
              && (l.index < 0 ==> t == s)
              && (l.index >= 0 ==>
                    && t.lockCount == l.after.lockCount
                    && t.stats[l.index].acquireCount == l.after.stats[l.index].acquireCount + 1
                    && t.stats[l.index].contentionCount
                         == l.after.stats[l.index].contentionCount + (if wait > 0 then 1 else 0)
                    && t.stats[l.index].totalHoldTime == l.after.stats[l.index].totalHoldTime + hold
                    && (forall j :: 0 <= j < MaxLocks && j != l.index ==> t.stats[j] == s.stats[j]))
  {
    if s.tracking && !noTrack && !isGuard {
      var l := Lookup(s, false, key);
      LookupSpec(s, false, key);
      if l.index >= 0 {
        SectionUpdatesEntry(s, key, wait, now, hold);
        var e := RecordedRelease(RecordedAcquire(l.after.stats[l.index], wait, now), hold);
        var t := l.after.(stats := l.after.stats[l.index := e]);
        forall j | 0 <= j < MaxLocks && j != l.index
          ensures t.stats[j] == s.stats[j]
        {
          if l.after != s {
            assert l.after == Appended(s, key);
          }
        }
      }
    }
  }
}
