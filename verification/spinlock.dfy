/** The lock and the per-CPU interrupt-nesting counter of kernel/spinlock.c
    (initlock, holding, push_off, pop_off) and the wait-time noise floor of
    acquire.  Acquire and release themselves also drive the statistics
    registry, so they live in module InstrumentedLock, after it.

    The hardware hooks become state and parameters: a CPU is a `Cpu` object
    (mycpu() is the object passed in), its interrupt-enable bit is the field
    `intrOn` (intr_get, intr_on, intr_off read and write it), and clock
    readings are parameters of the operations that take them. */
module Spinlock {
  import opened Records

  /** The part of a CPU that push_off and pop_off touch. */
  datatype CpuState = CpuState(noff: nat, intena: bool, intrOn: bool)

  /** Interrupts stay off while any push_off is outstanding. */
  predicate NestingOk(s: CpuState) {
    s.noff > 0 ==> !s.intrOn
  }

  /** The effect of push_off: remember the interrupt state on the outermost
      push, turn interrupts off, count one more level. */
  function PushedOff(s: CpuState): (t: CpuState) {
    CpuState(s.noff + 1, if s.noff == 0 then s.intrOn else s.intena, false)
  }

  /** The effect of pop_off, whose two panics are its preconditions. */
  function PoppedOff(s: CpuState): (t: CpuState)
    requires !s.intrOn && s.noff >= 1
  {
    CpuState(s.noff - 1, s.intena, s.noff - 1 == 0 && s.intena)
  }

  /** k nested push_off calls. */
  function PushedOffN(s: CpuState, k: nat): CpuState
    decreases k
  {
    if k == 0 then s else PushedOff(PushedOffN(s, k - 1))
  }

  /** k nested pop_off calls; only the last one can turn interrupts back on,
      so the precondition of every step follows from the one of the first. */
  function PoppedOffN(s: CpuState, k: nat): CpuState
    requires s.noff >= k && (k > 0 ==> !s.intrOn)
    decreases k
  {
    if k == 0 then s else PoppedOffN(PoppedOff(s), k - 1)
  }

  lemma NestingOkPreserved(s: CpuState)
    requires NestingOk(s)
    ensures NestingOk(PushedOff(s))
    ensures s.noff >= 1 && !s.intrOn ==> NestingOk(PoppedOff(s))
  {
  }

  lemma {:induction false} PushedOffNShape(s: CpuState, k: nat)
    requires k > 0
    ensures PushedOffN(s, k) == CpuState(s.noff + k, if s.noff == 0 then s.intrOn else s.intena, false)
    decreases k
  {
    if k > 1 {
      PushedOffNShape(s, k - 1);
    }
  }

  lemma {:induction false} PoppedOffNShape(t: CpuState, k: nat)
    requires t.noff >= k && (k > 0 ==> !t.intrOn)
    ensures PoppedOffN(t, k).noff == t.noff - k
    ensures PoppedOffN(t, k).intena == t.intena
    ensures PoppedOffN(t, k).intrOn == if k == 0 then t.intrOn else t.noff == k && t.intena
    decreases k
  {
    if k > 0 {
      PoppedOffNShape(PoppedOff(t), k - 1);
    }
  }

  /** k nested critical sections, closed in LIFO order, give back the nesting
      depth and the interrupt-enable state the CPU had before the first one. */
  lemma {:induction false} NestedSectionsRestore(s: CpuState, k: nat)
    requires NestingOk(s)
    ensures PushedOffN(s, k).noff >= k && (k > 0 ==> !PushedOffN(s, k).intrOn)
    ensures PoppedOffN(PushedOffN(s, k), k).noff == s.noff
    ensures PoppedOffN(PushedOffN(s, k), k).intrOn == s.intrOn
  {
    if k > 0 {
      PushedOffNShape(s, k);
      PoppedOffNShape(PushedOffN(s, k), k);
    }
  }

  /** A CPU: its push_off nesting depth, the interrupt state saved by the
      outermost push_off, and its interrupt-enable bit. */
  class Cpu {
    var noff: nat
    var intena: bool
    var intrOn: bool

    constructor (interruptsOn: bool)
      ensures noff == 0 && !intena && intrOn == interruptsOn
    {
      noff := 0;
      intena := false;
      intrOn := interruptsOn;
    }

    function State(): CpuState
      reads this
    {
      CpuState(noff, intena, intrOn)
    }

    method PushOff()
      modifies this
      ensures State() == PushedOff(old(State()))
      ensures old(NestingOk(State())) ==> NestingOk(State())
    {
      var old_ := intrOn;
      intrOn := false;
      if noff == 0 {
        intena := old_;
      }
      noff := noff + 1;
    }

    method PopOff()
      requires !intrOn     // panic("pop_off - interruptible")
      requires noff >= 1   // panic("pop_off")
      modifies this
      ensures State() == PoppedOff(old(State()))
      ensures old(NestingOk(State())) ==> NestingOk(State())
    {
      noff := noff - 1;
      if noff == 0 && intena {
        intrOn := true;
      }
    }
  }

  /** A spinlock.  `cpu` is null when the source stores 0.  `name` is the
      characters the name field refers to, up to and including its NUL. */
  class Spinlock {
    var locked: bool
    var acquireTime: nat
    var name: seq<char>
    var noTrack: bool
    var cpu: Cpu?

    /** A zero-filled, not yet initialised lock (a static declaration). */
    constructor ()
      ensures !locked && acquireTime == 0 && name == [Nul] && !noTrack && cpu == null
    {
      locked := false;
      acquireTime := 0;
      name := [Nul];
      noTrack := false;
      cpu := null;
    }

    /** holding: whether CPU `c` holds this lock.  Only a locked lock is
        held, it records the CPU that holds it, and HeldByOne shows that
        only one CPU holds it at a time. */
    predicate Holding(c: Cpu): (held: bool)
      reads this
      ensures held ==> locked && cpu != null
    {
      locked && cpu == c
    }

    /** initlock: the lock is free and held by no CPU; `noTrack` is left as it was. */
    method InitLock(lockName: seq<char>)
      requires Nul in lockName
      modifies this
      ensures name == lockName && !locked && cpu == null && acquireTime == 0
      ensures noTrack == old(noTrack)
      ensures forall c: Cpu :: !Holding(c)
    {
      name := lockName;
      locked := false;
      cpu := null;
      acquireTime := 0;
    }
  }

  /** A lock is held by at most one CPU. */
  lemma HeldByOne(lk: Spinlock, c: Cpu, d: Cpu)
    requires lk.Holding(c) && lk.Holding(d)
    ensures c == d
  {
  }

  /** The wait time acquire forwards to the registry.  `contended` is whether
      the first test-and-set found the lock taken; `start` and `end` are the
      clock readings around the spin.  Spins of one tick or less are noise. */
  function MeasuredWait(contended: bool, start: nat, end: nat): (w: nat)
    requires contended ==> start <= end
    ensures w > 0 <==> contended && end - start >= 2
    ensures w > 0 ==> w == end - start
  {
    if !contended then 0
    else if end - start <= 1 then 0
    else end - start
  }
}
