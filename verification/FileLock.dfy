/** The nested file lock: a counter and a file descriptor shared by all threads
    that use one lock object, over an exclusive lock of the operating system.
    Every critical section is one step; threads are interleaved arbitrarily. */
module FileLock {
  import opened Wrappers

  /** Who holds the lock of the operating system on the file. */
  datatype Holder = Free | Us | Others

  /** _lock_counter, _lock_file_fd and the holder of the file. */
  datatype Shared = Shared(counter: int, fd: Option<nat>, holder: Holder)

  predicate IsLocked(s: Shared) { s.fd.Some? }

  // ----- the critical sections

  function Enter(s: Shared): Shared { s.(counter := s.counter + 1) }

  /** One attempt; `newFd` is the descriptor os.open returns, None if it raises. */
  function Attempt(s: Shared, newFd: Option<nat>): Shared {
    if IsLocked(s) || newFd.None? || s.holder != Free then s
    else s.(fd := newFd, holder := Us)
  }

  /** The handler of a timeout or a failed attempt. */
  function Abandon(s: Shared): Shared {
    s.(counter := if s.counter - 1 > 0 then s.counter - 1 else 0)
  }

  function Release(s: Shared, force: bool): Shared {
    if !IsLocked(s) then s
    else if s.counter - 1 == 0 || force then Shared(0, None, Free)
    else s.(counter := s.counter - 1)
  }

  /** The exclusive lock of the operating system. */
  class OsLock {
    var holder: Holder

    constructor ()
      ensures holder == Free
    {
      holder := Free;
    }

    /** flock with LOCK_EX and LOCK_NB. */
    method TryLock() returns (ok: bool)
      modifies this
      ensures ok == (old(holder) == Free) && holder == if ok then Us else old(holder)
    {
      ok := holder == Free;
      if ok { holder := Us; }
    }

    method Unlock()
      modifies this
      ensures holder == Free
    {
      holder := Free;
    }
  }

  class UnixFileLock {
    const os: OsLock
    var counter: int
    var fd: Option<nat>

    ghost function State(): Shared
      reads this, os
    {
      Shared(counter, fd, os.holder)
    }

    constructor (os: OsLock)
      requires os.holder == Free
      ensures this.os == os && State() == Shared(0, None, Free)
    {
      this.os := os;
      counter, fd := 0, None;
    }

    /** The first critical section of acquire. */
    method CountUp()
      modifies this
      ensures State() == Enter(old(State()))
    {
      counter := counter + 1;
    }

    /** The critical section of the polling loop, with UnixFileLock._acquire. */
    method TryAcquire(newFd: Option<nat>) returns (raised: bool)
      modifies this, os
      ensures State() == Attempt(old(State()), newFd)
      ensures raised == (old(fd).None? && newFd.None?)
    {
      raised := false;
      if fd.None? {
        if newFd.None? { return true; }
        var ok := os.TryLock();
        if ok { fd := newFd; }
      }
    }

    /** The critical section of the exception handler. */
    method CountDown()
      modifies this
      ensures State() == Abandon(old(State()))
    {
      counter := if 0 > counter - 1 then 0 else counter - 1;
    }

    /** release, with UnixFileLock._release. */
    method ReleaseLock(force: bool)
      modifies this, os
      ensures State() == Release(old(State()), force)
    {
      if fd.Some? {
        counter := counter - 1;
        if counter == 0 || force {
          fd := None;
          os.Unlock();
          counter := 0;
        }
      }
    }
  }

  // ----- interleavings

  /** Where a call of acquire is: polling, just after an attempt, on its way to
      the exception handler, or returned and not yet released. */
  datatype Phase = Polling | Attempted | Leaving | Holding

  /** The lock object and the calls in progress; a nested acquire of a thread is
      a call of its own. */
  datatype System = System(lock: Shared, calls: map<nat, Phase>)

  datatype Step =
    | Start(id: nat)
    | Poll(id: nat, newFd: Option<nat>)
    | Check(id: nat, timeout: bool)
    | GiveUp(id: nat)
    | LetGo(id: nat)
    | OthersTake
    | OthersDrop

  /** The steps that can be taken and what they do. */
  function Apply(s: System, step: Step): Option<System> {
    match step
    case Start(id) =>
      if id in s.calls then None else Some(System(Enter(s.lock), s.calls[id := Polling]))
    case Poll(id, newFd) =>
      if !(id in s.calls && s.calls[id] == Polling) then None
      else
        var raised := !IsLocked(s.lock) && newFd.None?;
        Some(System(Attempt(s.lock, newFd), s.calls[id := if raised then Leaving else Attempted]))
    case Check(id, timeout) =>
      if !(id in s.calls && s.calls[id] == Attempted) then None
      else
        Some(s.(calls := s.calls[id := if IsLocked(s.lock) then Holding else if timeout then Leaving else Polling]))
    case GiveUp(id) =>
      if !(id in s.calls && s.calls[id] == Leaving) then None
      else Some(System(Abandon(s.lock), s.calls - {id}))
    case LetGo(id) =>
      if !(id in s.calls && s.calls[id] == Holding) then None
      else Some(System(Release(s.lock, false), s.calls - {id}))
    case OthersTake => if s.lock.holder != Free then None else Some(s.(lock := s.lock.(holder := Others)))
    case OthersDrop => if s.lock.holder != Others then None else Some(s.(lock := s.lock.(holder := Free)))
  }

  const INITIAL: System := System(Shared(0, None, Free), map[])

  /** Every call in progress is counted, the file is ours exactly while the
      object says it is locked, and whoever holds the lock sees it locked. */
  ghost predicate Invariant(s: System) {
    && s.lock.counter == |s.calls|
    && (IsLocked(s.lock) <==> s.lock.holder == Us)
    && forall id :: id in s.calls && s.calls[id] == Holding ==> IsLocked(s.lock)
  }

  lemma RemoveOne(calls: map<nat, Phase>, id: nat)
    requires id in calls
    ensures |calls - {id}| == |calls| - 1
    ensures |calls - {id}| == 0 ==> forall j :: j in calls ==> j == id
  {
    var rest := calls - {id};
    assert calls.Keys == rest.Keys + {id};
    assert |calls.Keys| == |rest.Keys| + 1;
    if |rest| == 0 {
      assert rest.Keys == {};
      forall j | j in calls ensures j == id { assert j != id ==> j in rest.Keys; }
    }
  }

  lemma PutOne(calls: map<nat, Phase>, id: nat, p: Phase)
    ensures |calls[id := p]| == |calls| + if id in calls then 0 else 1
  {
    assert calls[id := p].Keys == calls.Keys + {id};
    if id in calls { assert calls.Keys + {id} == calls.Keys; }
  }

  lemma StepKeeps(s: System, step: Step)
    requires Invariant(s) && Apply(s, step).Some?
    ensures Invariant(Apply(s, step).value)
  {
    if step.GiveUp? || step.LetGo? {
      RemoveOne(s.calls, step.id);
    } else if step.Start? || step.Poll? || step.Check? {
      PutOne(s.calls, step.id, Apply(s, step).value.calls[step.id]);
    }
  }

  /** The states of a run, from the initial one, with the steps between them. */
  ghost predicate Run(states: seq<System>, steps: seq<Step>) {
    && |states| == |steps| + 1 && states[0] == INITIAL
    && forall i :: 0 <= i < |steps| ==> Apply(states[i], steps[i]) == Some(states[i + 1])
  }

  /** In every interleaving the counter is the number of calls waiting or
      holding, and a thread that has acquired and not released sees the lock
      held. */
  lemma {:induction false} RunKeeps(states: seq<System>, steps: seq<Step>, k: nat)
    requires Run(states, steps) && k < |states|
    ensures Invariant(states[k])
    ensures forall id :: id in states[k].calls && states[k].calls[id] == Holding ==> IsLocked(states[k].lock)
    ensures states[k].lock.counter == |states[k].calls|
  {
    if k > 0 {
      RunKeeps(states, steps, k - 1);
      assert Apply(states[k - 1], steps[k - 1]) == Some(states[k]);
      StepKeeps(states[k - 1], steps[k - 1]);
    }
  }

  /** The step that strands the lock: the last call in progress gives up while
      the object holds the file. */
  predicate Strands(s: System, step: Step) {
    step.GiveUp? && IsLocked(s.lock) && |s.calls| == 1
  }

  /** The lock was stranded and nobody has started to acquire it since. */
  ghost predicate Stranded(states: seq<System>, steps: seq<Step>, k: nat)
    requires k <= |steps| < |states|
  {
    exists i :: 0 <= i < k && Strands(states[i], steps[i]) && forall j :: i < j < k ==> !steps[j].Start?
  }

  lemma StrandedStep(states: seq<System>, steps: seq<Step>, k: nat)
    requires k < |steps| < |states|
    ensures Stranded(states, steps, k + 1) <==>
      Strands(states[k], steps[k]) || (Stranded(states, steps, k) && !steps[k].Start?)
  {
    if Stranded(states, steps, k) && !steps[k].Start? {
      var i :| 0 <= i < k && Strands(states[i], steps[i]) && forall j :: i < j < k ==> !steps[j].Start?;
      assert forall j :: i < j < k + 1 ==> !steps[j].Start?;
    }
  }

  ghost predicate QuietlyLocked(s: System) { s.calls == map[] && IsLocked(s.lock) }

  /** A call that ends leaves nobody exactly when it was the only one. */
  lemma LastCall(calls: map<nat, Phase>, id: nat)
    requires id in calls
    ensures calls - {id} == map[] <==> |calls| == 1
  {
    RemoveOne(calls, id);
    assert calls - {id} == map[] <==> |calls - {id}| == 0;
  }

  lemma EndQuiet(s: System, step: Step)
    requires Invariant(s) && Apply(s, step).Some? && (step.GiveUp? || step.LetGo?)
    ensures s.calls != map[] && (QuietlyLocked(Apply(s, step).value) <==> Strands(s, step))
  {
    assert step.id in s.calls;
    LastCall(s.calls, step.id);
  }

  lemma StepQuiet(s: System, step: Step)
    requires Invariant(s) && Apply(s, step).Some?
    ensures QuietlyLocked(Apply(s, step).value) <==> Strands(s, step) || (QuietlyLocked(s) && !step.Start?)
  {
    if step.GiveUp? || step.LetGo? {
      EndQuiet(s, step);
    } else if step.Start? || step.Poll? || step.Check? {
      assert step.id in Apply(s, step).value.calls;
      assert step.Poll? || step.Check? ==> step.id in s.calls;
    }
  }

  /** When no call is in progress the file lock is free, except exactly when it
      was stranded by a call that gave up while the object held the file. */
  lemma {:induction false} QuietMeansFree(states: seq<System>, steps: seq<Step>, k: nat)
    requires Run(states, steps) && k <= |steps|
    ensures Invariant(states[k])
    ensures QuietlyLocked(states[k]) <==> Stranded(states, steps, k)
  {
    RunKeeps(states, steps, k);
    if k > 0 {
      QuietMeansFree(states, steps, k - 1);
      StrandedStep(states, steps, k - 1);
      assert Apply(states[k - 1], steps[k - 1]) == Some(states[k]);
      StepQuiet(states[k - 1], steps[k - 1]);
    }
  }

  /** Without timeouts and failed attempts, once every call has been released the
      file lock is free. */
  lemma NoGiveUpNoLeak(states: seq<System>, steps: seq<Step>)
    requires Run(states, steps) && forall i :: 0 <= i < |steps| ==> !steps[i].GiveUp?
    requires states[|steps|].calls == map[]
    ensures !IsLocked(states[|steps|].lock) && states[|steps|].lock.holder != Us
  {
    QuietMeansFree(states, steps, |steps|);
  }

  // ----- what happens to one call

  predicate OfCall(step: Step, id: nat) { !step.OthersTake? && !step.OthersDrop? && step.id == id }

  /** What the call can do next depends on where it is, and it can always do it. */
  lemma Turns(s: System, step: Step, id: nat)
    requires id in s.calls && OfCall(step, id)
    ensures Apply(s, step).Some? <==> match s.calls[id]
      case Polling => step.Poll?
      case Attempted => step.Check?
      case Leaving => step.GiveUp?
      case Holding => step.LetGo?
  {}

  /** How a call came to where it is. After an attempt the lock is looked at before the
      timeout: a call whose attempt leaves the object locked returns, and one leaves
      with an error only if the object is not locked. */
  predicate Cause(s: System, step: Step, id: nat, phase: Phase) {
    match phase
    case Polling => step == Start(id) || (step == Check(id, false) && !IsLocked(s.lock))
    case Attempted => step.Poll? && step.id == id && (IsLocked(s.lock) || step.newFd.Some?)
    case Leaving => !IsLocked(s.lock) && (step == Check(id, true) || step == Poll(id, None))
    case Holding => step.Check? && step.id == id && IsLocked(s.lock)
  }

  lemma OneStep(s: System, step: Step, id: nat)
    requires Apply(s, step).Some? && id in Apply(s, step).value.calls
    ensures var phase := Apply(s, step).value.calls[id];
      if OfCall(step, id) then Cause(s, step, id, phase) else id in s.calls && s.calls[id] == phase
  {}

  /** In a run every call in progress was brought where it is by its own last step. */
  lemma {:induction false} Caused(states: seq<System>, steps: seq<Step>, k: nat, id: nat) returns (j: nat)
    requires Run(states, steps) && k < |states| && id in states[k].calls
    ensures j < k && Cause(states[j], steps[j], id, states[k].calls[id])
    ensures forall m :: j < m < k ==> !OfCall(steps[m], id)
  {
    assert k > 0;
    assert Apply(states[k - 1], steps[k - 1]) == Some(states[k]);
    OneStep(states[k - 1], steps[k - 1], id);
    if OfCall(steps[k - 1], id) { j := k - 1; } else { j := Caused(states, steps, k - 1, id); }
  }

  /** A call whose attempt finds the object locked returns, whatever the timeout, and
      the object stays locked until the call releases it. */
  lemma {:induction false} Returns(states: seq<System>, steps: seq<Step>, j: nat, k: nat, id: nat)
    requires Run(states, steps) && j < k < |states|
    requires steps[j].Check? && steps[j].id == id && IsLocked(states[j].lock)
    requires forall m :: j < m < k ==> steps[m] != LetGo(id)
    ensures id in states[k].calls && states[k].calls[id] == Holding && IsLocked(states[k].lock)
    decreases k
  {
    assert Apply(states[k - 1], steps[k - 1]) == Some(states[k]);
    if j < k - 1 {
      Returns(states, steps, j, k - 1, id);
      if OfCall(steps[k - 1], id) { Turns(states[k - 1], steps[k - 1], id); }
    }
    RunKeeps(states, steps, k);
  }

  /** An attempt gets the file exactly when it could be opened and nobody holds it, and
      it leaves a lock alone that the object has already. */
  lemma PollGets(s: System, id: nat, newFd: Option<nat>)
    requires Invariant(s) && Apply(s, Poll(id, newFd)).Some?
    ensures var t := Apply(s, Poll(id, newFd)).value;
      && (IsLocked(t.lock) <==> IsLocked(s.lock) || (newFd.Some? && s.lock.holder == Free))
      && (IsLocked(s.lock) || s.lock.holder != Free ==> t.lock == s.lock)
      && t.lock.counter == s.lock.counter
  {}

  /** Nothing but the others' own release takes the file from them. */
  lemma OthersKept(s: System, step: Step)
    requires Invariant(s) && Apply(s, step).Some? && s.lock.holder == Others && !step.OthersDrop?
    ensures Apply(s, step).value.lock.holder == Others
  {}

  /** Released by its only call, or by force, the file is free and nobody is counted;
      otherwise one call less is counted. */
  lemma ReleaseExact(s: Shared, force: bool)
    requires IsLocked(s)
    ensures !IsLocked(Release(s, force)) <==> force || s.counter == 1
    ensures !IsLocked(Release(s, force)) ==> Release(s, force).holder == Free && Release(s, force).counter == 0
    ensures IsLocked(Release(s, force)) ==>
      Release(s, force).counter == s.counter - 1 && Release(s, force).holder == s.holder && Release(s, force).fd == s.fd
  {}

  function StrandingSteps(): seq<Step> {
    [Start(1), Poll(1, None), Start(2), Poll(2, Some(8)), Check(2, false), LetGo(2), GiveUp(1)]
  }

  function StrandingStates(): seq<System> {
    [INITIAL,
     System(Shared(1, None, Free), map[1 := Polling]),
     System(Shared(1, None, Free), map[1 := Leaving]),
     System(Shared(2, None, Free), map[1 := Leaving, 2 := Polling]),
     System(Shared(2, Some(8), Us), map[1 := Leaving, 2 := Attempted]),
     System(Shared(2, Some(8), Us), map[1 := Leaving, 2 := Holding]),
     System(Shared(1, Some(8), Us), map[1 := Leaving]),
     System(Shared(0, Some(8), Us), map[])]
  }

  lemma OneCall(a: System, b: System, c: System)
    requires a == INITIAL
    requires b == System(Shared(1, None, Free), map[1 := Polling]) &&
      c == System(Shared(1, None, Free), map[1 := Leaving])
    ensures Apply(a, Start(1)) == Some(b) && Apply(b, Poll(1, None)) == Some(c)
  {
    assert b.calls[1 := Leaving] == c.calls;
  }

  lemma SecondCall(c: System, d: System, e: System, f: System)
    requires c == System(Shared(1, None, Free), map[1 := Leaving])
    requires d == System(Shared(2, None, Free), map[1 := Leaving, 2 := Polling])
    requires e == System(Shared(2, Some(8), Us), map[1 := Leaving, 2 := Attempted])
    requires f == System(Shared(2, Some(8), Us), map[1 := Leaving, 2 := Holding])
    ensures Apply(c, Start(2)) == Some(d) && Apply(d, Poll(2, Some(8))) == Some(e) &&
      Apply(e, Check(2, false)) == Some(f)
  {
    assert c.calls[2 := Polling] == d.calls;
    assert d.calls[2 := Attempted] == e.calls;
    assert e.calls[2 := Holding] == f.calls;
  }

  lemma BothLeave(f: System, g: System, h: System)
    requires f == System(Shared(2, Some(8), Us), map[1 := Leaving, 2 := Holding])
    requires g == System(Shared(1, Some(8), Us), map[1 := Leaving]) && h == System(Shared(0, Some(8), Us), map[])
    ensures Apply(f, LetGo(2)) == Some(g) && Apply(g, GiveUp(1)) == Some(h)
  {
    assert f.calls - {2} == g.calls;
    assert g.calls - {1} == h.calls;
  }

  /** A run that strands the lock: one thread's attempt fails, and before it
      counts itself out another acquires and releases. */
  lemma StrandingRun()
    ensures Run(StrandingStates(), StrandingSteps())
    ensures QuietlyLocked(StrandingStates()[|StrandingSteps()|])
  {
    var s := StrandingStates();
    OneCall(s[0], s[1], s[2]);
    SecondCall(s[2], s[3], s[4], s[5]);
    BothLeave(s[5], s[6], s[7]);
  }
}
