/** The queued connection pool: permits, the queue of idle connections and the
    acquisitions, releases and closes in progress, interleaved arbitrarily. */
module Pool {
  import opened Wrappers

  /** A pooled connection, told apart by a number never used twice. */
  type Fairy = nat

  /** What the constructor is given. Queue(maxsize) is unbounded for 0. */
  datatype Config = Config(maxSize: nat, maxOverflow: nat)

  function Limit(c: Config): nat { c.maxSize + c.maxOverflow }

  predicate QueueFull(c: Config, queue: seq<Fairy>) { c.maxSize > 0 && |queue| >= c.maxSize }

  // ----- the atomic sections

  /** _avail and the contents of _queue. */
  datatype Shared = Shared(avail: int, queue: seq<Fairy>)

  /** queue.get when there is something to get. */
  function Taken(s: Shared): Shared
    requires s.queue != []
  {
    s.(queue := s.queue[1..])
  }

  /** The first section of _create, which raises Overflow when no permit is left. */
  function Permitted(s: Shared): Shared { if s.avail <= 0 then s else s.(avail := s.avail - 1) }

  /** The section of close, and of _create when the connection fails. */
  function Returned(s: Shared): Shared { s.(avail := s.avail + 1) }

  /** queue.put_nowait, which raises Full when the queue is full. */
  function Queued(c: Config, s: Shared, f: Fairy): Shared {
    if QueueFull(c, s.queue) then s else s.(queue := s.queue + [f])
  }

  class QueuedPool {
    const config: Config
    var avail: int
    var queue: seq<Fairy>

    ghost function State(): Shared
      reads this
    {
      Shared(avail, queue)
    }

    constructor (config: Config)
      ensures this.config == config && State() == Shared(Limit(config), [])
    {
      this.config := config;
      avail, queue := config.maxSize + config.maxOverflow, [];
    }

    method GetNowait() returns (f: Option<Fairy>)
      modifies this
      ensures old(queue) == [] ==> f == None && State() == old(State())
      ensures old(queue) != [] ==> f == Some(old(queue)[0]) && State() == Taken(old(State()))
    {
      if queue == [] { return None; }
      f := Some(queue[0]);
      queue := queue[1..];
    }

    method TakePermit() returns (overflow: bool)
      modifies this
      ensures overflow == (old(avail) <= 0) && State() == Permitted(old(State()))
    {
      if avail <= 0 { return true; }
      avail := avail - 1;
      return false;
    }

    method GiveBack()
      modifies this
      ensures State() == Returned(old(State()))
    {
      avail := avail + 1;
    }

    method PutNowait(f: Fairy) returns (full: bool)
      modifies this
      ensures full == QueueFull(config, old(queue)) && State() == Queued(config, old(State()), f)
    {
      full := config.maxSize > 0 && |queue| >= config.maxSize;
      if !full { queue := queue + [f]; }
    }
  }

  // ----- interleavings

  /** What an acquisition is about to do: look into the queue, create a
      connection for the first or the last time, or wait on the queue; or it has
      taken a permit, has a connection it has not handed out yet, is about to
      count up for one it found expired, or is closing that one. */
  datatype Phase =
    | Look
    | CreateFirst
    | Wait
    | CreateLast
    | Constructing
    | Checking(fairy: Fairy)
    | Expiring(fairy: Fairy)
    | Closing

  /** `out` are the connections handed out, `retiring` the ones given up whose
      close has not counted up yet, `spent` the ones that somebody has put back or
      closed at least once, `next` the next fresh number. */
  datatype State = State(pool: Shared, calls: map<nat, Phase>, out: multiset<Fairy>, retiring: multiset<Fairy>,
                         spent: set<Fairy>, next: nat)

  datatype Step =
    | Start(id: nat)
    | Get(id: nat)
    | TimedOut(id: nat)
    | Permit(id: nat)
    | Built(id: nat)
    | BuildFailed(id: nat)
    | Expired(id: nat)
    | CountUpExpired(id: nat)
    | Again(id: nat)
    | CloseRaised(id: nat)
    | HandOut(id: nat)
    | PutBack(fairy: Fairy)
    | Close(fairy: Fairy)
    | CountUp(fairy: Fairy)
    | CloseAgain(fairy: Fairy)
    | PutBackAgain(fairy: Fairy)

  predicate At(s: State, id: nat, p: Phase) { id in s.calls && s.calls[id] == p }

  predicate Building(s: State, id: nat) { At(s, id, Constructing) }

  /** The acquisition has a connection whose permit is still taken. */
  predicate HasFairy(s: State, id: nat) { id in s.calls && (s.calls[id].Checking? || s.calls[id].Expiring?) }

  /** The steps that can be taken and what they do. Whoever was handed a connection
      puts it back or closes it once; CloseAgain and PutBackAgain are further calls
      for a connection of an earlier acquisition, wherever that connection is by
      now. The counter goes up before anything else in close can fail. */
  function Apply(c: Config, s: State, step: Step): Option<State> {
    match step
    case Start(id) => if id in s.calls then None else Some(s.(calls := s.calls[id := Look]))
    case Get(id) =>
      if !(At(s, id, Look) || At(s, id, Wait)) then None
      else if s.pool.queue != [] then
        Some(s.(pool := Taken(s.pool), calls := s.calls[id := Checking(s.pool.queue[0])]))
      else if At(s, id, Look) then Some(s.(calls := s.calls[id := CreateFirst]))
      else None
    case TimedOut(id) =>
      if At(s, id, Wait) && s.pool.queue == [] then Some(s.(calls := s.calls[id := CreateLast])) else None
    case Permit(id) =>
      if !(At(s, id, CreateFirst) || At(s, id, CreateLast)) then None
      else if s.pool.avail > 0 then Some(s.(pool := Permitted(s.pool), calls := s.calls[id := Constructing]))
      else if At(s, id, CreateFirst) then Some(s.(calls := s.calls[id := Wait]))
      else Some(s.(calls := s.calls - {id}))
    case Built(id) =>
      if Building(s, id) then Some(s.(calls := s.calls[id := Checking(s.next)], next := s.next + 1)) else None
    case BuildFailed(id) =>
      if Building(s, id) then Some(s.(pool := Returned(s.pool), calls := s.calls - {id})) else None
    case Expired(id) =>
      if id in s.calls && s.calls[id].Checking?
      then Some(s.(calls := s.calls[id := Expiring(s.calls[id].fairy)]))
      else None
    case CountUpExpired(id) =>
      if id in s.calls && s.calls[id].Expiring?
      then Some(s.(pool := Returned(s.pool), calls := s.calls[id := Closing]))
      else None
    case Again(id) => if At(s, id, Closing) then Some(s.(calls := s.calls[id := Look])) else None
    case CloseRaised(id) => if At(s, id, Closing) then Some(s.(calls := s.calls - {id})) else None
    case HandOut(id) =>
      if id in s.calls && s.calls[id].Checking?
      then Some(s.(out := s.out + multiset{s.calls[id].fairy}, calls := s.calls - {id}))
      else None
    case PutBack(f) => if f in s.out then Some(GivenBack(c, s.(out := s.out - multiset{f}), f)) else None
    case Close(f) =>
      if f in s.out
      then Some(s.(out := s.out - multiset{f}, retiring := s.retiring + multiset{f}, spent := s.spent + {f}))
      else None
    case CountUp(f) =>
      if f in s.retiring then Some(s.(pool := Returned(s.pool), retiring := s.retiring - multiset{f})) else None
    case CloseAgain(f) => if f in s.spent then Some(s.(pool := Returned(s.pool))) else None
    case PutBackAgain(f) => if f in s.spent then Some(GivenBack(c, s, f)) else None
  }

  /** release: into the queue, or to be closed when the queue is full. */
  function GivenBack(c: Config, s: State, f: Fairy): State {
    if QueueFull(c, s.pool.queue) then s.(retiring := s.retiring + multiset{f}, spent := s.spent + {f})
    else s.(pool := Queued(c, s.pool, f), spent := s.spent + {f})
  }

  function Initial(c: Config): State {
    State(Shared(Limit(c), []), map[], multiset{}, multiset{}, {}, 0)
  }

  /** The acquisitions that hold a permit without a connection, and the ones that
      hold a connection. */
  function Builders(s: State): set<nat> { set id | id in s.calls && s.calls[id] == Constructing }

  function Holders(s: State): set<nat> { set id | id in s.calls && (s.calls[id].Checking? || s.calls[id].Expiring?) }

  /** Permits not taken and permits in use. */
  function Accounted(s: State): int { s.pool.avail + InUse(s) }

  /** Connections idle, being built, in transit, handed out or being closed. */
  function InUse(s: State): nat {
    |s.pool.queue| + |Builders(s)| + |Holders(s)| + |s.out| + |s.retiring|
  }

  // ----- conservation

  /** What a change of one call's phase does to a set of calls. */
  lemma OneChange(a: set<nat>, b: set<nat>, id: nat)
    requires forall i: nat :: i != id ==> (i in a <==> i in b)
    ensures |b| - |a| == (if id in b then 1 else 0) - (if id in a then 1 else 0)
  {
    assert a - {id} == b - {id};
    assert id in a ==> a == (a - {id}) + {id};
    assert id in b ==> b == (b - {id}) + {id};
    assert id !in a ==> a == a - {id};
    assert id !in b ==> b == b - {id};
  }

  lemma PhaseChange(s: State, s': State, id: nat)
    requires forall i: nat ::
      i != id ==> (i in s.calls <==> i in s'.calls) && (i in s.calls ==> s.calls[i] == s'.calls[i])
    ensures |Builders(s')| - |Builders(s)| ==
      (if Building(s', id) then 1 else 0) - (if Building(s, id) then 1 else 0)
    ensures |Holders(s')| - |Holders(s)| ==
      (if HasFairy(s', id) then 1 else 0) - (if HasFairy(s, id) then 1 else 0)
  {
    OneChange(Builders(s), Builders(s'), id);
    OneChange(Holders(s), Holders(s'), id);
  }

  /** 1 for a close or release of a connection of an acquisition already over. */
  function Misuse(step: Step): nat { if step.CloseAgain? || step.PutBackAgain? then 1 else 0 }

  predicate OfCall(step: Step) {
    !step.PutBack? && !step.Close? && !step.CountUp? && !step.CloseAgain? && !step.PutBackAgain?
  }

  lemma OtherCalls(c: Config, s: State, step: Step, i: nat)
    requires Apply(c, s, step).Some? && (OfCall(step) ==> i != step.id)
    ensures var s' := Apply(c, s, step).value;
      (i in s.calls <==> i in s'.calls) && (i in s.calls ==> s.calls[i] == s'.calls[i])
  {}

  function Busy(s: State, id: nat): nat { if Building(s, id) || HasFairy(s, id) then 1 else 0 }

  lemma CountedPhases(c: Config, s: State, step: Step)
    requires Apply(c, s, step).Some?
    ensures var s' := Apply(c, s, step).value;
      |Builders(s')| + |Holders(s')| - |Builders(s)| - |Holders(s)| ==
      if OfCall(step) then Busy(s', step.id) - Busy(s, step.id) else 0
  {
    var s' := Apply(c, s, step).value;
    forall i: nat | OfCall(step) ==> i != step.id
      ensures (i in s.calls <==> i in s'.calls) && (i in s.calls ==> s.calls[i] == s'.calls[i])
    {
      OtherCalls(c, s, step, i);
    }
    if OfCall(step) { PhaseChange(s, s', step.id); } else { PhaseChange(s, s', 0); }
  }

  /** Permits free and connections that no call has. */
  function Stored(s: State): int { s.pool.avail + |s.pool.queue| + |s.out| + |s.retiring| }

  lemma BagMinus(m: multiset<Fairy>, f: Fairy)
    requires f in m
    ensures |m - multiset{f}| == |m| - 1
  {
    assert m == (m - multiset{f}) + multiset{f};
  }

  lemma StoresByHand(c: Config, s: State, step: Step)
    requires Apply(c, s, step).Some? && !OfCall(step)
    ensures Stored(Apply(c, s, step).value) - Stored(s) == Misuse(step)
  {
    if step.PutBack? || step.Close? { BagMinus(s.out, step.fairy); }
    if step.CountUp? { BagMinus(s.retiring, step.fairy); }
  }

  lemma CountedStores(c: Config, s: State, step: Step)
    requires Apply(c, s, step).Some?
    ensures var s' := Apply(c, s, step).value;
      Stored(s') - Stored(s) == Misuse(step) + if OfCall(step) then Busy(s, step.id) - Busy(s', step.id) else 0
  {
    if !OfCall(step) { StoresByHand(c, s, step); }
  }

  /** Every step keeps the number of permits accounted for, but a second close or
      release adds a permit that stands for nothing. */
  lemma StepConserves(c: Config, s: State, step: Step)
    requires Apply(c, s, step).Some?
    ensures Accounted(Apply(c, s, step).value) == Accounted(s) + Misuse(step)
  {
    CountedPhases(c, s, step);
    CountedStores(c, s, step);
  }

  // ----- no connection in two places

  /** The connections that no call has. */
  function Stowed(s: State): multiset<Fairy> { multiset(s.pool.queue) + s.out + s.retiring }

  /** f is idle, in transit to a caller, handed out, or being closed. */
  ghost predicate Live(s: State, f: Fairy) {
    f in Stowed(s) || exists id :: HasFairy(s, id) && s.calls[id].fairy == f
  }

  ghost predicate StowedApart(s: State) { forall f: Fairy :: Stowed(s)[f] <= 1 }

  ghost predicate CallsApart(s: State) {
    && (forall i {:trigger HasFairy(s, i)} :: HasFairy(s, i) ==> s.calls[i].fairy !in Stowed(s))
    && (forall i, j {:trigger HasFairy(s, i), HasFairy(s, j)} ::
          HasFairy(s, i) && HasFairy(s, j) && i != j ==> s.calls[i].fairy != s.calls[j].fairy)
  }

  ghost predicate Numbered(s: State) { forall f: nat {:trigger Live(s, f)} :: Live(s, f) ==> f < s.next }

  /** No connection is in two places, and none has a number still to be given. */
  ghost predicate Exclusive(s: State) { StowedApart(s) && CallsApart(s) && Numbered(s) }

  /** What a step does to a connection that no call has, or that a call is about to
      give away or to take. */
  function Moved(s: State, step: Step, f: Fairy): int {
    match step
    case HandOut(id) => if HasFairy(s, id) && s.calls[id].fairy == f then 1 else 0
    case Get(_) => if s.pool.queue != [] && s.pool.queue[0] == f then -1 else 0
    case CountUp(g) => if g == f then -1 else 0
    case _ => 0
  }

  /** How often f is where no call has it. */
  function Count(q: seq<Fairy>, out: multiset<Fairy>, retiring: multiset<Fairy>, f: Fairy): nat {
    multiset(q)[f] + out[f] + retiring[f]
  }

  lemma CountStowed(s: State, f: Fairy)
    ensures Stowed(s)[f] == Count(s.pool.queue, s.out, s.retiring, f)
  {}

  lemma QueueChange(q: seq<Fairy>, f: Fairy, g: Fairy)
    ensures multiset(q + [g])[f] == multiset(q)[f] + if f == g then 1 else 0
    ensures q != [] ==> multiset(q)[f] == multiset(q[1..])[f] + if f == q[0] then 1 else 0
  {
    assert multiset(q + [g]) == multiset(q) + multiset{g};
    if q != [] {
      assert q == [q[0]] + q[1..];
      assert multiset(q) == multiset{q[0]} + multiset(q[1..]);
    }
  }

  lemma StowedChange(c: Config, s: State, step: Step, f: Fairy)
    requires Apply(c, s, step).Some? && !step.PutBackAgain?
    ensures Stowed(Apply(c, s, step).value)[f] == Stowed(s)[f] + Moved(s, step, f)
  {
    var s' := Apply(c, s, step).value;
    CountStowed(s, f);
    CountStowed(s', f);
    QueueChange(s.pool.queue, f, if step.PutBack? || step.Close? then step.fairy else f);
    CountChange(c, s, step, f);
  }

  lemma CountChange(c: Config, s: State, step: Step, f: Fairy)
    requires Apply(c, s, step).Some? && !step.PutBackAgain?
    requires s.pool.queue != [] ==>
      multiset(s.pool.queue)[f] == multiset(s.pool.queue[1..])[f] + if f == s.pool.queue[0] then 1 else 0
    requires (step.PutBack? || step.Close?) ==>
      multiset(s.pool.queue + [step.fairy])[f] == multiset(s.pool.queue)[f] + if f == step.fairy then 1 else 0
    ensures var s' := Apply(c, s, step).value;
      Count(s'.pool.queue, s'.out, s'.retiring, f) == Count(s.pool.queue, s.out, s.retiring, f) + Moved(s, step, f)
  {
    if step.PutBack? || step.Close? { GivenUpCount(c, s, step, f); } else { OtherCount(c, s, step, f); }
  }

  lemma GivenUpCount(c: Config, s: State, step: Step, f: Fairy)
    requires (step.PutBack? || step.Close?) && Apply(c, s, step).Some?
    requires multiset(s.pool.queue + [step.fairy])[f] == multiset(s.pool.queue)[f] + if f == step.fairy then 1 else 0
    ensures var s' := Apply(c, s, step).value;
      Count(s'.pool.queue, s'.out, s'.retiring, f) == Count(s.pool.queue, s.out, s.retiring, f)
  {}

  lemma OtherCount(c: Config, s: State, step: Step, f: Fairy)
    requires !step.PutBack? && !step.Close? && !step.PutBackAgain? && Apply(c, s, step).Some?
    requires s.pool.queue != [] ==>
      multiset(s.pool.queue)[f] == multiset(s.pool.queue[1..])[f] + if f == s.pool.queue[0] then 1 else 0
    ensures var s' := Apply(c, s, step).value;
      Count(s'.pool.queue, s'.out, s'.retiring, f) == Count(s.pool.queue, s.out, s.retiring, f) + Moved(s, step, f)
  {
    if step.Get? { GetCount(c, s, step, f); } else if step.CountUp? || step.HandOut? { MoveCount(c, s, step, f); }
  }

  lemma GetCount(c: Config, s: State, step: Step, f: Fairy)
    requires step.Get? && Apply(c, s, step).Some?
    requires s.pool.queue != [] ==>
      multiset(s.pool.queue)[f] == multiset(s.pool.queue[1..])[f] + if f == s.pool.queue[0] then 1 else 0
    ensures var s' := Apply(c, s, step).value;
      Count(s'.pool.queue, s'.out, s'.retiring, f) == Count(s.pool.queue, s.out, s.retiring, f) + Moved(s, step, f)
  {}

  lemma MoveCount(c: Config, s: State, step: Step, f: Fairy)
    requires (step.CountUp? || step.HandOut?) && Apply(c, s, step).Some?
    ensures var s' := Apply(c, s, step).value;
      Count(s'.pool.queue, s'.out, s'.retiring, f) == Count(s.pool.queue, s.out, s.retiring, f) + Moved(s, step, f)
  {}

  lemma StepStowedApart(c: Config, s: State, step: Step)
    requires Apply(c, s, step).Some? && !step.PutBackAgain? && StowedApart(s) && CallsApart(s)
    ensures StowedApart(Apply(c, s, step).value)
  {
    var s' := Apply(c, s, step).value;
    forall f: Fairy ensures Stowed(s')[f] <= 1 {
      StowedChange(c, s, step, f);
      if step.HandOut? { assert HasFairy(s, step.id); }
    }
  }

  /** A connection that a call has after the step: it had it before, or it has just
      been taken from the queue or built. */
  lemma HeldBefore(c: Config, s: State, step: Step, i: nat)
    requires Apply(c, s, step).Some? && HasFairy(Apply(c, s, step).value, i)
    ensures var f := Apply(c, s, step).value.calls[i].fairy;
      || (HasFairy(s, i) && s.calls[i].fairy == f && !(step.HandOut? && step.id == i))
      || (step.Get? && step.id == i && s.pool.queue != [] && f == s.pool.queue[0])
      || (step.Built? && step.id == i && f == s.next)
  {}

  /** A connection that a call has after the step is not stowed. */
  lemma StepNotStowed(c: Config, s: State, step: Step, i: nat)
    requires Apply(c, s, step).Some? && !step.PutBackAgain? && Exclusive(s) && HasFairy(Apply(c, s, step).value, i)
    ensures var s' := Apply(c, s, step).value; s'.calls[i].fairy !in Stowed(s')
  {
    var s' := Apply(c, s, step).value;
    var f := s'.calls[i].fairy;
    StowedChange(c, s, step, f);
    HeldBefore(c, s, step, i);
    if HasFairy(s, i) && s.calls[i].fairy == f {
      assert f !in Stowed(s);
      if step.HandOut? { assert HasFairy(s, step.id) && s.calls[step.id].fairy != f; }
    } else if step.Get? {
      assert Stowed(s)[f] == 1;
    } else {
      assert !Live(s, f);
    }
  }

  /** Two calls have different connections after the step. */
  lemma StepDistinct(c: Config, s: State, step: Step, i: nat, j: nat)
    requires Apply(c, s, step).Some? && Exclusive(s) && i != j
    requires HasFairy(Apply(c, s, step).value, i) && HasFairy(Apply(c, s, step).value, j)
    requires HasFairy(s, j) && s.calls[j].fairy == Apply(c, s, step).value.calls[j].fairy
    ensures var s' := Apply(c, s, step).value; s'.calls[i].fairy != s'.calls[j].fairy
  {
    HeldBefore(c, s, step, i);
    var f := s.calls[j].fairy;
    assert f !in Stowed(s) && Live(s, f);
    if step.Get? && s.pool.queue != [] { assert s.pool.queue[0] in Stowed(s); }
  }

  lemma StepCallsApart(c: Config, s: State, step: Step)
    requires Apply(c, s, step).Some? && !step.PutBackAgain? && Exclusive(s)
    ensures CallsApart(Apply(c, s, step).value)
  {
    var s' := Apply(c, s, step).value;
    forall i | HasFairy(s', i) ensures s'.calls[i].fairy !in Stowed(s') { StepNotStowed(c, s, step, i); }
    forall i, j | HasFairy(s', i) && HasFairy(s', j) && i != j ensures s'.calls[i].fairy != s'.calls[j].fairy {
      HeldBefore(c, s, step, i);
      HeldBefore(c, s, step, j);
      if HasFairy(s, j) && s.calls[j].fairy == s'.calls[j].fairy {
        StepDistinct(c, s, step, i, j);
      } else {
        StepDistinct(c, s, step, j, i);
      }
    }
  }

  /** Nothing becomes live but a freshly built connection. */
  lemma StowedLive(c: Config, s: State, step: Step, f: Fairy)
    requires Apply(c, s, step).Some? && !step.PutBackAgain? && f in Stowed(Apply(c, s, step).value)
    ensures Live(s, f)
  {
    StowedChange(c, s, step, f);
    if f !in Stowed(s) { assert step.HandOut? && HasFairy(s, step.id) && f == s.calls[step.id].fairy; }
  }

  lemma HeldLive(c: Config, s: State, step: Step, i: nat)
    requires Apply(c, s, step).Some? && HasFairy(Apply(c, s, step).value, i)
    ensures var f := Apply(c, s, step).value.calls[i].fairy; (step.Built? && f == s.next) || Live(s, f)
  {
    HeldBefore(c, s, step, i);
    if step.Get? && s.pool.queue != [] { assert s.pool.queue[0] in Stowed(s); }
  }

  lemma StepNumbered(c: Config, s: State, step: Step)
    requires Apply(c, s, step).Some? && !step.PutBackAgain? && Numbered(s)
    ensures Numbered(Apply(c, s, step).value)
  {
    var s' := Apply(c, s, step).value;
    assert s'.next == if step.Built? then s.next + 1 else s.next;
    forall f: nat | Live(s', f) ensures f < s'.next {
      if f in Stowed(s') {
        StowedLive(c, s, step, f);
      } else {
        var i :| HasFairy(s', i) && s'.calls[i].fairy == f;
        HeldLive(c, s, step, i);
      }
    }
  }

  /** Every step but a second release keeps each connection in one place. */
  lemma StepExclusive(c: Config, s: State, step: Step)
    requires Apply(c, s, step).Some? && !step.PutBackAgain? && Exclusive(s)
    ensures Exclusive(Apply(c, s, step).value)
  {
    StepStowedApart(c, s, step);
    StepCallsApart(c, s, step);
    StepNumbered(c, s, step);
  }

  // ----- a second release

  /** Connections given up once were built before. */
  ghost predicate SpentOld(s: State) { forall f: Fairy :: f in s.spent ==> f < s.next }

  lemma StepSpentOld(c: Config, s: State, step: Step)
    requires Apply(c, s, step).Some? && SpentOld(s) && Numbered(s)
    ensures SpentOld(Apply(c, s, step).value)
  {
    if step.PutBack? || step.Close? { assert Stowed(s)[step.fairy] > 0 && Live(s, step.fairy); }
  }

  /** A second release changes where the connection is, and nothing else. */
  lemma AgainStowed(c: Config, s: State, step: Step, f: Fairy)
    requires step.PutBackAgain? && Apply(c, s, step).Some?
    ensures Stowed(Apply(c, s, step).value)[f] == Stowed(s)[f] + if f == step.fairy then 1 else 0
  {
    CountStowed(s, f);
    CountStowed(Apply(c, s, step).value, f);
    QueueChange(s.pool.queue, f, step.fairy);
  }

  lemma AgainCalls(c: Config, s: State, step: Step)
    requires step.PutBackAgain? && Apply(c, s, step).Some?
    ensures var s' := Apply(c, s, step).value; s'.calls == s.calls && s'.next == s.next
  {}

  /** Releasing a connection again that is gone keeps every connection in one place. */
  lemma AgainGone(c: Config, s: State, step: Step)
    requires step.PutBackAgain? && Apply(c, s, step).Some? && Exclusive(s) && SpentOld(s) && !Live(s, step.fairy)
    ensures Exclusive(Apply(c, s, step).value)
  {
    var s' := Apply(c, s, step).value;
    AgainCalls(c, s, step);
    forall f: Fairy ensures Stowed(s')[f] <= 1 { AgainStowed(c, s, step, f); }
    forall i | HasFairy(s', i) ensures s'.calls[i].fairy !in Stowed(s') {
      assert HasFairy(s, i);
      AgainStowed(c, s, step, s.calls[i].fairy);
    }
    assert CallsApart(s') by {
      forall i, j | HasFairy(s', i) && HasFairy(s', j) && i != j ensures s'.calls[i].fairy != s'.calls[j].fairy {
        assert HasFairy(s, i) && HasFairy(s, j);
      }
    }
    forall f: nat | Live(s', f) ensures f < s'.next {
      AgainStowed(c, s, step, f);
      if f != step.fairy { AgainLive(c, s, step, f); }
    }
  }

  lemma AgainLive(c: Config, s: State, step: Step, f: Fairy)
    requires step.PutBackAgain? && Apply(c, s, step).Some? && f != step.fairy && Live(Apply(c, s, step).value, f)
    ensures Live(s, f)
  {
    var s' := Apply(c, s, step).value;
    AgainStowed(c, s, step, f);
    AgainCalls(c, s, step);
    if f !in Stowed(s') {
      var i :| HasFairy(s', i) && s'.calls[i].fairy == f;
      assert HasFairy(s, i);
    }
  }

  /** Releasing a connection again that is anywhere puts it in two places. */
  lemma AgainLiveBreaks(c: Config, s: State, step: Step)
    requires step.PutBackAgain? && Apply(c, s, step).Some? && Live(s, step.fairy)
    ensures !Exclusive(Apply(c, s, step).value)
  {
    var s', f := Apply(c, s, step).value, step.fairy;
    AgainStowed(c, s, step, f);
    AgainCalls(c, s, step);
    if f in Stowed(s) {
      assert Stowed(s')[f] >= 2;
    } else {
      var i :| HasFairy(s, i) && s.calls[i].fairy == f;
      assert HasFairy(s', i) && s'.calls[i].fairy in Stowed(s');
    }
  }

  /** The step that puts a connection in two places: releasing again one that is
      idle, in transit, handed out or being closed. */
  ghost predicate Duplicates(s: State, step: Step) { step.PutBackAgain? && Live(s, step.fairy) }

  lemma StepIff(c: Config, s: State, step: Step)
    requires Exclusive(s) && SpentOld(s) && Apply(c, s, step).Some?
    ensures Exclusive(Apply(c, s, step).value) <==> !Duplicates(s, step)
  {
    if !step.PutBackAgain? {
      StepExclusive(c, s, step);
    } else if Live(s, step.fairy) {
      AgainLiveBreaks(c, s, step);
    } else {
      AgainGone(c, s, step);
    }
  }

  // ----- whole runs

  ghost predicate Run(c: Config, states: seq<State>, steps: seq<Step>) {
    && |states| == |steps| + 1 && states[0] == Initial(c)
    && forall i {:trigger Apply(c, states[i], steps[i])} ::
         0 <= i < |steps| ==> Apply(c, states[i], steps[i]) == Some(states[i + 1])
  }

  function Misuses(steps: seq<Step>): nat {
    if steps == [] then 0 else Misuses(steps[..|steps| - 1]) + Misuse(steps[|steps| - 1])
  }

  predicate QueueFits(c: Config, s: State) { c.maxSize > 0 ==> |s.pool.queue| <= c.maxSize }

  lemma StepBounds(c: Config, s: State, step: Step)
    requires Apply(c, s, step).Some? && s.pool.avail >= 0 && QueueFits(c, s)
    ensures Apply(c, s, step).value.pool.avail >= 0 && QueueFits(c, Apply(c, s, step).value)
  {}

  /** In every interleaving, with or without misuse, the counter never goes below
      zero, the queue never exceeds its size, and the permits free and in use are
      the limit plus the number of second closes and releases. */
  lemma {:induction false} RunKeeps(c: Config, states: seq<State>, steps: seq<Step>, k: nat)
    requires Run(c, states, steps) && k < |states|
    ensures states[k].pool.avail >= 0 && QueueFits(c, states[k])
    ensures Accounted(states[k]) == Limit(c) + Misuses(steps[..k])
  {
    if k > 0 {
      RunKeeps(c, states, steps, k - 1);
      assert Apply(c, states[k - 1], steps[k - 1]) == Some(states[k]);
      assert steps[..k][..k - 1] == steps[..k - 1];
      StepConserves(c, states[k - 1], steps[k - 1]);
      StepBounds(c, states[k - 1], steps[k - 1]);
    } else {
      NobodyCalls(states[0]);
    }
  }

  lemma NobodyCalls(s: State)
    requires s.calls == map[]
    ensures Builders(s) == {} && Holders(s) == {}
  {}

  /** In the state after the first k steps no connection is in two places. */
  ghost predicate ExclusiveAt(states: seq<State>, k: nat)
    requires k < |states|
  {
    Exclusive(states[k]) && SpentOld(states[k])
  }

  lemma NextIff(c: Config, s: State, step: Step, s': State)
    requires Apply(c, s, step) == Some(s') && Exclusive(s) && SpentOld(s)
    ensures SpentOld(s') && (Exclusive(s') <==> !Duplicates(s, step))
  {
    StepIff(c, s, step);
    StepSpentOld(c, s, step);
  }

  lemma IffInRun(c: Config, states: seq<State>, steps: seq<Step>, k: nat)
    requires Run(c, states, steps) && k < |steps| && ExclusiveAt(states, k)
    ensures SpentOld(states[k + 1]) && (Exclusive(states[k + 1]) <==> !Duplicates(states[k], steps[k]))
  {
    assert Apply(c, states[k], steps[k]) == Some(states[k + 1]);
    NextIff(c, states[k], steps[k], states[k + 1]);
  }

  /** Up to a step without duplication before it, no connection is in two places. */
  lemma {:induction false} NoDuplication(c: Config, states: seq<State>, steps: seq<Step>, k: nat)
    requires Run(c, states, steps) && k <= |steps| && forall i :: 0 <= i < k ==> !Duplicates(states[i], steps[i])
    ensures ExclusiveAt(states, k)
  {
    if k > 0 {
      NoDuplication(c, states, steps, k - 1);
      IffInRun(c, states, steps, k - 1);
    } else {
      StartsExclusive(c, states[0]);
    }
  }

  /** No connection is ever in two places, and so with two callers, exactly when none
      is released again while it is idle, in transit, handed out or being closed. */
  lemma {:induction false} RunIff(c: Config, states: seq<State>, steps: seq<Step>, k: nat)
    requires Run(c, states, steps) && k <= |steps|
    ensures (forall j :: 0 <= j <= k ==> Exclusive(states[j])) <==>
      (forall i :: 0 <= i < k ==> !Duplicates(states[i], steps[i]))
  {
    if forall i :: 0 <= i < k ==> !Duplicates(states[i], steps[i]) {
      forall j | 0 <= j <= k ensures Exclusive(states[j]) { NoDuplication(c, states, steps, j); }
    } else {
      var i := FirstDuplication(states, steps, k);
      NoDuplication(c, states, steps, i);
      IffInRun(c, states, steps, i);
    }
  }

  lemma {:induction false} FirstDuplication(states: seq<State>, steps: seq<Step>, k: nat) returns (i: nat)
    requires k <= |steps| < |states| && exists j :: 0 <= j < k && Duplicates(states[j], steps[j])
    ensures i < k && Duplicates(states[i], steps[i])
    ensures forall j :: 0 <= j < i ==> !Duplicates(states[j], steps[j])
  {
    if j :| 0 <= j < k - 1 && Duplicates(states[j], steps[j]) {
      i := FirstDuplication(states, steps, k - 1);
    } else {
      i := k - 1;
    }
  }

  /** In particular none is as long as nobody releases a connection again. */
  lemma RunExclusive(c: Config, states: seq<State>, steps: seq<Step>, k: nat)
    requires Run(c, states, steps) && k < |states| && forall i :: 0 <= i < k ==> !steps[i].PutBackAgain?
    ensures Exclusive(states[k])
  {
    NoDuplication(c, states, steps, k);
  }

  lemma StartsExclusive(c: Config, s: State)
    requires s == Initial(c)
    ensures Exclusive(s) && SpentOld(s)
  {
    assert Stowed(s) == multiset{};
  }

  lemma {:induction false} NoMisuses(steps: seq<Step>)
    ensures Misuses(steps) == 0 <==> forall i :: 0 <= i < |steps| ==> Misuse(steps[i]) == 0
  {
    if steps != [] {
      var init := steps[..|steps| - 1];
      NoMisuses(init);
      assert forall i :: 0 <= i < |init| ==> steps[i] == init[i];
    }
  }

  /** The pool conserves its permits exactly when no connection was closed or
      released again after its acquisition was over; then the connections idle, in
      transit, handed out, being built and being closed never exceed the limit. */
  lemma ConservedIffNoMisuse(c: Config, states: seq<State>, steps: seq<Step>, k: nat)
    requires Run(c, states, steps) && k < |states|
    ensures Accounted(states[k]) == Limit(c) <==> (forall i :: 0 <= i < k ==> Misuse(steps[i]) == 0)
    ensures Accounted(states[k]) == Limit(c) ==> InUse(states[k]) <= Limit(c)
    ensures InUse(states[k]) <= Limit(c) + Misuses(steps[..k])
  {
    RunKeeps(c, states, steps, k);
    NoMisuses(steps[..k]);
    assert forall i :: 0 <= i < k ==> steps[..k][i] == steps[i];
  }

  // ----- what happens to one acquisition

  /** What the acquisition can do next depends on where it is, and, while it waits, on
      whether a connection is idle. */
  lemma Turns(c: Config, s: State, step: Step)
    requires OfCall(step) && step.id in s.calls
    ensures Apply(c, s, step).Some? <==> match s.calls[step.id]
      case Look => step.Get?
      case CreateFirst => step.Permit?
      case Wait => if s.pool.queue != [] then step.Get? else step.TimedOut?
      case CreateLast => step.Permit?
      case Constructing => step.Built? || step.BuildFailed?
      case Checking(_) => step.Expired? || step.HandOut?
      case Expiring(_) => step.CountUpExpired?
      case Closing => step.Again? || step.CloseRaised?
  {}

  /** How an acquisition came to where it is: it looks for an idle connection first,
      then asks for a permit; refused one it waits on the queue, and only when that
      has timed out it asks again. */
  predicate Cause(s: State, step: Step, id: nat, phase: Phase) {
    match phase
    case Look => step == Start(id) || step == Again(id)
    case CreateFirst => step == Get(id) && At(s, id, Look) && s.pool.queue == []
    case Wait => step == Permit(id) && At(s, id, CreateFirst) && s.pool.avail <= 0
    case CreateLast => step == TimedOut(id) && At(s, id, Wait) && s.pool.queue == []
    case Constructing => step == Permit(id) && s.pool.avail > 0
    case Checking(f) =>
      (step == Get(id) && s.pool.queue != [] && s.pool.queue[0] == f) || (step == Built(id) && f == s.next)
    case Expiring(f) => step == Expired(id) && At(s, id, Checking(f))
    case Closing => step == CountUpExpired(id)
  }

  lemma OneStep(c: Config, s: State, step: Step, id: nat)
    requires Apply(c, s, step).Some? && id in Apply(c, s, step).value.calls
    ensures var phase := Apply(c, s, step).value.calls[id];
      if OfCall(step) && step.id == id then Cause(s, step, id, phase) else id in s.calls && s.calls[id] == phase
  {}

  /** In a run every acquisition in progress was brought where it is by its own last
      step. */
  lemma {:induction false} Caused(c: Config, states: seq<State>, steps: seq<Step>, k: nat, id: nat) returns (j: nat)
    requires Run(c, states, steps) && k < |states| && id in states[k].calls
    ensures j < k && Cause(states[j], steps[j], id, states[k].calls[id])
    ensures forall m :: j < m < k ==> !(OfCall(steps[m]) && steps[m].id == id)
  {
    assert k > 0;
    assert Apply(c, states[k - 1], steps[k - 1]) == Some(states[k]);
    OneStep(c, states[k - 1], steps[k - 1], id);
    if OfCall(steps[k - 1]) && steps[k - 1].id == id { j := k - 1; } else { j := Caused(c, states, steps, k - 1, id); }
  }

  /** An acquisition is over when its connection is handed out, when connecting or
      closing fails, or when it is refused a permit for the last time. */
  lemma Ends(c: Config, s: State, step: Step)
    requires Apply(c, s, step).Some? && OfCall(step)
    ensures step.id !in Apply(c, s, step).value.calls <==>
      || step.HandOut? || step.BuildFailed? || step.CloseRaised?
      || (step.Permit? && At(s, step.id, CreateLast) && s.pool.avail <= 0)
  {}

  /** An acquisition refused its last permit, so with a Timeout, was refused a permit
      before, and has waited since on a queue that was empty when the wait was over. */
  lemma TimeoutMeans(c: Config, states: seq<State>, steps: seq<Step>, k: nat, id: nat) returns (i: nat, j: nat)
    requires Run(c, states, steps) && k < |steps| && steps[k] == Permit(id) && id !in states[k + 1].calls
    ensures i < j < k && states[k].pool.avail <= 0
    ensures steps[i] == Permit(id) && states[i].pool.avail <= 0
    ensures steps[j] == TimedOut(id) && states[j].pool.queue == []
    ensures forall m :: i < m < k && OfCall(steps[m]) && steps[m].id == id ==> m == j
  {
    assert Apply(c, states[k], steps[k]) == Some(states[k + 1]);
    Ends(c, states[k], steps[k]);
    j := Caused(c, states, steps, k, id);
    i := Caused(c, states, steps, j, id);
  }

  /** A connection given back goes to the end of the queue, or, when that is full, is
      on its way to be closed; the next acquisition to take one takes the first. */
  lemma GivenBackGoes(c: Config, s: State, f: Fairy)
    ensures var t := GivenBack(c, s, f);
      if c.maxSize > 0 && |s.pool.queue| >= c.maxSize
      then t.pool == s.pool && t.retiring == s.retiring + multiset{f}
      else t.pool.queue == s.pool.queue + [f] && t.pool.avail == s.pool.avail && t.retiring == s.retiring
  {}

  // ----- misuse shown

  function Last(states: seq<State>): State
    requires states != []
  {
    states[|states| - 1]
  }

  lemma Extend(c: Config, states: seq<State>, steps: seq<Step>, step: Step) returns (more: seq<State>, done: seq<Step>)
    requires Run(c, states, steps) && Apply(c, Last(states), step).Some?
    ensures Run(c, more, done) && done == steps + [step] && Last(more) == Apply(c, Last(states), step).value
  {
    more, done := states + [Apply(c, Last(states), step).value], steps + [step];
    forall i | 0 <= i < |done| ensures Apply(c, more[i], done[i]) == Some(more[i + 1]) {
      if i < |steps| { assert Apply(c, states[i], steps[i]) == Some(states[i + 1]); }
    }
  }

  /** Connection 0 of a pool of one has been handed out. */
  predicate HandedOut(s: State) {
    s.pool == Shared(0, []) && s.calls == map[] && s.out == multiset{0} && s.retiring == multiset{}
    && s.spent == {} && s.next == 1
  }

  lemma FirstPermit() returns (states: seq<State>, steps: seq<Step>)
    ensures Run(Config(1, 0), states, steps) && steps == [Start(0), Get(0), Permit(0)]
    ensures Last(states) == State(Shared(0, []), map[0 := Constructing], multiset{}, multiset{}, {}, 0)
  {
    var c := Config(1, 0);
    states, steps := [Initial(c)], [];
    states, steps := Extend(c, states, steps, Start(0));
    assert Last(states) == Initial(c).(calls := map[0 := Look]);
    states, steps := Extend(c, states, steps, Get(0));
    assert Last(states) == Initial(c).(calls := map[0 := CreateFirst]);
    states, steps := Extend(c, states, steps, Permit(0));
  }

  lemma FirstAcquisition() returns (states: seq<State>, steps: seq<Step>)
    ensures Run(Config(1, 0), states, steps) && HandedOut(Last(states))
    ensures steps == [Start(0), Get(0), Permit(0), Built(0), HandOut(0)]
  {
    states, steps := FirstPermit();
    states, steps := Extend(Config(1, 0), states, steps, Built(0));
    states, steps := Extend(Config(1, 0), states, steps, HandOut(0));
    assert Last(states).calls == map[];
  }

  /** Closing twice: the pool of one connection ends with two permits. */
  lemma DoubleCloseRun() returns (states: seq<State>, steps: seq<Step>)
    ensures Run(Config(1, 0), states, steps)
    ensures steps == [Start(0), Get(0), Permit(0), Built(0), HandOut(0), Close(0), CountUp(0), CloseAgain(0)]
    ensures Last(states).pool.avail == 2 > Limit(Config(1, 0))
  {
    var c := Config(1, 0);
    states, steps := FirstAcquisition();
    states, steps := Extend(c, states, steps, Close(0));
    states, steps := Extend(c, states, steps, CountUp(0));
    states, steps := Extend(c, states, steps, CloseAgain(0));
  }

  lemma PutBackAndTaken() returns (states: seq<State>, steps: seq<Step>)
    ensures Run(Config(1, 0), states, steps)
    ensures steps == [Start(0), Get(0), Permit(0), Built(0), HandOut(0), PutBack(0), Start(1), Get(1)]
    ensures Last(states).pool.queue == [] && Last(states).spent == {0} && Last(states).calls == map[1 := Checking(0)]
  {
    var c := Config(1, 0);
    states, steps := FirstAcquisition();
    states, steps := Extend(c, states, steps, PutBack(0));
    assert Last(states).pool.queue == [0];
    states, steps := Extend(c, states, steps, Start(1));
    states, steps := Extend(c, states, steps, Get(1));
  }

  /** Releasing twice: the second release puts a connection into the queue that
      another caller has been handed by then. */
  lemma DoubleReleaseRun() returns (states: seq<State>, steps: seq<Step>)
    ensures Run(Config(1, 0), states, steps)
    ensures steps == [Start(0), Get(0), Permit(0), Built(0), HandOut(0),
                      PutBack(0), Start(1), Get(1), HandOut(1), PutBackAgain(0)]
    ensures 0 in Last(states).out && 0 in Last(states).pool.queue && !Exclusive(Last(states))
  {
    states, steps := PutBackAndTaken();
    states, steps := Extend(Config(1, 0), states, steps, HandOut(1));
    states, steps := Extend(Config(1, 0), states, steps, PutBackAgain(0));
    CountStowed(Last(states), 0);
  }

  /** When nothing is in progress or handed out, every permit is either free or
      stands for an idle connection. */
  lemma QuietPool(c: Config, states: seq<State>, steps: seq<Step>, k: nat)
    requires Run(c, states, steps) && k < |states| && Misuses(steps[..k]) == 0
    requires states[k].calls == map[] && states[k].out == multiset{} && states[k].retiring == multiset{}
    ensures states[k].pool.avail == Limit(c) - |states[k].pool.queue|
  {
    RunKeeps(c, states, steps, k);
    NobodyCalls(states[k]);
  }
}
