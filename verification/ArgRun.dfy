/** What a run of the argument parser does: the options with attached arguments, and
    the one record that accounts for all arguments. */
module ArgRun {
  import opened Wrappers
  import opened ArgMatch
  import opened ArgLanguage
  import opened ArgParse

  // ----- one option

  lemma AttachedSpeaks(a: Action, n: nat)
    requires a.isOptional
    ensures Speaks(a, "A", 0, n) <==> n <= 1 && Allows(a.nargs, n)
  {
    if n <= 1 { CountAll("A", 0, n); }
  }

  /** An optional takes an attached argument if its nargs allow one. */
  lemma AttachedMatch(a: Action)
    requires a.isOptional
    ensures MatchArgument(a, "A") ==
      if Allows(a.nargs, 1) then Some(1) else if Allows(a.nargs, 0) then Some(0) else None
  {
    forall n: nat { AttachedSpeaks(a, n); }
    ArgumentLongest(a, "A", 1);
    ArgumentLongest(a, "A", 0);
  }

  /** An option string with an attached argument x. An optional that can do with one
      argument gets x. One that takes none and is a single-dash option hands x on: its
      first character, behind the same dash, must name a further option, which gets
      the rest of x. In every other case the argument is refused. */
  lemma AttachedExact(p: Parser, pattern: string, at: nat, a: Action, o: string, x: string)
    requires at < |pattern| && a.isOptional
    ensures var r := OptionRun(p, pattern, at, a, o, Some(x));
      if Allows(a.nargs, 1) then r == Ok(([a], at + 1))
      else if !Allows(a.nargs, 0) then r == Err(ArgumentError)
      else if |o| < 2 then r == Err(IndexError)
      else if o[1] in p.prefixChars then r == Err(ArgumentError)
      else if x == "" then r == Err(IndexError)
      else if [o[0], x[0]] !in p.options then r == Err(ArgumentError)
      else r == Prepend([a], OptionRun(p, pattern, at, p.options[[o[0], x[0]]], [o[0], x[0]],
                                       if |x| > 1 then Some(x[1..]) else None))
  {
    AttachedMatch(a);
    ExplicitRun(p, pattern, at, a, o, x);
  }

  /** Without one, the option takes the longest stretch of what follows it. */
  lemma AloneExact(p: Parser, pattern: string, at: nat, a: Action, o: string, n: nat)
    requires at < |pattern|
    ensures OptionRun(p, pattern, at, a, o, None) == Ok(([a], at + 1 + n)) <==> Longest(a, pattern[at + 1..], n)
    ensures OptionRun(p, pattern, at, a, o, None).Err? <==> TakesNone(a, pattern[at + 1..])
    ensures OptionRun(p, pattern, at, a, o, None).Err? ==> OptionRun(p, pattern, at, a, o, None) == Err(ArgumentError)
  {
    ArgumentLongest(a, pattern[at + 1..], n);
  }

  // ----- where the cuts are made

  lemma {:induction false} CountShift(s: string, d: nat, i: nat, e: nat)
    requires d <= |s| && i <= e <= |s| - d
    ensures CountA(s[d..], i, e) == CountA(s, d + i, d + e)
    decreases e - i
  {
    if i < e { CountShift(s, d, i + 1, e); }
  }

  lemma KindsShift(s: string, d: nat, i: nat, e: nat, kinds: string)
    requires d <= |s| && i <= e <= |s| - d
    ensures AllIn(s[d..], i, e, kinds) <==> AllIn(s, d + i, d + e, kinds)
  {
    if AllIn(s[d..], i, e, kinds) {
      forall k | d + i <= k < d + e ensures s[k] in kinds { assert s[d..][k - d] in kinds; }
    }
  }

  lemma HeadShift(s: string, d: nat, i: nat, e: nat, mark: string)
    requires d <= |s| && i <= e <= |s| - d
    ensures (exists m :: i <= m < e && s[d..][m] == 'A' && AllIn(s[d..], i, m, mark)) <==>
            (exists m :: d + i <= m < d + e && s[m] == 'A' && AllIn(s, d + i, m, mark))
  {
    if m :| i <= m < e && s[d..][m] == 'A' && AllIn(s[d..], i, m, mark) {
      KindsShift(s, d, i, m, mark);
      assert s[d + m] == 'A';
    }
    if m :| d + i <= m < d + e && s[m] == 'A' && AllIn(s, d + i, m, mark) {
      KindsShift(s, d, i, m - d, mark);
      assert s[d..][m - d] == 'A';
    }
  }

  /** What an action takes does not depend on what comes before. */
  lemma SpeaksShift(a: Action, s: string, d: nat, i: nat, e: nat)
    requires d <= |s|
    ensures Speaks(a, s[d..], i, e) <==> Speaks(a, s, d + i, d + e)
  {
    var mark := if a.isOptional then "" else "-";
    if i <= e <= |s| - d {
      CountShift(s, d, i, e);
      KindsShift(s, d, i, e, "AO" + mark);
      KindsShift(s, d, i, e, "A" + mark);
      HeadShift(s, d, i, e, mark);
    }
  }

  lemma {:induction false} CutsShift(actions: seq<Action>, s: string, d: nat, i: nat, v: seq<nat>)
    requires d <= |s|
    ensures Cuts(actions, s[d..], i, v) <==> Cuts(actions, s, d + i, v)
    decreases |actions|
  {
    if actions != [] && |v| == |actions| {
      SpeaksShift(actions[0], s, d, i, i + v[0]);
      CutsShift(actions[1..], s, d, i + v[0], v[1..]);
    }
  }

  /** The n takers from the k-th on take one stretch each, from i on. */
  ghost predicate Chain(takes: (nat, nat, nat) -> bool, k: nat, n: nat, i: nat, v: seq<nat>)
    decreases n
  {
    |v| == n && (n == 0 || (takes(k, i, i + v[0]) && Chain(takes, k + 1, n - 1, i + v[0], v[1..])))
  }

  lemma {:induction false} ChainAppend(takes: (nat, nat, nat) -> bool, k: nat, n: nat, m: nat, i: nat,
                                       v: seq<nat>, w: seq<nat>)
    requires Chain(takes, k, n, i, v) && Chain(takes, k + n, m, i + Sum(v), w)
    ensures Chain(takes, k, n + m, i, v + w)
    decreases n
  {
    if n == 0 {
      assert v + w == w;
    } else {
      assert (v + w)[1..] == v[1..] + w;
      ChainAppend(takes, k + 1, n - 1, m, i + v[0], v[1..], w);
    }
  }

  ghost function Takes(all: seq<Action>, s: string): (nat, nat, nat) -> bool {
    (k: nat, i: nat, e: nat) => k < |all| && Speaks(all[k], s, i, e)
  }

  lemma {:induction false} CutsChain(actions: seq<Action>, all: seq<Action>, s: string, k: nat, i: nat, v: seq<nat>)
    requires k + |actions| <= |all| && actions == all[k..k + |actions|]
    ensures Cuts(actions, s, i, v) <==> Chain(Takes(all, s), k, |actions|, i, v)
    decreases |actions|
  {
    if actions != [] && |v| == |actions| {
      assert actions[0] == all[k] && actions[1..] == all[k + 1..k + |actions|];
      CutsChain(actions[1..], all, s, k + 1, i + v[0], v[1..]);
    }
  }

  lemma ChainOf(a: seq<Action>, all: seq<Action>, s: string, k: nat, i: nat, v: seq<nat>,
                takes: (nat, nat, nat) -> bool)
    requires k + |a| <= |all| && a == all[k..k + |a|] && takes == Takes(all, s) && Cuts(a, s, i, v)
    ensures Chain(takes, k, |a|, i, v)
  {
    CutsChain(a, all, s, k, i, v);
  }

  lemma ChainCuts(all: seq<Action>, s: string, i: nat, v: seq<nat>, takes: (nat, nat, nat) -> bool)
    requires takes == Takes(all, s) && Chain(takes, 0, |all|, i, v)
    ensures Cuts(all, s, i, v)
  {
    assert all == all[0..|all|];
    CutsChain(all, all, s, 0, i, v);
  }

  /** Cuts one after the other. */
  lemma CutsAppend(a: seq<Action>, b: seq<Action>, c: seq<Action>, s: string, i: nat, v: seq<nat>, w: seq<nat>)
    requires Cuts(a, s, i, v) && Cuts(b, s, i + Sum(v), w) && c == a + b
    ensures Cuts(c, s, i, v + w)
  {
    var takes := TwoChains(a, b, c, s, i, v, w);
    ChainAppend(takes, 0, |a|, |b|, i, v, w);
    ChainCuts(c, s, i, v + w, takes);
  }

  lemma TwoChains(a: seq<Action>, b: seq<Action>, c: seq<Action>, s: string, i: nat, v: seq<nat>, w: seq<nat>)
      returns (takes: (nat, nat, nat) -> bool)
    requires Cuts(a, s, i, v) && Cuts(b, s, i + Sum(v), w) && c == a + b
    ensures takes == Takes(c, s) && Chain(takes, 0, |a|, i, v) && Chain(takes, |a|, |b|, i + Sum(v), w)
  {
    takes := Takes(c, s);
    ChainOf(a, c, s, 0, i, v, takes);
    ChainOf(b, c, s, |a|, i + Sum(v), w, takes);
  }

  // ----- the positionals that get arguments at once

  function Counts(pattern: string, left: seq<Action>, from: nat): (v: seq<nat>)
    requires from <= |pattern|
    ensures |v| <= |left| && from + Sum(v) <= |pattern|
  {
    PartialFits(left, pattern[from..], |left|);
    PartialFrom(left, pattern[from..], |left|)
  }

  /** No first few of these positionals can be cut from what follows. */
  ghost predicate NothingFits(left: seq<Action>, s: string) {
    forall j :: 0 < j <= |left| ==> !CanCut(left[..j], s, 0)
  }

  lemma NoCounts(pattern: string, left: seq<Action>, from: nat)
    requires from <= |pattern|
    ensures Counts(pattern, left, from) == [] <==> NothingFits(left, pattern[from..])
  {
    PartialBest(left, pattern[from..], |left|);
    var r := Counts(pattern, left, from);
    assert Cuts(left[..|r|], pattern[from..], 0, r);
    assert CanCut(left[..|r|], pattern[from..], 0);
  }

  lemma LongerCut(pattern: string, left: seq<Action>, from: nat, v: seq<nat>, j: nat, w: seq<nat>)
    requires from + Sum(v) <= |pattern| && |v| + j <= |left| && Cuts(left[..|v|], pattern[from..], 0, v)
    requires Cuts(left[|v|..|v| + j], pattern[from + Sum(v)..], 0, w)
    ensures CanCut(left[..|v| + j], pattern[from..], 0)
  {
    var a, b, c, stop := left[..|v|], left[|v|..|v| + j], left[..|v| + j], from + Sum(v);
    CutsShift(a, pattern, from, 0, v);
    CutsShift(b, pattern, stop, 0, w);
    CutsAppend(a, b, c, pattern, from, v, w);
    CutsShift(c, pattern, from, 0, v + w);
    assert Cuts(c, pattern[from..], 0, v + w);
  }

  /** After the longest prefix has been cut, the rest gets nothing right there. */
  lemma RestGetsNothing(pattern: string, left: seq<Action>, from: nat)
    requires from <= |pattern|
    ensures var v := Counts(pattern, left, from); NothingFits(left[|v|..], pattern[from + Sum(v)..])
  {
    var v := Counts(pattern, left, from);
    var rest, stop := left[|v|..], from + Sum(v);
    PartialBest(left, pattern[from..], |left|);
    forall j | 0 < j <= |rest| ensures !CanCut(rest[..j], pattern[stop..], 0) {
      assert rest[..j] == left[|v|..|v| + j] && !CanCut(left[..|v| + j], pattern[from..], 0);
      if CanCut(rest[..j], pattern[stop..], 0) {
        var w :| Cuts(rest[..j], pattern[stop..], 0, w);
        LongerCut(pattern, left, from, v, j, w);
      }
    }
  }

  // ----- the record that accounts for a command line

  /** A command line: the parser, the pattern, the options by index, the positionals,
      and how many arguments each of some positionals gets from an index on. */
  datatype Line = Line(p: Parser, pattern: string, indices: map<nat, OptionTuple>, all: seq<Action>,
                       counts: (seq<Action>, nat) -> seq<nat>) {
    /** The numbers are what _match_arguments_partial gives. */
    ghost predicate Valid() {
      && Sane()
      && forall left, from: nat {:trigger counts(left, from)} :: from <= |pattern| ==>
           counts(left, from) == Counts(pattern, left, from)
    }

    ghost predicate Sane() {
      && (forall i :: i in indices ==> i < |pattern|)
      && forall left, from: nat {:trigger counts(left, from)} :: from <= |pattern| ==>
           |counts(left, from)| <= |left| && from + Sum(counts(left, from)) <= |pattern|
    }

    function Run(left: seq<Action>, at: nat): Result<seq<Event>>
      requires at <= |pattern|
    {
      RunFrom(p, pattern, indices, left, at)
    }
  }

  /** Where a record stands: its last event, the positionals that have not got arguments
      yet, and the next index. */
  datatype Stand = Stand(last: Option<Event>, left: seq<Action>, at: nat)

  function After(st: Stand, e: Event): Stand {
    Stand(Some(e), if e.ByPositional? && st.left != [] then st.left[1..] else st.left, e.stop)
  }

  function StandOf(c: Line, log: seq<Event>): Stand {
    if log == [] then Stand(None, c.all, 0) else After(StandOf(c, log[..|log| - 1]), log[|log| - 1])
  }

  /** The last event is a positional, and the next one got arguments with it. */
  predicate Open(c: Line, st: Stand) {
    st.last.Some? && var e := st.last.value; e.ByPositional? && e.k + 1 < |c.counts(e.left, e.from)|
  }

  /** Nobody took the last arguments. */
  predicate Over(c: Line, st: Stand) {
    st.last.Some? && var e := st.last.value; e.Extra? && e.start !in c.indices && e.stop == |c.pattern|
  }

  /** The next positional of those that got arguments at once. */
  predicate Continues(c: Line, last: Event, e: Event)
    requires last.ByPositional?
  {
    var counts, k := c.counts(last.left, last.from), last.k + 1;
    && k < |counts| <= |last.left|
    && e == ByPositional(last.left[k], last.stop, last.stop + counts[k], last.left, last.from, k)
  }

  /** The first of the positionals that get arguments at a place, if any does. */
  predicate FirstTaken(c: Line, left: seq<Action>, e: Event) {
    var counts := c.counts(left, e.start);
    && e.start !in c.indices && 0 < |counts| <= |left|
    && e == ByPositional(left[0], e.start, e.start + counts[0], left, e.start, 0)
  }

  /** What the option at a place takes; an unknown one is nobody's. */
  predicate OptionTaken(c: Line, e: Event) {
    && e.start < |c.pattern| && e.start in c.indices
    && var t := c.indices[e.start];
    if t.action.None? then e == Extra(e.start, e.start + 1)
    else
      e.ByOptional? && OptionRun(c.p, c.pattern, e.start, t.action.value, t.optionString, t.explicit) ==
        Result.Ok((e.actions, e.stop))
  }

  /** What is left before the next option where nothing fits. */
  ghost predicate NobodyTakes(c: Line, left: seq<Action>, e: Event) {
    && e.Extra? && e.start !in c.indices && e.start <= e.stop <= |c.pattern| && NothingFits(left, c.pattern[e.start..])
    && (forall i :: e.start <= i < e.stop ==> i !in c.indices) && (e.stop == |c.pattern| || e.stop in c.indices)
  }

  /** What comes next: the other positionals that got arguments together with the last
      one; else, at an option string, the option; else the first of the positionals
      that get arguments there; and if none gets any, what is left before the next
      option. */
  ghost predicate Follows(c: Line, st: Stand, e: Event) {
    && !Over(c, st) && e.start == st.at <= |c.pattern|
    && if Open(c, st) then Continues(c, st.last.value, e)
       else OptionTaken(c, e) || FirstTaken(c, st.left, e) || NobodyTakes(c, st.left, e)
  }

  /** Each event of the record is what has to come after the ones before it. */
  ghost predicate Accounts(c: Line, log: seq<Event>) {
    log == [] || (Accounts(c, log[..|log| - 1]) && Follows(c, StandOf(c, log[..|log| - 1]), log[|log| - 1]))
  }

  lemma AccountsMore(c: Line, log: seq<Event>, e: Event)
    requires Accounts(c, log) && Follows(c, StandOf(c, log), e)
    ensures Accounts(c, log + [e]) && StandOf(c, log + [e]) == After(StandOf(c, log), e)
  {
    assert (log + [e])[..|log|] == log;
  }

  /** After a positional the record stands among those that got arguments together. */
  ghost predicate Placed(c: Line, st: Stand) {
    st.last.Some? && st.last.value.ByPositional? ==>
      var e := st.last.value;
      var counts := c.counts(e.left, e.from);
      && e.from <= |c.pattern| && e.from !in c.indices && e.k < |counts| <= |e.left|
      && st.at == e.stop == e.from + Sum(counts[..e.k + 1]) && st.left == e.left[e.k + 1..]
      && e.from + Sum(counts) <= |c.pattern|
  }

  lemma {:induction false} SumSplit(v: seq<nat>, k: nat)
    requires k <= |v|
    ensures Sum(v[..k]) + Sum(v[k..]) == Sum(v)
  {
    if k == 0 {
      assert v[..0] == [] && v[0..] == v;
    } else {
      SumSplit(v, k - 1);
      SumStep(v, k - 1);
    }
  }

  lemma NextPlace(from: nat, counts: seq<nat>, k: nat)
    requires k < |counts|
    ensures from + Sum(counts[..k]) + counts[k] == from + Sum(counts[..k + 1]) <= from + Sum(counts)
  {
    SumStep(counts, k);
    SumSplit(counts, k + 1);
  }

  lemma DropTwice<T>(s: seq<T>, k: nat)
    requires k < |s|
    ensures s[k..] != [] && s[k..][1..] == s[k + 1..]
  {}

  lemma ContinuesPlaced(c: Line, st: Stand, last: Event, e: Event)
    requires c.Sane() && st.last == Some(last) && last.ByPositional? && Placed(c, st) && Continues(c, last, e)
    ensures Placed(c, After(st, e)) && e.start <= e.stop <= |c.pattern|
  {
    NextPlace(last.from, c.counts(last.left, last.from), last.k + 1);
    DropTwice(last.left, last.k + 1);
  }

  lemma FirstPlaced(c: Line, st: Stand, e: Event)
    requires c.Sane() && e.start <= |c.pattern| && FirstTaken(c, st.left, e)
    ensures Placed(c, After(st, e)) && e.start <= e.stop <= |c.pattern|
  {
    var counts := c.counts(e.left, e.from);
    assert counts[..0] == [];
    NextPlace(e.from, counts, 0);
  }

  lemma FollowsPlaced(c: Line, st: Stand, e: Event)
    requires c.Sane() && Placed(c, st) && Follows(c, st, e)
    ensures Placed(c, After(st, e)) && e.start <= e.stop <= |c.pattern|
  {
    if Open(c, st) {
      ContinuesPlaced(c, st, st.last.value, e);
    } else if FirstTaken(c, st.left, e) {
      FirstPlaced(c, st, e);
    }
  }

  /** The events tile the arguments so far. */
  lemma {:induction false} AccountsPlaced(c: Line, log: seq<Event>)
    requires c.Sane() && Accounts(c, log)
    ensures Placed(c, StandOf(c, log)) && Tiles(log, StandOf(c, log).at) && StandOf(c, log).at <= |c.pattern|
    decreases |log|
  {
    if log != [] {
      AccountsPlaced(c, log[..|log| - 1]);
      FollowsPlaced(c, StandOf(c, log[..|log| - 1]), log[|log| - 1]);
    }
  }

  // ----- the run, place by place

  lemma RunAtOption(c: Line, left: seq<Action>, at: nat)
    requires at < |c.pattern| && at in c.indices
    ensures c.Run(left, at) == OptionFrom(c.p, c.pattern, c.indices, left, at)
  {
    assert NextIndex(c.indices, at, |c.pattern|) == Some(at);
  }

  lemma NoEvents(c: Line, left: seq<Action>, at: nat)
    requires at <= |c.pattern| && NothingFits(left, c.pattern[at..])
    ensures Positionals(c.pattern, left, at) == Taken([], left, at)
  {
    NoCounts(c.pattern, left, at);
    assert left[0..] == left;
  }

  /** Where nothing fits, what is left before the next option is nobody's. */
  lemma RunNothing(c: Line, left: seq<Action>, at: nat, next: nat)
    requires at < next < |c.pattern| && NextIndex(c.indices, at, |c.pattern|) == Some(next)
    requires NothingFits(left, c.pattern[at..])
    ensures c.Run(left, at) == Push([Extra(at, next)], c.Run(left, next))
  {
    NoEvents(c, left, at);
    RunAtOption(c, left, next);
    PositionalsStep(c.p, c.pattern, c.indices, [], left, at, next, Positionals(c.pattern, left, at));
    PushTwice([], [], c.Run(left, at));
    assert [] + [] + [Extra(at, next)] == [Extra(at, next)];
  }

  lemma RunEnd(c: Line, left: seq<Action>, at: nat)
    requires at <= |c.pattern| && NextIndex(c.indices, at, |c.pattern|).None? && NothingFits(left, c.pattern[at..])
    ensures c.Run(left, at) == if left != [] then Err(TooFew) else Ok([Extra(at, |c.pattern|)])
  {
    NoEvents(c, left, at);
    assert [] + [Extra(at, |c.pattern|)] == [Extra(at, |c.pattern|)];
  }

  /** Off the option strings, the positionals that get arguments come first. */
  lemma RunTakes(c: Line, left: seq<Action>, at: nat, t: ArgParse.Taken)
    requires at <= |c.pattern| && at !in c.indices && t == Positionals(c.pattern, left, at)
    ensures c.Run(left, at) == Push(t.events, c.Run(t.rest, t.stop))
  {
    RestGetsNothing(c.pattern, left, at);
    var next := NextIndex(c.indices, at, |c.pattern|);
    if next.None? {
      NextLater(c.indices, at, t.stop, |c.pattern|);
      RunEnd(c, t.rest, t.stop);
    } else {
      PositionalsStep(c.p, c.pattern, c.indices, [], left, at, next.value, t);
      PushTwice([], [], c.Run(left, at));
      assert [] + t.events == t.events;
      if t.stop == at { RunNone(c, t, at, next.value); }
    }
  }

  lemma RunNone(c: Line, t: ArgParse.Taken, at: nat, next: nat)
    requires at < next < |c.pattern| && NextIndex(c.indices, at, |c.pattern|) == Some(next)
    requires NothingFits(t.rest, c.pattern[at..])
    ensures Push(t.events, c.Run(t.rest, at)) ==
      Push(t.events + [Extra(at, next)], OptionFrom(c.p, c.pattern, c.indices, t.rest, next))
  {
    RunNothing(c, t.rest, at, next);
    RunAtOption(c, t.rest, next);
    PushTwice(t.events, [Extra(at, next)], c.Run(t.rest, next));
  }

  lemma {:induction false} NextLater(indices: map<nat, OptionTuple>, at: nat, later: nat, n: nat)
    requires at <= later && NextIndex(indices, at, n).None?
    ensures NextIndex(indices, later, n).None?
    decreases later - at
  {
    if at < later && at < n { NextLater(indices, at + 1, later, n); }
  }

  lemma {:induction false} NextFound(indices: map<nat, OptionTuple>, at: nat, next: nat, n: nat)
    requires at <= next < n && next in indices && forall i :: at <= i < next ==> i !in indices
    ensures NextIndex(indices, at, n) == Some(next)
    decreases next - at
  {
    if at < next { NextFound(indices, at + 1, next, n); }
  }

  lemma {:induction false} NextNone(indices: map<nat, OptionTuple>, at: nat, n: nat)
    requires forall i :: at <= i < n ==> i !in indices
    ensures NextIndex(indices, at, n).None?
    decreases n - at
  {
    if at < n { NextNone(indices, at + 1, n); }
  }

  lemma RunOption(c: Line, left: seq<Action>, e: Event)
    requires OptionTaken(c, e) && e.stop <= |c.pattern|
    ensures c.Run(left, e.start) == Push([e], c.Run(left, e.stop))
  {
    RunAtOption(c, left, e.start);
  }

  lemma RunNobody(c: Line, left: seq<Action>, e: Event)
    requires c.Sane() && NobodyTakes(c, left, e) && e.stop < |c.pattern|
    ensures c.Run(left, e.start) == Push([e], c.Run(left, e.stop))
  {
    NextFound(c.indices, e.start, e.stop, |c.pattern|);
    RunNothing(c, left, e.start, e.stop);
  }

  lemma TakenIs(c: Line, left: seq<Action>, at: nat, counts: seq<nat>)
    requires c.Valid() && at <= |c.pattern| && counts == c.counts(left, at)
    ensures |counts| <= |left| && Positionals(c.pattern, left, at) ==
      Taken(PositionalEvents(left, at, counts, 0, at), left[|counts|..], at + Sum(counts))
  {
    assert counts == Counts(c.pattern, left, at);
  }

  // ----- the same, of any run

  type Runner = (seq<Action>, nat) -> Result<seq<Event>>

  ghost predicate AtOption(c: Line, run: Runner, left: seq<Action>, e: Event) {
    OptionTaken(c, e) && e.stop <= |c.pattern| ==> run(left, e.start) == Push([e], run(left, e.stop))
  }

  ghost predicate AtNobody(c: Line, run: Runner, left: seq<Action>, e: Event) {
    NobodyTakes(c, left, e) && e.stop < |c.pattern| ==> run(left, e.start) == Push([e], run(left, e.stop))
  }

  ghost predicate AtCounts(c: Line, run: Runner, left: seq<Action>, at: nat) {
    at <= |c.pattern| && at !in c.indices ==>
      var counts := c.counts(left, at);
      && |counts| <= |left|
      && run(left, at) == Push(PositionalEvents(left, at, counts, 0, at), run(left[|counts|..], at + Sum(counts)))
  }

  /** What a run does at an option, at what is nobody's, and where positionals get
      arguments. */
  ghost predicate Runs(c: Line, run: Runner) {
    && (forall left, e {:trigger AtOption(c, run, left, e)} :: AtOption(c, run, left, e))
    && (forall left, e {:trigger AtNobody(c, run, left, e)} :: AtNobody(c, run, left, e))
    && (forall left, at: nat {:trigger AtCounts(c, run, left, at)} :: AtCounts(c, run, left, at))
  }

  function RunnerOf(c: Line): Runner {
    (left, at: nat) => if at <= |c.pattern| then c.Run(left, at) else Ok([])
  }

  lemma RunnerAtOption(c: Line, left: seq<Action>, e: Event)
    ensures AtOption(c, RunnerOf(c), left, e)
  {
    if OptionTaken(c, e) && e.stop <= |c.pattern| { RunOption(c, left, e); }
  }

  lemma RunnerAtNobody(c: Line, left: seq<Action>, e: Event)
    requires c.Sane()
    ensures AtNobody(c, RunnerOf(c), left, e)
  {
    if NobodyTakes(c, left, e) && e.stop < |c.pattern| { RunNobody(c, left, e); }
  }

  lemma RunnerAtCounts(c: Line, left: seq<Action>, at: nat)
    requires c.Valid()
    ensures AtCounts(c, RunnerOf(c), left, at)
  {
    if at <= |c.pattern| && at !in c.indices {
      var t := RunnerTakes(c, left, at);
      AtCountsIf(c, RunnerOf(c), left, at, c.counts(left, at), t);
    }
  }

  lemma RunnerTakes(c: Line, left: seq<Action>, at: nat) returns (t: ArgParse.Taken)
    requires c.Valid() && at <= |c.pattern| && at !in c.indices
    ensures var counts := c.counts(left, at);
      |counts| <= |left| &&
      t == Taken(PositionalEvents(left, at, counts, 0, at), left[|counts|..], at + Sum(counts))
    ensures RunnerOf(c)(left, at) == Push(t.events, RunnerOf(c)(t.rest, t.stop))
  {
    t := Positionals(c.pattern, left, at);
    TakenIs(c, left, at, c.counts(left, at));
    RunTakes(c, left, at, t);
    RunnerIs(c, left, at);
    RunnerIs(c, t.rest, t.stop);
  }

  lemma AtCountsIf(c: Line, run: Runner, left: seq<Action>, at: nat, counts: seq<nat>, t: ArgParse.Taken)
    requires counts == c.counts(left, at) && |counts| <= |left|
    requires t == Taken(PositionalEvents(left, at, counts, 0, at), left[|counts|..], at + Sum(counts))
    requires run(left, at) == Push(t.events, run(t.rest, t.stop))
    ensures AtCounts(c, run, left, at)
  {}

  lemma RunnerIs(c: Line, left: seq<Action>, at: nat)
    requires at <= |c.pattern|
    ensures RunnerOf(c)(left, at) == c.Run(left, at)
  {}

  lemma RunnerRuns(c: Line)
    requires c.Valid()
    ensures Runs(c, RunnerOf(c))
  {
    var run := RunnerOf(c);
    forall left, e {:trigger AtOption(c, run, left, e)} ensures AtOption(c, run, left, e) {
      RunnerAtOption(c, left, e);
    }
    forall left, e {:trigger AtNobody(c, run, left, e)} ensures AtNobody(c, run, left, e) {
      RunnerAtNobody(c, left, e);
    }
    forall left, at: nat {:trigger AtCounts(c, run, left, at)} ensures AtCounts(c, run, left, at) {
      RunnerAtCounts(c, left, at);
    }
  }

  // ----- what is still to come

  /** How a run goes on: events that are settled, and then from a place with the
      positionals left. */
  datatype Resume = Resume(events: seq<Event>, left: seq<Action>, at: nat)

  function Resumed(run: Runner, r: Resume): Result<seq<Event>> { Push(r.events, run(r.left, r.at)) }

  /** How the run goes on from where a record stands. */
  function Ahead(c: Line, st: Stand): (r: Resume)
    requires Placed(c, st) && st.at <= |c.pattern|
    ensures r.at <= |c.pattern|
  {
    if Open(c, st) then
      var e := st.last.value;
      var counts := c.counts(e.left, e.from);
      Resume(PositionalEvents(e.left, e.from, counts, e.k + 1, e.stop), e.left[|counts|..], e.from + Sum(counts))
    else Resume([], st.left, st.at)
  }

  lemma LastCounts(left: seq<Action>, from: nat, counts: seq<nat>, k: nat, at: nat)
    requires k == |counts| <= |left|
    ensures counts[..k] == counts && PositionalEvents(left, from, counts, k, at) == []
  {}

  lemma EventsFirst(left: seq<Action>, from: nat, counts: seq<nat>, k: nat, at: nat, e: Event, more: seq<Event>)
    requires k < |counts| <= |left| && e == ByPositional(left[k], at, at + counts[k], left, from, k)
    requires more == PositionalEvents(left, from, counts, k + 1, e.stop)
    ensures PositionalEvents(left, from, counts, k, at) == [e] + more
  {}

  lemma ClosedPlace(st: Stand, e: Event, counts: seq<nat>)
    requires e.ByPositional? && e.k + 1 == |counts| <= |e.left|
    requires st.at == e.from + Sum(counts[..e.k + 1]) && st.left == e.left[e.k + 1..]
    ensures Resume([], st.left, st.at) ==
      Resume(PositionalEvents(e.left, e.from, counts, e.k + 1, e.stop), e.left[|counts|..], e.from + Sum(counts))
  {
    LastCounts(e.left, e.from, counts, e.k + 1, e.stop);
  }

  /** After a positional the others that got arguments with it follow, if any. */
  lemma AheadPositional(c: Line, st: Stand, e: Event, counts: seq<nat>)
    requires st.last == Some(e) && e.ByPositional? && Placed(c, st) && st.at <= |c.pattern|
    requires counts == c.counts(e.left, e.from)
    ensures Ahead(c, st) ==
      Resume(PositionalEvents(e.left, e.from, counts, e.k + 1, e.stop), e.left[|counts|..], e.from + Sum(counts))
  {
    if Open(c, st) {
      AheadOpen(c, st, e, counts);
    } else {
      AheadClosed(c, st);
      ClosedPlace(st, e, counts);
    }
  }

  lemma AheadClosed(c: Line, st: Stand)
    requires Placed(c, st) && st.at <= |c.pattern| && !Open(c, st)
    ensures Ahead(c, st) == Resume([], st.left, st.at)
  {}

  lemma AheadOpen(c: Line, st: Stand, e: Event, counts: seq<nat>)
    requires st.last == Some(e) && Placed(c, st) && st.at <= |c.pattern|
    requires e.ByPositional? && counts == c.counts(e.left, e.from) && e.k + 1 < |counts| <= |e.left|
    ensures Ahead(c, st) ==
      Resume(PositionalEvents(e.left, e.from, counts, e.k + 1, e.stop), e.left[|counts|..], e.from + Sum(counts))
  {}

  lemma ResumeStep(run: Runner, e: Event, r: Resume)
    ensures Resumed(run, r.(events := [e] + r.events)) == Push([e], Resumed(run, r))
  {
    PushTwice([e], r.events, run(r.left, r.at));
  }

  lemma ResumeFirst(run: Runner, e: Event, left: seq<Action>, at: nat, r: Resume)
    requires run(left, at) == Push([e] + r.events, run(r.left, r.at))
    ensures Resumed(run, Resume([], left, at)) == Push([e], Resumed(run, r))
  {
    PushTwice([], [], run(left, at));
    ResumeStep(run, e, r);
  }

  lemma StepContinues(c: Line, st: Stand, last: Event, e: Event)
    requires c.Sane() && st.last == Some(last) && last.ByPositional? && Open(c, st) && Placed(c, st)
    requires Continues(c, last, e) && st.at <= |c.pattern| && e.stop <= |c.pattern| && Placed(c, After(st, e))
    ensures Ahead(c, st) == Ahead(c, After(st, e)).(events := [e] + Ahead(c, After(st, e)).events)
  {
    var counts := c.counts(last.left, last.from);
    AheadPositional(c, st, last, counts);
    AheadPositional(c, After(st, e), e, counts);
    EventsNext(last, e, counts);
  }

  lemma EventsNext(last: Event, e: Event, counts: seq<nat>)
    requires last.ByPositional? && last.k + 1 < |counts| <= |last.left|
    requires e == ByPositional(last.left[last.k + 1], last.stop, last.stop + counts[last.k + 1], last.left, last.from,
                               last.k + 1)
    ensures PositionalEvents(last.left, last.from, counts, last.k + 1, last.stop) ==
      [e] + PositionalEvents(e.left, e.from, counts, e.k + 1, e.stop)
  {
    EventsFirst(e.left, e.from, counts, e.k, last.stop, e, PositionalEvents(e.left, e.from, counts, e.k + 1, e.stop));
  }

  lemma StepFirst(c: Line, run: Runner, st: Stand, e: Event)
    requires c.Sane() && AtCounts(c, run, st.left, e.start) && Placed(c, st) && !Open(c, st) && st.at <= |c.pattern|
    requires FirstTaken(c, st.left, e) && e.start == st.at && e.stop <= |c.pattern| && Placed(c, After(st, e))
    ensures Resumed(run, Ahead(c, st)) == Push([e], Resumed(run, Ahead(c, After(st, e))))
  {
    var counts := c.counts(st.left, e.start);
    var more := PositionalEvents(st.left, e.start, counts, 1, e.stop);
    AheadPositional(c, After(st, e), e, counts);
    EventsFirst(st.left, e.start, counts, 0, e.start, e, more);
    ResumeFirst(run, e, st.left, e.start, Resume(more, st.left[|counts|..], e.start + Sum(counts)));
  }

  /** An option, or what is nobody's before one. */
  lemma StepOver(c: Line, run: Runner, st: Stand, e: Event)
    requires c.Sane() && Placed(c, st) && !Open(c, st) && e.start == st.at <= |c.pattern| && e.stop <= |c.pattern|
    requires !e.ByPositional? && run(st.left, e.start) == Push([e], run(st.left, e.stop))
    ensures Resumed(run, Ahead(c, st)) == Push([e], Resumed(run, Ahead(c, After(st, e))))
  {
    assert [e] + [] == [e];
    ResumeFirst(run, e, st.left, e.start, Resume([], st.left, e.stop));
  }

  /** One event on, what is ahead is one event less. */
  lemma StepAhead(c: Line, run: Runner, st: Stand, e: Event)
    requires c.Sane() && Runs(c, run) && Placed(c, st) && st.at <= |c.pattern| && Follows(c, st, e)
    requires !Over(c, After(st, e))
    ensures Placed(c, After(st, e)) && e.stop <= |c.pattern|
    ensures Resumed(run, Ahead(c, st)) == Push([e], Resumed(run, Ahead(c, After(st, e))))
  {
    FollowsPlaced(c, st, e);
    if Open(c, st) {
      StepContinues(c, st, st.last.value, e);
      ResumeStep(run, e, Ahead(c, After(st, e)));
    } else if OptionTaken(c, e) {
      assert AtOption(c, run, st.left, e);
      StepOver(c, run, st, e);
    } else if FirstTaken(c, st.left, e) {
      assert AtCounts(c, run, st.left, e.start);
      StepFirst(c, run, st, e);
    } else {
      assert AtNobody(c, run, st.left, e);
      StepOver(c, run, st, e);
    }
  }

  /** A run begins with the events of every record that accounts for its beginning. */
  lemma {:induction false} RunBegins(c: Line, run: Runner, log: seq<Event>, st: Stand)
    requires c.Sane() && Runs(c, run) && Accounts(c, log) && st == StandOf(c, log) && !Over(c, st)
    ensures Placed(c, st) && st.at <= |c.pattern|
    ensures run(c.all, 0) == Push(log, Resumed(run, Ahead(c, st)))
    decreases |log|
  {
    AccountsPlaced(c, log);
    if log == [] {
      PushTwice([], [], run(c.all, 0));
    } else {
      var before, e, st0 := LastEvent(c, log, st);
      RunBegins(c, run, before, st0);
      RunGoesOn(c, run, before, e, st0, run(c.all, 0));
    }
  }

  lemma LastEvent(c: Line, log: seq<Event>, st: Stand) returns (before: seq<Event>, e: Event, st0: Stand)
    requires Accounts(c, log) && st == StandOf(c, log) && log != []
    ensures log == before + [e] && Accounts(c, before) && st0 == StandOf(c, before)
    ensures Follows(c, st0, e) && !Over(c, st0) && st == After(st0, e)
  {
    before, e := log[..|log| - 1], log[|log| - 1];
    st0 := StandOf(c, before);
  }

  lemma RunGoesOn(c: Line, run: Runner, before: seq<Event>, e: Event, st: Stand, whole: Result<seq<Event>>)
    requires c.Sane() && Runs(c, run) && Placed(c, st) && st.at <= |c.pattern| && Follows(c, st, e)
    requires !Over(c, After(st, e)) && whole == Push(before, Resumed(run, Ahead(c, st)))
    ensures Placed(c, After(st, e)) && e.stop <= |c.pattern|
    ensures whole == Push(before + [e], Resumed(run, Ahead(c, After(st, e))))
  {
    StepAhead(c, run, st, e);
    PushTwice(before, [e], Resumed(run, Ahead(c, After(st, e))));
  }

  /** A record between two turns: the run goes on from there. */
  lemma RunStands(c: Line, log: seq<Event>, st: Stand)
    requires c.Valid() && Accounts(c, log) && st == StandOf(c, log) && !Over(c, st) && !Open(c, st)
    ensures st.at <= |c.pattern| && c.Run(c.all, 0) == Push(log, c.Run(st.left, st.at))
  {
    var run := RunnerOf(c);
    AccountsPlaced(c, log);
    RunnerRuns(c);
    RunBegins(c, run, log, st);
    PushTwice([], [], run(st.left, st.at));
  }

  lemma RunLast(c: Line, st: Stand, e: Event, before: seq<Event>)
    requires c.Sane() && !Open(c, st) && Follows(c, st, e) && Over(c, After(st, e))
    ensures Push(before, c.Run(st.left, st.at)) == if st.left == [] then Ok(before + [e]) else Err(TooFew)
  {
    NextNone(c.indices, e.start, |c.pattern|);
    RunEnd(c, st.left, e.start);
  }

  /** A record that reaches the end: the run has these events, or too few arguments. */
  lemma RunEnds(c: Line, log: seq<Event>)
    requires c.Valid() && Accounts(c, log) && Over(c, StandOf(c, log))
    ensures c.Run(c.all, 0) == if StandOf(c, log).left == [] then Ok(log) else Err(TooFew)
  {
    var before, e, st := LastEvent(c, log, StandOf(c, log));
    RunStands(c, before, st);
    RunLast(c, st, e, before);
  }

  /** An option string whose option fails. */
  predicate Fails(c: Line, at: nat, error: Error) {
    && at < |c.pattern| && at in c.indices && c.indices[at].action.Some?
    && var t := c.indices[at];
    OptionRun(c.p, c.pattern, at, t.action.value, t.optionString, t.explicit) == Err(error)
  }

  /** The record stands at an option that fails. */
  predicate Stuck(c: Line, st: Stand, error: Error) { !Over(c, st) && !Open(c, st) && Fails(c, st.at, error) }

  lemma RunStuck(c: Line, log: seq<Event>, error: Error)
    requires c.Valid() && Accounts(c, log) && Stuck(c, StandOf(c, log), error)
    ensures c.Run(c.all, 0) == Err(error)
  {
    var st := StandOf(c, log);
    RunStands(c, log, st);
    RunAtOption(c, st.left, st.at);
  }

  // ----- a record for every command line

  /** What comes next, unless the record is over or stuck. */
  lemma NextEvent(c: Line, st: Stand) returns (e: Event, error: Option<Error>)
    requires c.Valid() && Placed(c, st) && st.at <= |c.pattern| && !Over(c, st)
    ensures error.Some? ==> Stuck(c, st, error.value)
    ensures error.None? ==> Follows(c, st, e) && e.stop <= |c.pattern|
    ensures error.None? ==> e.stop > st.at || (e.ByPositional? && st.left != []) || Over(c, After(st, e))
  {
    error := None;
    e := Extra(st.at, |c.pattern|);
    if Open(c, st) {
      e := NextOpen(c, st, st.last.value);
    } else if st.at in c.indices {
      e, error := NextAtOption(c, st.at);
    } else if c.counts(st.left, st.at) != [] {
      var counts := c.counts(st.left, st.at);
      e := ByPositional(st.left[0], st.at, st.at + counts[0], st.left, st.at, 0);
      FirstPlaced(c, st, e);
    } else {
      NoCounts(c.pattern, st.left, st.at);
      var next := NextIndex(c.indices, st.at, |c.pattern|);
      if next.Some? { e := Extra(st.at, next.value); }
    }
  }

  lemma NextOpen(c: Line, st: Stand, last: Event) returns (e: Event)
    requires c.Sane() && st.last == Some(last) && Open(c, st) && Placed(c, st) && st.at <= |c.pattern| && !Over(c, st)
    ensures Follows(c, st, e) && e.stop <= |c.pattern| && e.ByPositional? && st.left != []
  {
    var counts, k := c.counts(last.left, last.from), last.k + 1;
    e := ByPositional(last.left[k], last.stop, last.stop + counts[k], last.left, last.from, k);
    ContinuesPlaced(c, st, last, e);
  }

  lemma NextAtOption(c: Line, at: nat) returns (e: Event, error: Option<Error>)
    requires c.Sane() && at in c.indices
    ensures error.Some? ==> Fails(c, at, error.value)
    ensures error.None? ==> OptionTaken(c, e) && e.start == at && at < e.stop <= |c.pattern|
  {
    var t := c.indices[at];
    e, error := Extra(at, at + 1), None;
    if t.action.Some? {
      match OptionRun(c.p, c.pattern, at, t.action.value, t.optionString, t.explicit)
      case Err(x) => error := Some(x);
      case Ok((actions, stop)) => e := ByOptional(actions, at, stop);
    }
  }

  /** Every record can be completed, to the end or to an option that fails. */
  lemma {:induction false} Completed(c: Line, log: seq<Event>) returns (full: seq<Event>, error: Option<Error>)
    requires c.Valid() && Accounts(c, log)
    ensures Accounts(c, full)
    ensures if error.Some? then Stuck(c, StandOf(c, full), error.value) else Over(c, StandOf(c, full))
    decreases |c.pattern| - StandOf(c, log).at, |StandOf(c, log).left|
  {
    full, error := log, None;
    var st := StandOf(c, log);
    if !Over(c, st) {
      AccountsPlaced(c, log);
      var e, x := NextEvent(c, st);
      if x.Some? {
        error := x;
      } else {
        AccountsMore(c, log, e);
        if Over(c, After(st, e)) { full := log + [e]; } else { full, error := Completed(c, log + [e]); }
      }
    }
  }

  /** The record accounts for all arguments, and every positional has got its own. */
  ghost predicate Explained(c: Line, log: seq<Event>) {
    Accounts(c, log) && Over(c, StandOf(c, log)) && StandOf(c, log).left == []
  }

  /** All arguments are accounted for, but there is a positional that got none. */
  ghost predicate Short(c: Line, log: seq<Event>) {
    Accounts(c, log) && Over(c, StandOf(c, log)) && StandOf(c, log).left != []
  }

  /** The arguments are accounted for up to an option that fails. */
  ghost predicate FailsAfter(c: Line, log: seq<Event>, error: Error) {
    Accounts(c, log) && Stuck(c, StandOf(c, log), error)
  }

  /** Before the check for required actions, a run succeeds exactly with the record that
      accounts for all arguments; it fails for want of arguments exactly when such a
      record leaves a positional over; and it fails at an option exactly when a record
      gets there and the option fails. There is no other outcome. */
  lemma RunExact(c: Line)
    requires c.Valid()
    ensures forall log :: c.Run(c.all, 0) == Ok(log) <==> Explained(c, log)
    ensures c.Run(c.all, 0) == Err(TooFew) <==> exists log :: Short(c, log)
    ensures forall error :: error != TooFew ==>
      (c.Run(c.all, 0) == Err(error) <==> exists log :: FailsAfter(c, log, error))
  {
    forall log | Accounts(c, log) && Over(c, StandOf(c, log)) { RunEnds(c, log); }
    forall log, error | FailsAfter(c, log, error) ensures c.Run(c.all, 0) == Err(error) && error != TooFew {
      RunStuck(c, log, error);
      FailuresAre(c, StandOf(c, log).at, error);
    }
    var full, error := Completed(c, []);
    if error.Some? {
      assert FailsAfter(c, full, error.value);
    } else {
      assert Explained(c, full) || Short(c, full);
    }
  }

  lemma FailuresAre(c: Line, at: nat, error: Error)
    requires Fails(c, at, error)
    ensures error == ArgumentError || error == IndexError
  {
    var t := c.indices[at];
    OptionErrors(c.p, c.pattern, at, t.action.value, t.optionString, t.explicit);
  }

  lemma {:induction false} OptionErrors(p: Parser, pattern: string, at: nat, a: Action, o: string, x: Option<string>)
    requires at < |pattern| && OptionRun(p, pattern, at, a, o, x).Err?
    ensures OptionRun(p, pattern, at, a, o, x) == Err(ArgumentError) ||
            OptionRun(p, pattern, at, a, o, x) == Err(IndexError)
    decreases if x.Some? then |x.value| + 1 else 0
  {
    if x.Some? {
      ExplicitRun(p, pattern, at, a, o, x.value);
      var b := ExplicitStep(p, a, o, x.value);
      if b.Next? { OptionErrors(p, pattern, at, b.action, b.optionString, b.explicit); }
    }
  }

  /** The positionals left are those that are in no event. */
  lemma {:induction false} LeftAre(c: Line, log: seq<Event>)
    requires c.Sane() && Accounts(c, log)
    ensures PositionalsOf(log) + StandOf(c, log).left == c.all
    decreases |log|
  {
    if log != [] {
      var before, e, st := LastEvent(c, log, StandOf(c, log));
      AccountsPlaced(c, before);
      LeftAre(c, before);
      LeftStep(c, st, e, PositionalsOf(before));
      Append(before, e, []);
    }
  }

  lemma TakenFirst(c: Line, st: Stand, e: Event)
    requires c.Sane() && Placed(c, st) && Follows(c, st, e) && e.ByPositional?
    ensures st.left != [] && e.action == st.left[0]
  {}

  lemma LeftStep(c: Line, st: Stand, e: Event, taken: seq<Action>)
    requires c.Sane() && Placed(c, st) && Follows(c, st, e) && taken + st.left == c.all
    ensures (taken + if e.ByPositional? then [e.action] else []) + After(st, e).left == c.all
  {
    if e.ByPositional? {
      TakenFirst(c, st, e);
      HeadMoves(taken, st.left);
    } else {
      assert taken + [] == taken;
    }
  }

  lemma HeadMoves<T>(a: seq<T>, b: seq<T>)
    requires b != []
    ensures (a + [b[0]]) + b[1..] == a + b
  {}

  // ----- the result of a command line

  function LineOf(p: Parser, pattern: string, indices: map<nat, OptionTuple>): Line {
    Line(p, pattern, indices, PositionalActions(p.actions),
         (left, from: nat) => if from <= |pattern| then Counts(pattern, left, from) else [])
  }

  /** What the result of parsing means: extras are the arguments in no action's hands of
      the record that accounts for all arguments, if all required actions are in it; and
      each error has its reason. */
  ghost predicate Means(c: Line, args: seq<string>, r: Result<seq<string>>) {
    match r
    case Ok(extras) =>
      exists log :: Explained(c, log) && AllRequiredSeen(c.p.actions, SeenOf(log)) && extras == ExtrasOf(log, args)
    case Err(MissingRequired) => exists log :: Explained(c, log) && !AllRequiredSeen(c.p.actions, SeenOf(log))
    case Err(TooFew) => exists log :: Short(c, log)
    case Err(error) => exists log :: FailsAfter(c, log, error)
  }

  lemma LineValid(p: Parser, args: seq<string>, pattern: string, indices: map<nat, OptionTuple>)
    requires IsPattern(p, args, pattern, indices)
    ensures LineOf(p, pattern, indices).Valid()
  {}

  /** The result of _parse_known_args means this. */
  lemma ResultMeans(p: Parser, args: seq<string>, pattern: string, indices: map<nat, OptionTuple>,
                    r: Result<seq<string>>)
    requires IsPattern(p, args, pattern, indices) && IsResult(p, args, pattern, indices, r)
    ensures Means(LineOf(p, pattern, indices), args, r)
  {
    var c := LineOf(p, pattern, indices);
    LineValid(p, args, pattern, indices);
    RunExact(c);
    match c.Run(c.all, 0) {
      case Ok(log) =>
        assert Explained(c, log);
      case Err(error) =>
        RunNeverMissing(c);
    }
  }

  lemma RunNeverMissing(c: Line)
    requires c.Valid()
    ensures c.Run(c.all, 0) != Err(MissingRequired)
  {
    RunExact(c);
    if log :| FailsAfter(c, log, MissingRequired) { FailuresAre(c, StandOf(c, log).at, MissingRequired); }
  }

  /** And nothing else means it. */
  lemma OneResult(c: Line, args: seq<string>, r1: Result<seq<string>>, r2: Result<seq<string>>)
    requires c.Valid() && Means(c, args, r1) && Means(c, args, r2)
    ensures r1 == r2
  {
    RunExact(c);
    RunNeverMissing(c);
  }
}
