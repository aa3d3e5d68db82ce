/** The consumption engine of the argument parser: the pattern of argument kinds,
    bundled short options, positionals and optionals taken in turn, and the
    arguments nobody took. */
module ArgParse {
  import opened Wrappers
  import opened ArgMatch

  /** What _parse_optional says of a string that may be an option: the action
      (none for an unknown option), the option string, and the explicit argument
      attached to it. */
  datatype OptionTuple = OptionTuple(action: Option<Action>, optionString: string, explicit: Option<string>)

  /** The errors of a run. */
  datatype Error = ArgumentError | IndexError | TooFew | MissingRequired

  datatype Result<+T> = Ok(value: T) | Err(error: Error)

  /** The parser: which strings are options, the options by name, and the prefix
      characters. */
  datatype Parser = Parser(classify: string -> Option<OptionTuple>, options: map<string, Action>,
                           prefixChars: string, actions: seq<Action>)

  // ----- the pattern

  /** The kind of argument i: everything after the first "--" is plain. */
  ghost predicate IsPattern(p: Parser, args: seq<string>, pattern: string, indices: map<nat, OptionTuple>) {
    && |pattern| == |args|
    && (forall i :: i in indices ==> i < |args|)
    && forall i: nat :: i < |args| ==>
         if exists j :: 0 <= j < i && args[j] == "--" then pattern[i] == 'A' && i !in indices
         else if args[i] == "--" then pattern[i] == '-' && i !in indices
         else match p.classify(args[i])
           case None => pattern[i] == 'A' && i !in indices
           case Some(t) => pattern[i] == 'O' && i in indices && indices[i] == t
  }

  /** The first loop of _parse_known_args. */
  method BuildPattern(p: Parser, args: seq<string>) returns (pattern: string, indices: map<nat, OptionTuple>)
    ensures IsPattern(p, args, pattern, indices)
  {
    pattern, indices := "", map[];
    var i := 0;
    while i < |args|
      invariant 0 <= i <= |args| && |pattern| == i
      invariant forall j :: 0 <= j < i ==> args[j] != "--"
      invariant forall j :: j in indices ==> j < i
      invariant forall j: nat :: j < i ==>
        match p.classify(args[j])
        case None => pattern[j] == 'A' && j !in indices
        case Some(t) => pattern[j] == 'O' && j in indices && indices[j] == t
    {
      if args[i] == "--" {
        pattern := pattern + "-";
        while |pattern| < |args|
          invariant i < |pattern| <= |args| && pattern[i] == '-'
          invariant forall j: nat :: j < i ==>
            match p.classify(args[j])
            case None => pattern[j] == 'A' && j !in indices
            case Some(t) => pattern[j] == 'O' && j in indices && indices[j] == t
          invariant forall j :: i < j < |pattern| ==> pattern[j] == 'A'
        {
          pattern := pattern + "A";
        }
        return;
      }
      match p.classify(args[i]) {
        case None => pattern := pattern + "A";
        case Some(t) =>
          indices := indices[i := t];
          pattern := pattern + "O";
      }
      i := i + 1;
    }
  }

  // ----- the record of a run

  /** Who took the arguments from `start` to `stop` (exclusive): the k-th of the
      positionals left at index `from`, an optional (with the further short
      options bundled in its string), or the extras. */
  datatype Event =
    | ByPositional(action: Action, start: nat, stop: nat, left: seq<Action>, from: nat, k: nat)
    | ByOptional(actions: seq<Action>, start: nat, stop: nat)
    | Extra(start: nat, stop: nat)

  /** The events take the arguments from 0 to k, each once and in order. */
  predicate Tiles(log: seq<Event>, k: nat) {
    if log == [] then k == 0
    else var e := log[|log| - 1]; e.start <= e.stop && e.stop == k && Tiles(log[..|log| - 1], e.start)
  }

  function ExtrasOf(log: seq<Event>, args: seq<string>): seq<string> {
    if log == [] then []
    else
      var e := log[|log| - 1];
      ExtrasOf(log[..|log| - 1], args) + if e.Extra? && e.start <= e.stop <= |args| then args[e.start..e.stop] else []
  }

  function PositionalsOf(log: seq<Event>): seq<Action> {
    if log == [] then []
    else
      var e := log[|log| - 1];
      PositionalsOf(log[..|log| - 1]) + if e.ByPositional? then [e.action] else []
  }

  function SeenOf(log: seq<Event>): set<Action> {
    if log == [] then {}
    else
      var e := log[|log| - 1];
      SeenOf(log[..|log| - 1])
      + match e
        case ByPositional(a, _, _, _, _, _) => {a}
        case ByOptional(many, _, _) => (set a | a in many)
        case Extra(_, _) => {}
  }

  lemma {:induction false} TilesAt(log: seq<Event>, k: nat, i: nat) returns (e: nat)
    requires Tiles(log, k) && i < k
    ensures e < |log| && log[e].start <= i < log[e].stop
    ensures forall f :: 0 <= f < |log| && f != e ==> !(log[f].start <= i < log[f].stop)
  {
    var last := log[|log| - 1];
    TilesBound(log[..|log| - 1], last.start);
    if i < last.start {
      e := TilesAt(log[..|log| - 1], last.start, i);
      forall f | 0 <= f < |log| && f != e ensures !(log[f].start <= i < log[f].stop) {
        if f < |log| - 1 { assert log[..|log| - 1][f] == log[f]; }
      }
    } else {
      e := |log| - 1;
      forall f | 0 <= f < |log| && f != e ensures !(log[f].start <= i < log[f].stop) {
        assert log[..|log| - 1][f] == log[f];
      }
    }
  }

  lemma {:induction false} TilesBound(log: seq<Event>, k: nat)
    requires Tiles(log, k)
    ensures forall f :: 0 <= f < |log| ==> log[f].start <= log[f].stop <= k
    ensures forall f, g :: 0 <= f < g < |log| ==> log[f].stop <= log[g].start
  {
    if log != [] {
      var init := log[..|log| - 1];
      TilesBound(init, log[|log| - 1].start);
      assert forall f :: 0 <= f < |log| - 1 ==> log[f] == init[f];
    }
  }

  lemma Append(log: seq<Event>, e: Event, args: seq<string>)
    ensures (log + [e])[..|log + [e]| - 1] == log
    ensures Tiles(log, e.start) && e.start <= e.stop ==> Tiles(log + [e], e.stop)
    ensures ExtrasOf(log + [e], args) ==
      ExtrasOf(log, args) + (if e.Extra? && e.start <= e.stop <= |args| then args[e.start..e.stop] else [])
    ensures PositionalsOf(log + [e]) == PositionalsOf(log) + (if e.ByPositional? then [e.action] else [])
    ensures SeenOf(log + [e]) == SeenOf(log)
      + match e
        case ByPositional(a, _, _, _, _, _) => {a}
        case ByOptional(many, _, _) => (set a | a in many)
        case Extra(_, _) => {}
  {
    assert (log + [e])[..|log + [e]| - 1] == log;
  }

  lemma SumStep(v: seq<nat>, k: nat)
    requires k < |v|
    ensures Sum(v[..k + 1]) == Sum(v[..k]) + v[k] && Sum(v[k..]) == v[k] + Sum(v[k + 1..])
  {
    assert v[k..][1..] == v[k + 1..];
    SumSnoc(v[..k], v[k]);
    assert v[..k] + [v[k]] == v[..k + 1];
  }

  lemma {:induction false} SumSnoc(v: seq<nat>, x: nat)
    ensures Sum(v + [x]) == Sum(v) + x
  {
    if v != [] {
      SumSnoc(v[1..], x);
      assert (v + [x])[1..] == v[1..] + [x];
    } else {
      assert ([] + [x])[1..] == [];
    }
  }

  // ----- bundled short options

  /** What becomes of an option with an explicit argument: an error, the argument
      is the option's own, or it is a further short option of the same string. */
  datatype Bundle =
    | Failed(error: Error)
    | TakesIt
    | Next(action: Action, optionString: string, explicit: Option<string>)

  function ExplicitStep(p: Parser, action: Action, optionString: string, explicit: string): (b: Bundle)
    ensures b.Next? && b.explicit.Some? ==> |b.explicit.value| < |explicit|
    ensures b.Next? ==> explicit != "" && |optionString| >= 2 && optionString[1] !in p.prefixChars
    ensures b.Next? ==> var short := [optionString[0], explicit[0]]; short in p.options && b.action == p.options[short]
  {
    var count := MatchArgument(action, "A");
    if count.None? then Failed(ArgumentError)
    else if count.value == 0 && |optionString| < 2 then Failed(IndexError)
    else if count.value == 0 && optionString[1] !in p.prefixChars then
      if explicit == "" then Failed(IndexError)
      else
        var short := [optionString[0], explicit[0]];
        if short !in p.options then Failed(ArgumentError)
        else Next(p.options[short], short, if |explicit| > 1 then Some(explicit[1..]) else None)
    else if count.value == 1 then TakesIt
    else Failed(ArgumentError)
  }

  /** The options of one string and the index after their arguments: each
      bundled flag takes nothing, the last option takes the attached argument or
      the plain arguments that follow. */
  function OptionRun(p: Parser, pattern: string, at: nat, action: Action, optionString: string,
                     explicit: Option<string>)
      : (r: Result<(seq<Action>, nat)>)
    requires at < |pattern|
    ensures r.Ok? ==> at < r.value.1 <= |pattern|
    decreases if explicit.Some? then |explicit.value| + 1 else 0
  {
    match explicit
    case None =>
      (match MatchArgument(action, pattern[at + 1..])
       case None => Err(ArgumentError)
       case Some(n) =>
         ArgumentFits(action, pattern[at + 1..]);
         Ok(([action], at + 1 + n)))
    case Some(x) =>
      match ExplicitStep(p, action, optionString, x)
      case Failed(e) => Err(e)
      case TakesIt => Ok(([action], at + 1))
      case Next(a, o, rest) =>
        Prepend([action], OptionRun(p, pattern, at, a, o, rest))
  }

  function Prepend(taken: seq<Action>, r: Result<(seq<Action>, nat)>): (q: Result<(seq<Action>, nat)>)
    ensures q.Ok? <==> r.Ok?
    ensures q.Ok? ==> q.value.1 == r.value.1
  {
    match r
    case Err(e) => Err(e)
    case Ok((more, stop)) => Ok((taken + more, stop))
  }

  lemma PrependStep(taken: seq<Action>, a: Action, r: Result<(seq<Action>, nat)>)
    ensures Prepend(taken, Prepend([a], r)) == Prepend(taken + [a], r)
    ensures Prepend([], r) == r
  {
    if r.Ok? {
      assert taken + ([a] + r.value.0) == taken + [a] + r.value.0;
      assert [] + r.value.0 == r.value.0;
    }
  }

  lemma PrependOne(taken: seq<Action>, a: Action, stop: nat)
    ensures Prepend(taken, Ok(([a], stop))) == Ok((taken + [a], stop))
  {}

  lemma ExplicitRun(p: Parser, pattern: string, at: nat, action: Action, optionString: string, x: string)
    requires at < |pattern|
    ensures OptionRun(p, pattern, at, action, optionString, Some(x)) ==
      match ExplicitStep(p, action, optionString, x)
      case Failed(e) => Err(e)
      case TakesIt => Ok(([action], at + 1))
      case Next(a, o, rest) => Prepend([action], OptionRun(p, pattern, at, a, o, rest))
  {}

  /** The loop of consume_optional over the options of one string. */
  method TakeOption(p: Parser, pattern: string, at: nat, first: Action, string0: string, explicit0: Option<string>)
      returns (r: Result<(seq<Action>, nat)>)
    requires at < |pattern|
    ensures r == OptionRun(p, pattern, at, first, string0, explicit0)
  {
    var action, optionString, explicit := first, string0, explicit0;
    var taken: seq<Action> := [];
    PrependStep([], first, OptionRun(p, pattern, at, first, string0, explicit0));
    while explicit.Some?
      invariant OptionRun(p, pattern, at, first, string0, explicit0)
        == Prepend(taken, OptionRun(p, pattern, at, action, optionString, explicit))
      decreases if explicit.Some? then |explicit.value| + 1 else 0
    {
      ExplicitRun(p, pattern, at, action, optionString, explicit.value);
      match ExplicitStep(p, action, optionString, explicit.value)
      case Failed(e) =>
        return Err(e);
      case TakesIt =>
        PrependOne(taken, action, at + 1);
        return Ok((taken + [action], at + 1));
      case Next(a, o, x) =>
        PrependStep(taken, action, OptionRun(p, pattern, at, a, o, x));
        taken := taken + [action];
        action, optionString, explicit := a, o, x;
    }
    var count := MatchArgument(action, pattern[at + 1..]);
    if count.None? { return Err(ArgumentError); }
    PrependOne(taken, action, at + 1 + count.value);
    return Ok((taken + [action], at + 1 + count.value));
  }

  // ----- bundles

  /** The option that a single short-option character stands for. */
  function Short(dash: char, c: char): string { [dash, c] }

  /** Every character names an option, and all but the last name flags, which take
      no arguments. */
  ghost predicate IsBundle(p: Parser, dash: char, chars: string) {
    && chars != ""
    && (forall i :: 0 <= i < |chars| ==> Short(dash, chars[i]) in p.options && chars[i] !in p.prefixChars)
    && (forall i :: 0 <= i < |chars| - 1 ==> IsFlag(p.options[Short(dash, chars[i])]))
  }

  predicate IsFlag(a: Action) { a.isOptional && a.nargs == Exactly(0) }

  /** A flag matches nothing, whatever follows. */
  lemma FlagTakesNothing(a: Action, s: string)
    requires IsFlag(a)
    ensures MatchArgument(a, s) == Some(0)
  {
    FirstEndIsMatch(NargsPattern(a), s);
    FlagPattern();
    FlagEnd(s);
  }

  lemma FlagPattern()
    ensures StripDashes(PlainPattern(Exactly(0))) == []
  {
    var items := [Star("-"), Star("-")];
    assert items[1..] == [Star("-")] && items[1..][1..] == [];
    assert StripDashes(items[1..]) == [] + StripDashes([]);
    assert StripDashes(items) == [] + StripDashes(items[1..]);
  }

  lemma FlagEnd(s: string)
    ensures FirstEnd([], s, 0) == Some(0)
  {
    NothingEnds(s, 0);
  }

  /** What the strings -x, -y, ... take one after another from index `at` on. */
  function Separate(p: Parser, pattern: string, at: nat, dash: char, chars: string): Result<(seq<Action>, nat)>
    requires at + |chars| <= |pattern| && chars != ""
    requires forall i :: 0 <= i < |chars| ==> Short(dash, chars[i]) in p.options
    decreases |chars|
  {
    var option := Short(dash, chars[0]);
    var first := OptionRun(p, pattern, at, p.options[option], option, None);
    if |chars| == 1 then first
    else
      match first
      case Err(e) => Err(e)
      case Ok((taken, stop)) =>
        if stop != at + 1 then Ok((taken, stop)) else Prepend(taken, Separate(p, pattern, at + 1, dash, chars[1..]))
  }

  /** The same result, n indices further on. */
  function Later(r: Result<(seq<Action>, nat)>, n: nat): Result<(seq<Action>, nat)> {
    match r case Err(e) => Err(e) case Ok((taken, stop)) => Ok((taken, stop + n))
  }

  lemma FlagAlone(p: Parser, pattern: string, at: nat, a: Action, option: string)
    requires at < |pattern| && IsFlag(a)
    ensures OptionRun(p, pattern, at, a, option, None) == Ok(([a], at + 1))
  {
    FlagTakesNothing(a, pattern[at + 1..]);
  }

  /** A flag in front of a bundle hands on to the next character. */
  lemma FlagFirst(p: Parser, dash: char, chars: string)
    requires IsBundle(p, dash, chars) && |chars| > 1
    ensures var next := Short(dash, chars[1]);
      ExplicitStep(p, p.options[Short(dash, chars[0])], Short(dash, chars[0]), chars[1..]) ==
        Next(p.options[next], next, if |chars| > 2 then Some(chars[2..]) else None)
  {
    FlagTakesNothing(p.options[Short(dash, chars[0])], "A");
    assert chars[1..][1..] == chars[2..];
    assert Short(dash, chars[0])[1] == chars[0] && Short(dash, chars[0])[0] == dash && chars[1..][0] == chars[1];
  }

  lemma SeparateStep(p: Parser, apart: string, from: nat, dash: char, chars: string)
    requires IsBundle(p, dash, chars) && |chars| > 1 && from + |chars| <= |apart|
    ensures Separate(p, apart, from, dash, chars) ==
      Prepend([p.options[Short(dash, chars[0])]], Separate(p, apart, from + 1, dash, chars[1..]))
  {
    FlagAlone(p, apart, from, p.options[Short(dash, chars[0])], Short(dash, chars[0]));
  }

  lemma BundleStep(p: Parser, pattern: string, at: nat, dash: char, chars: string)
    requires IsBundle(p, dash, chars) && |chars| > 1 && at < |pattern|
    ensures var option, next := Short(dash, chars[0]), Short(dash, chars[1]);
      OptionRun(p, pattern, at, p.options[option], option, Attached(chars)) ==
        Prepend([p.options[option]], OptionRun(p, pattern, at, p.options[next], next, Attached(chars[1..])))
  {
    FlagFirst(p, dash, chars);
    assert chars[1..][1..] == chars[2..];
  }

  lemma LaterPrepend(taken: seq<Action>, r: Result<(seq<Action>, nat)>, n: nat)
    ensures Later(Prepend(taken, r), n) == Prepend(taken, Later(r, n))
  {}

  /** What is attached to the first option of the characters. */
  function Attached(chars: string): Option<string> { if |chars| > 1 then Some(chars[1..]) else None }

  /** -xyz takes what -x -y -z take when the leading options are flags: the same
      options, with the same arguments after the last, or the same error. `apart`
      is the pattern with the string at index `at` replaced by one for each
      character, of which `from` - `at` are already done. */
  lemma {:induction false} BundleIsSeparate(p: Parser, pattern: string, apart: string, at: nat, from: nat,
                                               dash: char, chars: string)
    requires IsBundle(p, dash, chars) && at < |pattern| && |apart| == |pattern| + (from - at) + |chars| - 1
    requires at <= from && apart[from + |chars|..] == pattern[at + 1..]
    ensures var option := Short(dash, chars[0]);
      Separate(p, apart, from, dash, chars) ==
        Later(OptionRun(p, pattern, at, p.options[option], option, Attached(chars)), (from - at) + |chars| - 1)
    decreases |chars|
  {
    var option := Short(dash, chars[0]);
    if |chars| == 1 {
      LastAlone(p, pattern, apart, at, from, p.options[option], option);
    } else {
      var rest, next := chars[1..], Short(dash, chars[1]);
      SeparateStep(p, apart, from, dash, chars);
      BundleStep(p, pattern, at, dash, chars);
      BundleIsSeparate(p, pattern, apart, at, from + 1, dash, rest);
      LaterPrepend([p.options[option]], OptionRun(p, pattern, at, p.options[next], next, Attached(rest)),
                   (from - at) + |chars| - 1);
    }
  }

  /** The last option takes the same arguments at either place. */
  lemma LastAlone(p: Parser, pattern: string, apart: string, at: nat, from: nat, a: Action, option: string)
    requires at < |pattern| && at <= from < |apart| && apart[from + 1..] == pattern[at + 1..]
    ensures OptionRun(p, apart, from, a, option, None) == Later(OptionRun(p, pattern, at, a, option, None), from - at)
  {}

  /** The event is what the matching rules give at its place. */
  ghost predicate Justified(p: Parser, pattern: string, indices: map<nat, OptionTuple>, e: Event) {
    match e
    case ByPositional(action, start, stop, left, from, k) =>
      && from <= |pattern|
      && var counts := PartialFrom(left, pattern[from..], |left|);
      && k < |counts| && k < |left| && action == left[k]
      && start == from + Sum(counts[..k]) && stop == start + counts[k]
    case ByOptional(actions, start, stop) =>
      && start < |pattern| && start in indices && indices[start].action.Some?
      && var t := indices[start];
      OptionRun(p, pattern, start, t.action.value, t.optionString, t.explicit) == Ok((actions, stop))
    case Extra(start, stop) =>
      forall i :: start <= i < stop && i in indices ==> indices[i].action.None?
  }

  ghost predicate AllJustified(p: Parser, pattern: string, indices: map<nat, OptionTuple>, log: seq<Event>) {
    forall i {:trigger Justified(p, pattern, indices, log[i])} :: 0 <= i < |log| ==>
      Justified(p, pattern, indices, log[i])
  }

  lemma JustifiedMore(p: Parser, pattern: string, indices: map<nat, OptionTuple>, log: seq<Event>, e: Event)
    requires AllJustified(p, pattern, indices, log) && Justified(p, pattern, indices, e)
    ensures AllJustified(p, pattern, indices, log + [e])
  {
    var more := log + [e];
    forall i | 0 <= i < |more| ensures Justified(p, pattern, indices, more[i]) {
      if i < |log| { assert Justified(p, pattern, indices, log[i]); }
    }
  }

  lemma PositionalJustified(p: Parser, pattern: string, indices: map<nat, OptionTuple>,
                            left: seq<Action>, from: nat, counts: seq<nat>, k: nat, e: Event)
    requires from <= |pattern| && counts == PartialFrom(left, pattern[from..], |left|) && k < |counts| && k < |left|
    requires e == ByPositional(left[k], from + Sum(counts[..k]), from + Sum(counts[..k]) + counts[k], left, from, k)
    ensures Justified(p, pattern, indices, e)
  {}

  lemma RestStep(s: seq<Action>, k: nat, taken: seq<Action>, all: seq<Action>)
    requires k < |s| && taken + s[k..] == all
    ensures (taken + [s[k]]) + s[k + 1..] == all
  {
    assert s[k..] == [s[k]] + s[k + 1..];
  }

  // ----- a run as a function

  /** The least option index from `at` on. */
  function NextIndex(indices: map<nat, OptionTuple>, at: nat, n: nat): (r: Option<nat>)
    ensures r.Some? ==> at <= r.value < n && r.value in indices
    ensures r.Some? ==> forall i :: at <= i < r.value ==> i !in indices
    ensures r.None? ==> forall i :: at <= i < n ==> i !in indices
    decreases n - at
  {
    if at >= n then None else if at in indices then Some(at) else NextIndex(indices, at + 1, n)
  }

  /** The events of the positionals that match from index `from` on, the k-th and
      later ones; the k-th starts at `at`. */
  function PositionalEvents(left: seq<Action>, from: nat, counts: seq<nat>, k: nat, at: nat): seq<Event>
    requires k <= |counts| <= |left|
    decreases |counts| - k
  {
    if k == |counts| then []
    else
      [ByPositional(left[k], at, at + counts[k], left, from, k)]
      + PositionalEvents(left, from, counts, k + 1, at + counts[k])
  }

  function Push(events: seq<Event>, r: Result<seq<Event>>): Result<seq<Event>> {
    match r case Err(e) => Err(e) case Ok(more) => Ok(events + more)
  }

  /** The positionals taken at an index, the ones left, and the index after. */
  datatype Taken = Taken(events: seq<Event>, rest: seq<Action>, stop: nat)

  function Positionals(pattern: string, left: seq<Action>, at: nat): (t: Taken)
    requires at <= |pattern|
    ensures at <= t.stop <= |pattern|
  {
    var counts := PartialFrom(left, pattern[at..], |left|);
    PartialFits(left, pattern[at..], |left|);
    Taken(PositionalEvents(left, at, counts, 0, at), left[|counts|..], at + Sum(counts))
  }

  /** Everything that happens from index `at` on, with these positionals left:
      positionals before the next option, extras if none of them takes anything,
      the option, and at the end the positionals and extras after the last one. */
  function RunFrom(p: Parser, pattern: string, indices: map<nat, OptionTuple>, left: seq<Action>,
                   at: nat): Result<seq<Event>>
    requires at <= |pattern|
    decreases |pattern| - at, 1
  {
    var t := Positionals(pattern, left, at);
    match NextIndex(indices, at, |pattern|)
    case None => if t.rest != [] then Err(TooFew) else Ok(t.events + [Extra(t.stop, |pattern|)])
    case Some(next) =>
      if next == at then OptionFrom(p, pattern, indices, left, at)
      else AfterPositionals(p, pattern, indices, at, next, t)
  }

  function AfterPositionals(p: Parser, pattern: string, indices: map<nat, OptionTuple>, at: nat, next: nat,
                            t: Taken): Result<seq<Event>>
    requires at < next < |pattern| && next in indices && at <= t.stop <= |pattern|
    decreases |pattern| - at, 0
  {
    if t.stop > at then Push(t.events, RunFrom(p, pattern, indices, t.rest, t.stop))
    else Push(t.events + [Extra(at, next)], OptionFrom(p, pattern, indices, t.rest, next))
  }

  function OptionFrom(p: Parser, pattern: string, indices: map<nat, OptionTuple>, left: seq<Action>,
                      at: nat): Result<seq<Event>>
    requires at < |pattern| && at in indices
    decreases |pattern| - at, 0
  {
    var t := indices[at];
    if t.action.None? then Push([Extra(at, at + 1)], RunFrom(p, pattern, indices, left, at + 1))
    else
      match OptionRun(p, pattern, at, t.action.value, t.optionString, t.explicit)
      case Err(e) => Err(e)
      case Ok((actions, stop)) => Push([ByOptional(actions, at, stop)], RunFrom(p, pattern, indices, left, stop))
  }

  predicate AllRequiredSeen(actions: seq<Action>, seen: set<Action>) {
    forall i :: 0 <= i < |actions| && actions[i].required ==> actions[i] in seen
  }

  /** The whole run: the record, or the error raised. */
  function Outcome(p: Parser, pattern: string, indices: map<nat, OptionTuple>,
                   positionals: seq<Action>): Result<seq<Event>> {
    match RunFrom(p, pattern, indices, positionals, 0)
    case Err(e) => Err(e)
    case Ok(log) => if AllRequiredSeen(p.actions, SeenOf(log)) then Ok(log) else Err(MissingRequired)
  }

  lemma PushTwice(a: seq<Event>, b: seq<Event>, r: Result<seq<Event>>)
    ensures Push(a, Push(b, r)) == Push(a + b, r) && Push([], r) == r
  {
    if r.Ok? {
      assert a + (b + r.value) == (a + b) + r.value;
      assert [] + r.value == r.value;
    }
  }

  lemma EventsStep(all: seq<Event>, log: seq<Event>, left: seq<Action>, from: nat, counts: seq<nat>, k: nat, at: nat,
                   e: Event)
    requires k < |counts| <= |left| && e == ByPositional(left[k], at, at + counts[k], left, from, k)
    requires all == log + PositionalEvents(left, from, counts, k, at)
    ensures all == (log + [e]) + PositionalEvents(left, from, counts, k + 1, e.stop)
  {
    var rest := PositionalEvents(left, from, counts, k + 1, e.stop);
    assert log + ([e] + rest) == (log + [e]) + rest;
  }

  // ----- the engine

  /** The state the closures of _parse_known_args share, and a ghost record of
      who took which arguments. */
  class Engine {
    const p: Parser
    const args: seq<string>
    const pattern: string
    const indices: map<nat, OptionTuple>
    const allPositionals: seq<Action>
    var positionals: seq<Action>
    var extras: seq<string>
    var seen: set<Action>
    ghost var log: seq<Event>

    /** The record accounts for the arguments before `at`, for the extras and for
        the actions taken. */
    ghost predicate Upto(at: nat)
      reads this
    {
      && at <= |args| && |pattern| == |args| && (forall i :: i in indices ==> i < |args|)
      && Tiles(log, at)
      && extras == ExtrasOf(log, args)
      && PositionalsOf(log) + positionals == allPositionals
      && seen == SeenOf(log)
      && AllJustified(p, pattern, indices, log)
    }

    constructor (p: Parser, args: seq<string>, pattern: string, indices: map<nat, OptionTuple>,
                 positionals: seq<Action>)
      requires |pattern| == |args| && forall i :: i in indices ==> i < |args|
      ensures Upto(0) && this.p == p && this.args == args && this.pattern == pattern && this.indices == indices
      ensures this.allPositionals == positionals && this.positionals == positionals && log == []
    {
      this.p, this.args, this.pattern, this.indices := p, args, pattern, indices;
      this.positionals, this.allPositionals := positionals, positionals;
      extras, seen, log := [], {}, [];
    }

    /** Arguments that nobody takes. */
    method AddExtras(start: nat, stop: nat)
      requires Upto(start) && start <= stop <= |args|
      requires Justified(p, pattern, indices, Extra(start, stop))
      modifies this`extras, this`log
      ensures Upto(stop) && log == old(log) + [Extra(start, stop)]
    {
      Append(log, Extra(start, stop), args);
      JustifiedMore(p, pattern, indices, log, Extra(start, stop));
      extras := extras + args[start..stop];
      log := log + [Extra(start, stop)];
    }

    /** consume_optional at an option string: the index after its arguments. */
    method ConsumeOptional(startIndex: nat) returns (r: Result<nat>)
      requires Upto(startIndex) && startIndex in indices
      modifies this`extras, this`seen, this`log
      ensures r.Ok? ==> startIndex < r.value && Upto(r.value)
      ensures startIndex < |pattern| && Push(old(log), OptionFrom(p, pattern, indices, positionals, startIndex)) ==
        match r case Err(e) => Err(e) case Ok(stop) => Push(log, RunFrom(p, pattern, indices, positionals, stop))
    {
      var t := indices[startIndex];
      if t.action.None? {
        PushTwice(log, [Extra(startIndex, startIndex + 1)], RunFrom(p, pattern, indices, positionals, startIndex + 1));
        AddExtras(startIndex, startIndex + 1);
        return Ok(startIndex + 1);
      }
      var taken := TakeOption(p, pattern, startIndex, t.action.value, t.optionString, t.explicit);
      if taken.Err? { return Err(taken.error); }
      var (actions, stop) := taken.value;
      PushTwice(log, [ByOptional(actions, startIndex, stop)], RunFrom(p, pattern, indices, positionals, stop));
      TakeOptionals(actions, startIndex, stop);
      return Ok(stop);
    }

    /** take_action for the options of one string. */
    method TakeOptionals(actions: seq<Action>, start: nat, stop: nat)
      requires Upto(start) && start <= stop <= |args|
      requires Justified(p, pattern, indices, ByOptional(actions, start, stop))
      modifies this`seen, this`log
      ensures Upto(stop) && log == old(log) + [ByOptional(actions, start, stop)]
    {
      Append(log, ByOptional(actions, start, stop), args);
      JustifiedMore(p, pattern, indices, log, ByOptional(actions, start, stop));
      seen := seen + set a | a in actions;
      log := log + [ByOptional(actions, start, stop)];
    }

    /** take_action for one positional. */
    method TakePositional(ghost e: Event, action: Action)
      requires e.ByPositional? && e.action == action && e.start <= e.stop
      requires Tiles(log, e.start) && AllJustified(p, pattern, indices, log) && Justified(p, pattern, indices, e)
      requires extras == ExtrasOf(log, args) && seen == SeenOf(log)
      modifies this`seen, this`log
      ensures Tiles(log, e.stop) && AllJustified(p, pattern, indices, log)
      ensures extras == ExtrasOf(log, args) && seen == SeenOf(log)
      ensures PositionalsOf(log) == PositionalsOf(old(log)) + [action] && log == old(log) + [e]
    {
      Append(log, e, args);
      JustifiedMore(p, pattern, indices, log, e);
      log := log + [e];
      seen := seen + {action};
    }

    /** consume_positionals: the index after the arguments taken. */
    method ConsumePositionals(startIndex: nat) returns (stop: nat)
      requires Upto(startIndex)
      modifies this`positionals, this`seen, this`log
      ensures startIndex <= stop && Upto(stop)
      ensures startIndex <= |pattern| && var t := Positionals(pattern, old(positionals), startIndex);
        stop == t.stop && positionals == t.rest && log == old(log) + t.events
    {
      var counts := MatchArgumentsPartial(positionals, pattern[startIndex..]);
      PartialFits(positionals, pattern[startIndex..], |positionals|);
      stop := startIndex;
      ghost var before := positionals;
      ghost var all := log + PositionalEvents(before, startIndex, counts, 0, startIndex);
      for k := 0 to |counts|
        invariant stop == startIndex + Sum(counts[..k]) && stop + Sum(counts[k..]) <= |args|
        invariant Tiles(log, stop) && extras == ExtrasOf(log, args) && seen == SeenOf(log)
        invariant AllJustified(p, pattern, indices, log)
        invariant all == log + PositionalEvents(before, startIndex, counts, k, stop)
        invariant positionals == before && PositionalsOf(log) + before[k..] == allPositionals
      {
        SumStep(counts, k);
        RestStep(before, k, PositionalsOf(log), allPositionals);
        ghost var e := ByPositional(positionals[k], stop, stop + counts[k], before, startIndex, k);
        EventsStep(all, log, before, startIndex, counts, k, stop, e);
        PositionalJustified(p, pattern, indices, before, startIndex, counts, k, e);
        TakePositional(e, positionals[k]);
        stop := stop + counts[k];
      }
      assert counts[..|counts|] == counts;
      positionals := positionals[|counts|..];
    }

    /** The least option index not before `start`. */
    method NextOption(start: nat, max: nat) returns (next: nat)
      requires max in indices && start <= max
      ensures next in indices && start <= next <= max
      ensures forall i :: i in indices && i >= start ==> next <= i
    {
      next := start;
      while next !in indices
        invariant start <= next <= max
        invariant forall i :: i in indices && i >= start ==> next <= i
        decreases max - next
      {
        next := next + 1;
      }
    }

    /** The greatest option index, or -1. */
    method LastOption() returns (max: int)
      requires |pattern| == |args|
      ensures -1 <= max < |args| && (max >= 0 ==> max in indices)
      ensures forall i :: i in indices && i < |args| ==> i <= max
    {
      max := -1;
      for i := 0 to |args|
        invariant -1 <= max < i && (max >= 0 ==> max in indices)
        invariant forall j :: j in indices && j < i ==> j <= max
      {
        if i in indices { max := i; }
      }
    }

    /** What is still to come after the events so far. */
    ghost function Remaining(at: nat): Result<seq<Event>>
      requires at <= |pattern|
      reads this
    {
      Push(log, RunFrom(p, pattern, indices, positionals, at))
    }

    /** One pass of the main loop: the index after what it consumed. */
    method OnePass(startIndex: nat, max: nat) returns (r: Result<nat>)
      requires Upto(startIndex) && startIndex <= max && max in indices
      modifies this
      ensures r.Ok? ==> startIndex < r.value && Upto(r.value)
      ensures startIndex <= |pattern| && old(Remaining(startIndex)) ==
        match r case Err(e) => Err(e) case Ok(next) => Remaining(next)
    {
      var at := startIndex;
      var next := NextOption(at, max);
      NextIs(indices, at, |pattern|, next);
      if at != next {
        PositionalsStep(p, pattern, indices, log, positionals, at, next, Positionals(pattern, positionals, at));
        var end := ConsumePositionals(at);
        if end > at { return Ok(end); }
      }
      if at !in indices {
        AddExtras(at, next);
        at := next;
      }
      r := ConsumeOptional(at);
    }

    /** The main loop: the index after the last option and its arguments. */
    method MainLoop() returns (r: Result<nat>)
      requires Upto(0)
      modifies this
      ensures r.Ok? ==> Upto(r.value) && NextIndex(indices, r.value, |pattern|) == None
      ensures old(Remaining(0)) == match r case Err(e) => Err(e) case Ok(at) => Remaining(at)
    {
      var startIndex := 0;
      var max := LastOption();
      while startIndex <= max
        invariant Upto(startIndex) && Remaining(startIndex) == old(Remaining(0))
        decreases |args| - startIndex
      {
        var next := OnePass(startIndex, max);
        if next.Err? { return Err(next.error); }
        startIndex := next.value;
      }
      NextIsNone(indices, startIndex, |pattern|);
      return Ok(startIndex);
    }

    /** Whether every required action was seen. */
    method CheckRequired() returns (ok: bool)
      ensures ok == AllRequiredSeen(p.actions, seen)
    {
      for i := 0 to |p.actions|
        invariant forall j :: 0 <= j < i && p.actions[j].required ==> p.actions[j] in seen
      {
        if p.actions[i] !in seen && p.actions[i].required { return false; }
      }
      return true;
    }

    /** The main loop and what follows it: the outcome of the run, in which every
        argument and every positional is accounted for. */
    method Run() returns (r: Result<()>)
      requires Upto(0) && log == [] && positionals == allPositionals
      modifies this
      ensures r.Ok? ==> Upto(|args|) && positionals == []
      ensures match Outcome(p, pattern, indices, allPositionals)
        case Err(e) => r == Err(e)
        case Ok(l) => r == Ok(()) && log == l
    {
      PushTwice([], [], RunFrom(p, pattern, indices, allPositionals, 0));
      var startIndex := MainLoop();
      if startIndex.Err? { return Err(startIndex.error); }
      Finish(startIndex.value);
      if positionals != [] { return Err(TooFew); }
      var complete := CheckRequired();
      if !complete { return Err(MissingRequired); }
      return Ok(());
    }

    /** The positionals and extras after the last option. */
    method Finish(startIndex: nat)
      requires Upto(startIndex) && NextIndex(indices, startIndex, |pattern|) == None
      modifies this
      ensures Upto(|args|)
      ensures startIndex <= |pattern| &&
        old(Remaining(startIndex)) == if positionals == [] then Ok(log) else Err(TooFew)
    {
      ghost var log0, t := log, Positionals(pattern, positionals, startIndex);
      var stopIndex := ConsumePositionals(startIndex);
      assert (log0 + t.events) + [Extra(stopIndex, |args|)] == log0 + (t.events + [Extra(stopIndex, |args|)]);
      AddExtras(stopIndex, |args|);
    }
  }

  /** A pass that tries positionals before the option at `next`. */
  lemma PositionalsStep(p: Parser, pattern: string, indices: map<nat, OptionTuple>,
                        log: seq<Event>, left: seq<Action>, at: nat, next: nat, t: Taken)
    requires at <= |pattern| && NextIndex(indices, at, |pattern|) == Some(next) && next != at
    requires t == Positionals(pattern, left, at)
    ensures Push(log, RunFrom(p, pattern, indices, left, at)) ==
      if t.stop > at then Push(log + t.events, RunFrom(p, pattern, indices, t.rest, t.stop))
      else Push(log + t.events + [Extra(at, next)], OptionFrom(p, pattern, indices, t.rest, next))
  {
    assert RunFrom(p, pattern, indices, left, at) == AfterPositionals(p, pattern, indices, at, next, t);
    PushPositionals(p, pattern, indices, log, at, next, t);
  }

  lemma PushPositionals(p: Parser, pattern: string, indices: map<nat, OptionTuple>, log: seq<Event>, at: nat,
                        next: nat, t: Taken)
    requires at < next < |pattern| && next in indices && at <= t.stop <= |pattern|
    ensures Push(log, AfterPositionals(p, pattern, indices, at, next, t)) ==
      if t.stop > at then Push(log + t.events, RunFrom(p, pattern, indices, t.rest, t.stop))
      else Push(log + t.events + [Extra(at, next)], OptionFrom(p, pattern, indices, t.rest, next))
  {
    if t.stop > at {
      PushTwice(log, t.events, RunFrom(p, pattern, indices, t.rest, t.stop));
    } else {
      PushTwice(log, t.events + [Extra(at, next)], OptionFrom(p, pattern, indices, t.rest, next));
      assert log + (t.events + [Extra(at, next)]) == (log + t.events) + [Extra(at, next)];
    }
  }

  lemma {:induction false} NextIs(indices: map<nat, OptionTuple>, at: nat, n: nat, next: nat)
    requires at <= next < n && next in indices && forall i :: i in indices && i >= at ==> next <= i
    ensures NextIndex(indices, at, n) == Some(next)
    decreases n - at
  {
    if at < next { NextIs(indices, at + 1, n, next); }
  }

  lemma {:induction false} NextIsNone(indices: map<nat, OptionTuple>, at: nat, n: nat)
    requires forall i :: i in indices ==> i < at || i >= n
    ensures NextIndex(indices, at, n) == None
    decreases n - at
  {
    if at < n { NextIsNone(indices, at + 1, n); }
  }

  function PositionalActions(actions: seq<Action>): seq<Action> {
    if actions == [] then []
    else (if actions[0].isOptional then [] else [actions[0]]) + PositionalActions(actions[1..])
  }

  /** A record of who took which arguments that accounts for a run: each argument
      is taken exactly once and in order, the extras are the arguments taken by
      nobody, every positional took its arguments in declaration order, every
      required action was seen, and each event is what the matching rules give. */
  ghost predicate Explains(p: Parser, args: seq<string>, extras: seq<string>, log: seq<Event>) {
    && Tiles(log, |args|) && extras == ExtrasOf(log, args)
    && PositionalsOf(log) == PositionalActions(p.actions)
    && (forall a :: a in p.actions && a.required ==> a in SeenOf(log))
    && exists pattern, indices :: IsPattern(p, args, pattern, indices) && AllJustified(p, pattern, indices, log)
  }

  /** r is what the matching rules make of this pattern: an error, or the extras
      of a run that explains every argument. */
  ghost predicate IsResult(p: Parser, args: seq<string>, pattern: string, indices: map<nat, OptionTuple>,
                           r: Result<seq<string>>) {
    match Outcome(p, pattern, indices, PositionalActions(p.actions))
    case Err(e) => r == Err(e)
    case Ok(log) => r == Ok(ExtrasOf(log, args)) && Explains(p, args, r.value, log)
  }

  /** _parse_known_args: the extras of the run, or its error. */
  method ParseKnownArgs(p: Parser, args: seq<string>) returns (r: Result<seq<string>>)
    ensures exists pattern, indices :: IsPattern(p, args, pattern, indices) && IsResult(p, args, pattern, indices, r)
  {
    var pattern, indices := BuildPattern(p, args);
    var engine := new Engine(p, args, pattern, indices, PositionalActions(p.actions));
    var ok := engine.Run();
    r := if ok.Err? then Err(ok.error) else Ok(engine.extras);
    assert ok.Ok? ==> Explains(p, args, engine.extras, engine.log);
    assert IsResult(p, args, pattern, indices, r);
  }

  /** There is only one pattern. */
  lemma PatternUnique(p: Parser, args: seq<string>, s: string, t: string,
                      a: map<nat, OptionTuple>, b: map<nat, OptionTuple>)
    requires IsPattern(p, args, s, a) && IsPattern(p, args, t, b)
    ensures s == t && a == b
  {
    forall i: nat | i < |args| ensures s[i] == t[i] && (i in a <==> i in b) && (i in a ==> a[i] == b[i]) {}
  }
}
