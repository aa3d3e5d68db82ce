/** Matching argument counts: the regular expressions built from nargs, run by a
    backtracking matcher on the pattern of argument kinds, and what the first
    match is. */
module ArgMatch {
  import opened Wrappers

  // ----- the fragment of regular expressions in use

  /** One character of a class, any number of them (greedy), or at most one
      (greedy). */
  datatype Item = One(cls: string) | Star(cls: string) | Opt(cls: string)

  /** The ends of all matches of the items from position i on, in the order in
      which a backtracking matcher tries them. */
  function Ends(items: seq<Item>, s: string, i: nat): seq<nat>
    requires i <= |s|
    decreases |items|, |s| - i
  {
    if items == [] then [i]
    else
      var hit := i < |s| && s[i] in items[0].cls;
      match items[0]
      case One(_) => if hit then Ends(items[1..], s, i + 1) else []
      case Star(_) => (if hit then Ends(items, s, i + 1) else []) + Ends(items[1..], s, i)
      case Opt(_) => (if hit then Ends(items[1..], s, i + 1) else []) + Ends(items[1..], s, i)
  }

  lemma {:induction false} EndsInRange(items: seq<Item>, s: string, i: nat)
    requires i <= |s|
    ensures forall k :: 0 <= k < |Ends(items, s, i)| ==> i <= Ends(items, s, i)[k] <= |s|
    decreases |items|, |s| - i
  {
    if items != [] {
      EndsInRange(items[1..], s, i);
      if i < |s| {
        EndsInRange(items[1..], s, i + 1);
        if items[0].Star? { EndsInRange(items, s, i + 1); }
      }
    }
  }

  /** The lengths of the groups in the first match, each group tried at its ends
      in order; None when nothing matches. */
  function FirstMatch(groups: seq<seq<Item>>, s: string, i: nat): Option<seq<nat>>
    requires i <= |s|
    decreases |groups|, 0
  {
    if groups == [] then Some([])
    else
      EndsInRange(groups[0], s, i);
      TryEnds(Ends(groups[0], s, i), groups[1..], s, i)
  }

  function TryEnds(ends: seq<nat>, rest: seq<seq<Item>>, s: string, i: nat): Option<seq<nat>>
    requires i <= |s| && forall k :: 0 <= k < |ends| ==> i <= ends[k] <= |s|
    decreases |rest| + 1, 0, |ends|
  {
    if ends == [] then None
    else
      match FirstMatch(rest, s, ends[0])
      case Some(v) => Some([ends[0] - i] + v)
      case None => TryEnds(ends[1..], rest, s, i)
  }

  // ----- nargs

  /** nargs of an action: absent, '?', '*', '+', '...', 'A...' or a number. */
  datatype Nargs = Single | Optional | ZeroOrMore | OneOrMore | Remainder | Parser | Exactly(n: nat)

  /** An action; it is an optional if it has option strings. */
  datatype Action = Action(name: string, nargs: Nargs, isOptional: bool, required: bool)

  /** n times 'A-*'. */
  function Repeated(n: nat): seq<Item> {
    if n == 0 then [] else [One("A")] + ([Star("-")] + Repeated(n - 1))
  }

  function PlainPattern(nargs: Nargs): seq<Item> {
    match nargs
    case Single => [Star("-"), One("A"), Star("-")]
    case Optional => [Star("-"), Opt("A"), Star("-")]
    case ZeroOrMore => [Star("-"), Star("A-")]
    case OneOrMore => [Star("-"), One("A"), Star("A-")]
    case Remainder => [Star("-AO")]
    case Parser => [Star("-"), One("A"), Star("-AO")]
    case Exactly(n) => if n == 0 then [Star("-"), Star("-")] else [Star("-")] + Repeated(n)
  }

  function WithoutDash(cls: string): string {
    if cls == "" then "" else (if cls[0] == '-' then "" else [cls[0]]) + WithoutDash(cls[1..])
  }

  /** The pattern of an optional, where '--' is not allowed. */
  function StripDashes(items: seq<Item>): seq<Item> {
    if items == [] then []
    else (if items[0] == Star("-") then [] else [items[0].(cls := WithoutDash(items[0].cls))]) + StripDashes(items[1..])
  }

  /** _get_nargs_pattern. */
  function NargsPattern(a: Action): seq<Item> {
    if a.isOptional then StripDashes(PlainPattern(a.nargs)) else PlainPattern(a.nargs)
  }

  function Patterns(actions: seq<Action>): (p: seq<seq<Item>>)
    ensures |p| == |actions| && forall i :: 0 <= i < |p| ==> p[i] == NargsPattern(actions[i])
  {
    if actions == [] then [] else [NargsPattern(actions[0])] + Patterns(actions[1..])
  }

  /** _match_argument. None stands for the ArgumentError. */
  function MatchArgument(a: Action, s: string): Option<nat> {
    match FirstMatch([NargsPattern(a)], s, 0)
    case None => None
    case Some(v) => if v == [] then None else Some(v[0])
  }

  /** The longest prefix of the first k actions that matches. */
  function PartialFrom(actions: seq<Action>, s: string, k: nat): seq<nat>
    requires k <= |actions|
  {
    if k == 0 then []
    else
      match FirstMatch(Patterns(actions[..k]), s, 0)
      case Some(v) => v
      case None => PartialFrom(actions, s, k - 1)
  }

  /** _match_arguments_partial. */
  method MatchArgumentsPartial(actions: seq<Action>, s: string) returns (r: seq<nat>)
    ensures r == PartialFrom(actions, s, |actions|)
  {
    var i := |actions|;
    while i > 0
      invariant 0 <= i <= |actions| && PartialFrom(actions, s, |actions|) == PartialFrom(actions, s, i)
    {
      var m := FirstMatch(Patterns(actions[..i]), s, 0);
      if m.Some? { return m.value; }
      i := i - 1;
    }
    return [];
  }

  // ----- what any match consumes

  function Sum(v: seq<nat>): nat {
    if v == [] then 0 else v[0] + Sum(v[1..])
  }

  lemma {:induction false} MatchFits(groups: seq<seq<Item>>, s: string, i: nat)
    requires i <= |s| && FirstMatch(groups, s, i).Some?
    ensures |FirstMatch(groups, s, i).value| == |groups| && i + Sum(FirstMatch(groups, s, i).value) <= |s|
    decreases |groups|, 0
  {
    if groups != [] {
      EndsInRange(groups[0], s, i);
      TryFits(Ends(groups[0], s, i), groups[1..], s, i);
    }
  }

  lemma {:induction false} TryFits(ends: seq<nat>, rest: seq<seq<Item>>, s: string, i: nat)
    requires i <= |s| && forall k :: 0 <= k < |ends| ==> i <= ends[k] <= |s|
    requires TryEnds(ends, rest, s, i).Some?
    ensures |TryEnds(ends, rest, s, i).value| == |rest| + 1 && i + Sum(TryEnds(ends, rest, s, i).value) <= |s|
    decreases |rest| + 1, 0, |ends|
  {
    var m := FirstMatch(rest, s, ends[0]);
    if m.Some? {
      MatchFits(rest, s, ends[0]);
      assert ([ends[0] - i] + m.value)[1..] == m.value;
    } else {
      TryFits(ends[1..], rest, s, i);
    }
  }

  /** The counts returned are for the leading actions and never consume more
      than there is. */
  lemma {:induction false} PartialFits(actions: seq<Action>, s: string, k: nat)
    requires k <= |actions|
    ensures |PartialFrom(actions, s, k)| <= k && Sum(PartialFrom(actions, s, k)) <= |s|
  {
    if k > 0 {
      var m := FirstMatch(Patterns(actions[..k]), s, 0);
      if m.Some? { MatchFits(Patterns(actions[..k]), s, 0); } else { PartialFits(actions, s, k - 1); }
    }
  }

  lemma ArgumentFits(a: Action, s: string)
    requires MatchArgument(a, s).Some?
    ensures MatchArgument(a, s).value <= |s|
  {
    MatchFits([NargsPattern(a)], s, 0);
  }

  // ----- how many arguments an action takes

  /** How few and how many arguments nargs allows; None is no upper bound. */
  function Least(nargs: Nargs): nat {
    match nargs
    case Single => 1
    case OneOrMore => 1
    case Parser => 1
    case Exactly(n) => n
    case _ => 0
  }

  function Most(nargs: Nargs): Option<nat> {
    match nargs
    case Single => Some(1)
    case Optional => Some(1)
    case Exactly(n) => Some(n)
    case _ => None
  }

  predicate Allows(nargs: Nargs, count: nat) {
    Least(nargs) <= count && (Most(nargs).Some? ==> count <= Most(nargs).value)
  }

  predicate Counted(nargs: Nargs) { !nargs.Remainder? && !nargs.Parser? }

  lemma NothingEnds(s: string, i: nat)
    requires i <= |s|
    ensures Ends([], s, i) == [i]
  {}

  /** u is v or is smaller at the first place where they differ. */
  predicate LexLeq(u: seq<nat>, v: seq<nat>)
    requires |u| == |v|
  {
    u == [] || u[0] < v[0] || (u[0] == v[0] && LexLeq(u[1..], v[1..]))
  }

  // ----- optionals

  lemma StrippedDash()
    ensures WithoutDash("A-") == "A" && WithoutDash("A") == "A"
  {
    assert WithoutDash("") == "";
    assert WithoutDash("-") == "" + WithoutDash("");
    assert "A-"[1..] == "-" && "A"[1..] == "" && "-"[1..] == "";
    assert WithoutDash("A-") == ['A'] + WithoutDash("-");
  }

  function Ones(n: nat): seq<Item> { if n == 0 then [] else [One("A")] + Ones(n - 1) }

  lemma {:induction false} StrippedRepeated(n: nat)
    ensures StripDashes(Repeated(n)) == Ones(n)
  {
    if n > 0 {
      StrippedRepeated(n - 1);
      StrippedDash();
      var rest := Repeated(n - 1);
      assert ([One("A")] + ([Star("-")] + rest))[1..] == [Star("-")] + rest;
      assert ([Star("-")] + rest)[1..] == rest;
      assert StripDashes([Star("-")] + rest) == [] + StripDashes(rest);
    }
  }

  lemma StripStep(item: Item, rest: seq<Item>)
    ensures StripDashes([item] + rest) ==
      (if item == Star("-") then [] else [item.(cls := WithoutDash(item.cls))]) + StripDashes(rest)
  {
    assert ([item] + rest)[1..] == rest;
  }

  /** What the dash-free patterns are. */
  lemma StrippedPatterns(nargs: Nargs)
    requires Counted(nargs)
    ensures StripDashes(PlainPattern(nargs)) == match nargs
      case Single => [One("A")]
      case Optional => [Opt("A")]
      case ZeroOrMore => [Star("A")]
      case OneOrMore => [One("A"), Star("A")]
      case Exactly(n) => Ones(n)
      case _ => []
  {
    StrippedDash();
    assert StripDashes([]) == [];
    var dash := [Star("-")];
    assert dash == dash + [];
    StripStep(Star("-"), []);
    match nargs
    case Single =>
      assert PlainPattern(nargs) == [Star("-")] + ([One("A")] + dash);
      StripStep(Star("-"), [One("A")] + dash);
      StripStep(One("A"), dash);
    case Optional =>
      assert PlainPattern(nargs) == [Star("-")] + ([Opt("A")] + dash);
      StripStep(Star("-"), [Opt("A")] + dash);
      StripStep(Opt("A"), dash);
    case ZeroOrMore =>
      assert PlainPattern(nargs) == [Star("-")] + ([Star("A-")] + []);
      StripStep(Star("-"), [Star("A-")] + []);
      StripStep(Star("A-"), []);
    case OneOrMore =>
      assert PlainPattern(nargs) == [Star("-")] + ([One("A")] + ([Star("A-")] + []));
      StripStep(Star("-"), [One("A")] + ([Star("A-")] + []));
      StripStep(One("A"), [Star("A-")] + []);
      StripStep(Star("A-"), []);
    case Exactly(n) =>
      StrippedRepeated(n);
      if n == 0 {
        assert PlainPattern(nargs) == [Star("-")] + dash;
        StripStep(Star("-"), dash);
      } else {
        StripStep(Star("-"), Repeated(n));
      }
  }

  /** The first end tried, if any. */
  function FirstEnd(items: seq<Item>, s: string, i: nat): Option<nat>
    requires i <= |s|
  {
    var e := Ends(items, s, i);
    if e == [] then None else Some(e[0])
  }

  lemma FirstEndIsMatch(items: seq<Item>, s: string)
    ensures FirstMatch([items], s, 0) == match FirstEnd(items, s, 0) case None => None case Some(e) => Some([e])
  {
    var ends := Ends(items, s, 0);
    EndsInRange(items, s, 0);
    assert [items][1..] == [];
    assert FirstMatch([], s, 0) == Some([]);
    if ends != [] {
      assert FirstMatch([], s, ends[0]) == Some([]);
      assert [ends[0] - 0] + [] == [ends[0]];
    }
    assert FirstMatch([items], s, 0) == TryEnds(ends, [], s, 0);
  }
}
