/** Which arguments an action's pattern matches, and which of all possible matches
    is the first: for every nargs and every pattern of argument kinds. */
module ArgLanguage {
  import opened Wrappers
  import opened ArgMatch

  // ----- the meaning of nargs

  predicate AllIn(s: string, i: nat, e: nat, kinds: string)
    requires e <= |s|
  {
    forall k :: i <= k < e ==> s[k] in kinds
  }

  /** The plain arguments among those from i to e. */
  function CountA(s: string, i: nat, e: nat): nat
    requires e <= |s|
    decreases e - i
  {
    if i >= e then 0 else (if s[i] == 'A' then 1 else 0) + CountA(s, i + 1, e)
  }

  /** The arguments from i to e are such as the action takes: nargs bounds the number
      of plain ones; `...` takes options too, and `A...` does after a plain argument.
      Only a positional takes the mark `--` as well. */
  ghost predicate Speaks(a: Action, s: string, i: nat, e: nat) {
    && i <= e <= |s|
    && var mark := if a.isOptional then "" else "-";
    match a.nargs
    case Remainder => AllIn(s, i, e, "AO" + mark)
    case Parser => AllIn(s, i, e, "AO" + mark) && exists m :: i <= m < e && s[m] == 'A' && AllIn(s, i, m, mark)
    case _ => AllIn(s, i, e, "A" + mark) && Allows(a.nargs, CountA(s, i, e))
  }

  // ----- ends

  lemma EndsStep(item: Item, rest: seq<Item>, s: string, i: nat)
    requires i <= |s|
    ensures var hit := i < |s| && s[i] in item.cls;
      Ends([item] + rest, s, i) == match item
        case One(_) => if hit then Ends(rest, s, i + 1) else []
        case Star(_) => (if hit then Ends([item] + rest, s, i + 1) else []) + Ends(rest, s, i)
        case Opt(_) => (if hit then Ends(rest, s, i + 1) else []) + Ends(rest, s, i)
  {
    assert ([item] + rest)[1..] == rest;
  }

  lemma EndsOne(item: Item, s: string, i: nat)
    requires i <= |s|
    ensures var hit := i < |s| && s[i] in item.cls;
      Ends([item], s, i) == match item
        case One(_) => if hit then [i + 1] else []
        case Star(_) => (if hit then Ends([item], s, i + 1) else []) + [i]
        case Opt(_) => (if hit then [i + 1] else []) + [i]
  {
    assert [item] + [] == [item];
    EndsStep(item, [], s, i);
    NothingEnds(s, i);
    if i < |s| { NothingEnds(s, i + 1); }
  }

  ghost predicate EndsAt(items: seq<Item>, s: string, j: nat, e: nat) { j <= |s| && e in Ends(items, s, j) }

  lemma StarMore(cls: string, s: string, i: nat, e: nat)
    requires i <= |s|
    ensures EndsAt([Star(cls)], s, i, e) <==>
      e == i || (i < |s| && s[i] in cls && EndsAt([Star(cls)], s, i + 1, e))
  {
    EndsOne(Star(cls), s, i);
  }

  ghost predicate StarStep(has: nat -> bool, cls: string, s: string, j: nat, e: nat) {
    has(j) <==> e == j || (j < |s| && s[j] in cls && has(j + 1))
  }

  lemma {:induction false} StarRun(has: nat -> bool, cls: string, s: string, i: nat, e: nat)
    requires i <= |s|
    requires forall j: nat :: i <= j <= |s| ==> StarStep(has, cls, s, j, e)
    ensures has(i) <==> i <= e <= |s| && AllIn(s, i, e, cls)
    decreases |s| - i
  {
    assert StarStep(has, cls, s, i, e);
    if i < |s| { StarRun(has, cls, s, i + 1, e); }
  }

  /** A star ends after any number of characters of its class. */
  lemma StarExact(cls: string, s: string, i: nat, e: nat)
    requires i <= |s|
    ensures e in Ends([Star(cls)], s, i) <==> i <= e <= |s| && AllIn(s, i, e, cls)
  {
    var has := (j: nat) => EndsAt([Star(cls)], s, j, e);
    forall j: nat | i <= j <= |s| ensures StarStep(has, cls, s, j, e) { StarMore(cls, s, j, e); }
    StarRun(has, cls, s, i, e);
  }

  lemma DashStep(rest: seq<Item>, s: string, i: nat, e: nat)
    requires i <= |s|
    ensures e in Ends([Star("-")] + rest, s, i) <==>
      (i < |s| && s[i] == '-' && e in Ends([Star("-")] + rest, s, i + 1)) || e in Ends(rest, s, i)
  {
    EndsStep(Star("-"), rest, s, i);
  }

  lemma OneThen(rest: seq<Item>, s: string, i: nat, e: nat)
    requires i <= |s|
    ensures e in Ends([One("A")] + rest, s, i) <==> i < |s| && s[i] == 'A' && e in Ends(rest, s, i + 1)
  {
    EndsStep(One("A"), rest, s, i);
  }

  lemma OptThen(rest: seq<Item>, s: string, i: nat, e: nat)
    requires i <= |s|
    ensures e in Ends([Opt("A")] + rest, s, i) <==>
      (i < |s| && s[i] == 'A' && e in Ends(rest, s, i + 1)) || e in Ends(rest, s, i)
  {
    EndsStep(Opt("A"), rest, s, i);
  }

  // ----- counting

  lemma {:induction false} CountNone(s: string, i: nat, e: nat)
    requires e <= |s| && forall k :: i <= k < e ==> s[k] != 'A'
    ensures CountA(s, i, e) == 0
    decreases e - i
  {
    if i < e { CountNone(s, i + 1, e); }
  }

  lemma {:induction false} CountSplit(s: string, i: nat, m: nat, e: nat)
    requires i <= m <= e <= |s|
    ensures CountA(s, i, e) == CountA(s, i, m) + CountA(s, m, e)
    decreases m - i
  {
    if i < m { CountSplit(s, i + 1, m, e); }
  }

  lemma {:induction false} CountAll(s: string, i: nat, e: nat)
    requires i <= e <= |s| && forall k :: i <= k < e ==> s[k] == 'A'
    ensures CountA(s, i, e) == e - i
    decreases e - i
  {
    if i < e { CountAll(s, i + 1, e); }
  }

  /** No plain argument among plain arguments and marks leaves marks only. */
  lemma {:induction false} NonePlain(s: string, i: nat, e: nat)
    requires e <= |s|
    ensures AllIn(s, i, e, "-") <==> AllIn(s, i, e, "A-") && CountA(s, i, e) == 0
    decreases e - i
  {
    if i < e { NonePlain(s, i + 1, e); }
  }

  /** Plain arguments and marks, from lo to hi of them plain. */
  ghost predicate Marked(s: string, i: nat, e: nat, lo: nat, hi: Option<nat>) {
    && i <= e <= |s| && AllIn(s, i, e, "A-")
    && lo <= CountA(s, i, e) && (hi.Some? ==> CountA(s, i, e) <= hi.value)
  }

  lemma MarkedStep(s: string, i: nat, e: nat, lo: nat, hi: Option<nat>)
    requires i < |s|
    ensures s[i] == '-' ==> (Marked(s, i, e, lo, hi) <==> Marked(s, i + 1, e, lo, hi) || (i == e && lo == 0))
    ensures s[i] == 'A' && hi.None? ==>
      (Marked(s, i, e, lo, hi) <==> Marked(s, i + 1, e, if lo > 0 then lo - 1 else 0, hi) || (i == e && lo == 0))
    ensures s[i] == 'A' && hi.Some? && hi.value > 0 ==>
      (Marked(s, i, e, lo, hi) <==>
        Marked(s, i + 1, e, if lo > 0 then lo - 1 else 0, Some(hi.value - 1)) || (i == e && lo == 0))
    ensures s[i] != '-' && s[i] != 'A' ==> (Marked(s, i, e, lo, hi) <==> i == e && lo == 0)
  {}

  // ----- the ends of each pattern

  /** After one plain argument, anything of the class. */
  lemma OneStarExact(cls: string, s: string, i: nat, e: nat)
    requires i <= |s|
    ensures e in Ends([One("A"), Star(cls)], s, i) <==>
      i < e <= |s| && s[i] == 'A' && AllIn(s, i + 1, e, cls)
  {
    assert [One("A")] + [Star(cls)] == [One("A"), Star(cls)];
    OneThen([Star(cls)], s, i, e);
    if i < |s| { StarExact(cls, s, i + 1, e); }
  }

  /** What follows the marks in front of a pattern fits bounds from lo to hi: it matches
      only within them, and at anything but a mark, or at the end, all within them. */
  ghost predicate RestFits(matches: bool, s: string, j: nat, e: nat, lo: nat, hi: Option<nat>) {
    && (matches ==> Marked(s, j, e, lo, hi))
    && (Marked(s, j, e, lo, hi) && (j >= |s| || s[j] != '-' || j == e) ==> matches)
  }

  lemma MarkFirst(s: string, i: nat, e: nat, lo: nat, hi: Option<nat>)
    requires i < |s| && s[i] == '-'
    ensures Marked(s, i, e, lo, hi) <==> Marked(s, i + 1, e, lo, hi) || (i == e && lo == 0)
    ensures i == e && lo == 0 ==> Marked(s, i, e, lo, hi)
  {}

  /** Marks, and then the rest. */
  ghost predicate DashThen(has: nat -> bool, rest: nat -> bool, s: string, j: nat) {
    has(j) <==> (j < |s| && s[j] == '-' && has(j + 1)) || rest(j)
  }

  lemma {:induction false} DashedRun(has: nat -> bool, rest: nat -> bool, s: string, i: nat, e: nat, lo: nat,
                                     hi: Option<nat>)
    requires i <= |s| && forall j: nat :: i <= j <= |s| ==> DashThen(has, rest, s, j)
    requires forall j: nat :: i <= j <= |s| ==> RestFits(rest(j), s, j, e, lo, hi)
    ensures has(i) <==> Marked(s, i, e, lo, hi)
    decreases |s| - i
  {
    assert DashThen(has, rest, s, i) && RestFits(rest(i), s, i, e, lo, hi);
    if i < |s| && s[i] == '-' {
      MarkFirst(s, i, e, lo, hi);
      DashedRun(has, rest, s, i + 1, e, lo, hi);
    }
  }

  /** Marks in front of a rest that fits the bounds. */
  lemma DashedExact(rest: seq<Item>, s: string, i: nat, e: nat, lo: nat, hi: Option<nat>)
    requires i <= |s| && forall j :: i <= j <= |s| ==> RestFits(e in Ends(rest, s, j), s, j, e, lo, hi)
    ensures e in Ends([Star("-")] + rest, s, i) <==> Marked(s, i, e, lo, hi)
  {
    var items := [Star("-")] + rest;
    var has, more := (j: nat) => EndsAt(items, s, j, e), (j: nat) => EndsAt(rest, s, j, e);
    forall j: nat | i <= j <= |s| ensures DashThen(has, more, s, j) { DashStep(rest, s, j, e); }
    DashedRun(has, more, s, i, e, lo, hi);
  }

  lemma MarksExact(s: string, i: nat, e: nat)
    requires i <= |s|
    ensures e in Ends([Star("-")], s, i) <==> Marked(s, i, e, 0, Some(0))
  {
    StarExact("-", s, i, e);
    if e <= |s| { NonePlain(s, i, e); }
  }

  lemma SingleExact(s: string, i: nat, e: nat)
    requires i <= |s|
    ensures e in Ends(PlainPattern(Single), s, i) <==> Marked(s, i, e, 1, Some(1))
  {
    var rest := [One("A"), Star("-")];
    assert [Star("-")] + rest == PlainPattern(Single);
    forall j | i <= j <= |s| ensures RestFits(e in Ends(rest, s, j), s, j, e, 1, Some(1)) {
      OneStarExact("-", s, j, e);
      if e <= |s| { NonePlain(s, j + 1, e); }
      if j < |s| { MarkedStep(s, j, e, 1, Some(1)); }
    }
    DashedExact(rest, s, i, e, 1, Some(1));
  }

  lemma OneOrMoreExact(s: string, i: nat, e: nat)
    requires i <= |s|
    ensures e in Ends(PlainPattern(OneOrMore), s, i) <==> Marked(s, i, e, 1, None)
  {
    var rest := [One("A"), Star("A-")];
    assert [Star("-")] + rest == PlainPattern(OneOrMore);
    forall j | i <= j <= |s| ensures RestFits(e in Ends(rest, s, j), s, j, e, 1, None) {
      OneStarExact("A-", s, j, e);
      if j < |s| { MarkedStep(s, j, e, 1, None); }
    }
    DashedExact(rest, s, i, e, 1, None);
  }

  lemma ZeroOrMoreExact(s: string, i: nat, e: nat)
    requires i <= |s|
    ensures e in Ends(PlainPattern(ZeroOrMore), s, i) <==> Marked(s, i, e, 0, None)
  {
    var rest := [Star("A-")];
    assert [Star("-")] + rest == PlainPattern(ZeroOrMore);
    forall j | i <= j <= |s| ensures RestFits(e in Ends(rest, s, j), s, j, e, 0, None) { StarExact("A-", s, j, e); }
    DashedExact(rest, s, i, e, 0, None);
  }

  /** At most one plain argument in front, then marks. */
  lemma OptMarks(s: string, i: nat, e: nat, tail: seq<Item>)
    requires i <= |s| && forall j :: i <= j <= |s| ==> (e in Ends(tail, s, j) <==> Marked(s, j, e, 0, Some(0)))
    ensures e in Ends([Opt("A")] + tail, s, i) <==>
      Marked(s, i, e, 0, Some(0)) || (i < |s| && s[i] == 'A' && Marked(s, i + 1, e, 0, Some(0)))
  {
    OptThen(tail, s, i, e);
  }

  lemma OptionalExact(s: string, i: nat, e: nat)
    requires i <= |s|
    ensures e in Ends(PlainPattern(Optional), s, i) <==> Marked(s, i, e, 0, Some(1))
  {
    var tail := [Star("-")];
    var rest := [Opt("A")] + tail;
    assert [Star("-")] + rest == PlainPattern(Optional);
    forall j | i <= j <= |s| { MarksExact(s, j, e); }
    forall j | i <= j <= |s| ensures RestFits(e in Ends(rest, s, j), s, j, e, 0, Some(1)) {
      OptMarks(s, j, e, tail);
      if j < |s| { MarkedStep(s, j, e, 0, Some(1)); }
    }
    DashedExact(rest, s, i, e, 0, Some(1));
  }

  lemma DashesExact(s: string, i: nat, e: nat)
    requires i <= |s|
    ensures e in Ends(PlainPattern(Exactly(0)), s, i) <==> Marked(s, i, e, 0, Some(0))
  {
    var rest := [Star("-")];
    assert [Star("-")] + rest == PlainPattern(Exactly(0));
    forall j | i <= j <= |s| ensures RestFits(e in Ends(rest, s, j), s, j, e, 0, Some(0)) { MarksExact(s, j, e); }
    DashedExact(rest, s, i, e, 0, Some(0));
  }

  /** n plain arguments with marks around them. */
  lemma {:induction false} RepeatedExact(n: nat, s: string, i: nat, e: nat)
    requires i <= |s|
    ensures e in Ends([Star("-")] + Repeated(n), s, i) <==> Marked(s, i, e, n, Some(n))
    decreases n
  {
    if n == 0 {
      assert [Star("-")] + Repeated(n) == [Star("-")];
      MarksExact(s, i, e);
    } else {
      var rest := Repeated(n);
      forall j | i <= j <= |s| ensures RestFits(e in Ends(rest, s, j), s, j, e, n, Some(n)) {
        OneThen([Star("-")] + Repeated(n - 1), s, j, e);
        if j < |s| {
          MarkedStep(s, j, e, n, Some(n));
          RepeatedExact(n - 1, s, j + 1, e);
        }
      }
      DashedExact(rest, s, i, e, n, Some(n));
    }
  }

  /** Marks, a plain argument, and anything. */
  ghost predicate Headed(s: string, i: nat, e: nat, kinds: string, mark: string) {
    i <= e <= |s| && AllIn(s, i, e, kinds) && exists m :: i <= m < e && s[m] == 'A' && AllIn(s, i, m, mark)
  }

  lemma HeadedStep(s: string, i: nat, e: nat)
    requires i < |s|
    ensures s[i] == '-' ==> (Headed(s, i, e, "AO-", "-") <==> Headed(s, i + 1, e, "AO-", "-"))
    ensures s[i] == 'A' ==> (Headed(s, i, e, "AO-", "-") <==> i < e <= |s| && AllIn(s, i + 1, e, "AO-"))
    ensures s[i] != '-' && s[i] != 'A' ==> !Headed(s, i, e, "AO-", "-")
  {
    if Headed(s, i + 1, e, "AO-", "-") && s[i] == '-' {
      var m :| i + 1 <= m < e && s[m] == 'A' && AllIn(s, i + 1, m, "-");
      assert AllIn(s, i, m, "-");
    }
    if Headed(s, i, e, "AO-", "-") && s[i] == '-' {
      var m :| i <= m < e && s[m] == 'A' && AllIn(s, i, m, "-");
      assert AllIn(s, i + 1, m, "-");
    }
    assert AllIn(s, i, i, "-");
  }

  lemma SameKinds(s: string, i: nat, e: nat)
    requires e <= |s|
    ensures AllIn(s, i, e, "-AO") <==> AllIn(s, i, e, "AO-")
  {}

  lemma {:induction false} ParserRun(has: nat -> bool, rest: nat -> bool, s: string, i: nat, e: nat)
    requires i <= |s| && forall j: nat :: i <= j <= |s| ==> DashThen(has, rest, s, j)
    requires forall j: nat :: i <= j <= |s| ==> HeadAt(rest(j), s, j, e, "AO-")
    ensures has(i) <==> Headed(s, i, e, "AO-", "-")
    decreases |s| - i
  {
    assert DashThen(has, rest, s, i) && HeadAt(rest(i), s, i, e, "AO-");
    if i < |s| {
      HeadedStep(s, i, e);
      if s[i] == '-' { ParserRun(has, rest, s, i + 1, e); }
    }
  }

  /** What matches is a plain argument and then anything of the kinds. */
  ghost predicate HeadAt(matches: bool, s: string, j: nat, e: nat, kinds: string) {
    matches <==> j < e <= |s| && s[j] == 'A' && AllIn(s, j + 1, e, kinds)
  }

  lemma ParserExact(s: string, i: nat, e: nat)
    requires i <= |s|
    ensures e in Ends(PlainPattern(Parser), s, i) <==> Headed(s, i, e, "AO-", "-")
  {
    var rest := [One("A"), Star("-AO")];
    assert [Star("-")] + rest == PlainPattern(Parser);
    var has, more := (j: nat) => EndsAt(PlainPattern(Parser), s, j, e), (j: nat) => EndsAt(rest, s, j, e);
    forall j: nat | i <= j <= |s| ensures DashThen(has, more, s, j) { DashStep(rest, s, j, e); }
    forall j: nat | i <= j <= |s| ensures HeadAt(more(j), s, j, e, "AO-") {
      OneStarExact("-AO", s, j, e);
      if e <= |s| { SameKinds(s, j + 1, e); }
    }
    ParserRun(has, more, s, i, e);
  }

  /** The group of a positional matches exactly what the positional takes. */
  lemma PositionalExact(a: Action, s: string, i: nat, e: nat)
    requires i <= |s| && !a.isOptional
    ensures e in Ends(NargsPattern(a), s, i) <==> Speaks(a, s, i, e)
  {
    assert "A" + "-" == "A-" && "AO" + "-" == "AO-";
    match a.nargs
    case Single => SingleExact(s, i, e);
    case Optional => OptionalExact(s, i, e);
    case ZeroOrMore => ZeroOrMoreExact(s, i, e);
    case OneOrMore => OneOrMoreExact(s, i, e);
    case Remainder =>
      StarExact("-AO", s, i, e);
      if e <= |s| { SameKinds(s, i, e); }
    case Parser => ParserExact(s, i, e);
    case Exactly(n) => if n == 0 { DashesExact(s, i, e); } else { RepeatedExact(n, s, i, e); }
  }

  lemma UndashedKinds()
    ensures WithoutDash("-AO") == "AO" && WithoutDash("A") == "A"
  {
    assert "-AO"[1..] == "AO" && "AO"[1..] == "O" && "O"[1..] == "" && "A"[1..] == "";
    assert WithoutDash("O") == "O" && WithoutDash("AO") == "AO";
  }

  lemma StrippedOpen()
    ensures StripDashes(PlainPattern(Remainder)) == [Star("AO")]
    ensures StripDashes(PlainPattern(Parser)) == [One("A"), Star("AO")]
  {
    UndashedKinds();
    var tail := [Star("-AO")] + [];
    StripStep(Star("-AO"), []);
    assert PlainPattern(Remainder) == tail && PlainPattern(Parser) == [Star("-")] + ([One("A")] + tail);
    StripStep(Star("-"), [One("A")] + tail);
    StripStep(One("A"), tail);
    assert [Star("AO")] + [] == [Star("AO")];
  }

  /** Plain arguments only, as many as nargs allows. */
  ghost predicate Taken(nargs: Nargs, s: string, i: nat, e: nat) {
    i <= e <= |s| && AllIn(s, i, e, "A") && Allows(nargs, e - i)
  }

  lemma {:induction false} OnesExact(n: nat, s: string, i: nat, e: nat)
    requires i <= |s|
    ensures e in Ends(Ones(n), s, i) <==> Taken(Exactly(n), s, i, e)
  {
    if n == 0 {
      NothingEnds(s, i);
    } else {
      OneThen(Ones(n - 1), s, i, e);
      if i < |s| { OnesExact(n - 1, s, i + 1, e); }
    }
  }

  lemma ShortTaken(s: string, i: nat, e: nat)
    requires i <= |s|
    ensures e in Ends([One("A")], s, i) <==> Taken(Single, s, i, e)
    ensures e in Ends([Opt("A")], s, i) <==> Taken(Optional, s, i, e)
  {
    EndsOne(One("A"), s, i);
    EndsOne(Opt("A"), s, i);
  }

  lemma LongTaken(s: string, i: nat, e: nat)
    requires i <= |s|
    ensures e in Ends([Star("A")], s, i) <==> Taken(ZeroOrMore, s, i, e)
    ensures e in Ends([One("A"), Star("A")], s, i) <==> Taken(OneOrMore, s, i, e)
  {
    StarExact("A", s, i, e);
    OneStarExact("A", s, i, e);
  }

  lemma TakenExact(nargs: Nargs, s: string, i: nat, e: nat)
    requires i <= |s| && Counted(nargs)
    ensures e in Ends(StripDashes(PlainPattern(nargs)), s, i) <==> Taken(nargs, s, i, e)
  {
    StrippedPatterns(nargs);
    ShortTaken(s, i, e);
    LongTaken(s, i, e);
    if nargs.Exactly? { OnesExact(nargs.n, s, i, e); }
  }

  /** The group of an optional matches exactly what the optional takes. */
  lemma OptionalActionExact(a: Action, s: string, i: nat, e: nat)
    requires i <= |s| && a.isOptional
    ensures e in Ends(NargsPattern(a), s, i) <==> Speaks(a, s, i, e)
  {
    assert "A" + "" == "A" && "AO" + "" == "AO";
    StrippedOpen();
    match a.nargs
    case Remainder => StarExact("AO", s, i, e);
    case Parser =>
      OneStarExact("AO", s, i, e);
      if i < e <= |s| && s[i] == 'A' { assert AllIn(s, i, i, ""); }
    case _ =>
      TakenExact(a.nargs, s, i, e);
      TakenSpeaks(a, s, i, e);
  }

  lemma TakenSpeaks(a: Action, s: string, i: nat, e: nat)
    requires i <= |s| && a.isOptional && Counted(a.nargs)
    ensures Speaks(a, s, i, e) <==> Taken(a.nargs, s, i, e)
  {
    assert "A" + "" == "A";
    if i <= e <= |s| && AllIn(s, i, e, "A") { CountAll(s, i, e); }
  }

  /** The group of an action matches exactly what the action takes. */
  lemma GroupExact(a: Action, s: string, i: nat, e: nat)
    requires i <= |s|
    ensures e in Ends(NargsPattern(a), s, i) <==> Speaks(a, s, i, e)
  {
    if a.isOptional { OptionalActionExact(a, s, i, e); } else { PositionalExact(a, s, i, e); }
  }

  // ----- the order in which ends are tried

  predicate Rises(ends: seq<nat>, a: nat, b: nat) { a < b < |ends| && ends[a] < ends[b] }

  /** A smaller end is tried before a greater one only if that was tried already. */
  ghost predicate Greedy(ends: seq<nat>) {
    forall a: nat, b: nat :: Rises(ends, a, b) ==> ends[b] in ends[..a]
  }

  lemma TakeLeft(x: seq<nat>, y: seq<nat>, a: nat)
    requires a <= |x|
    ensures (x + y)[..a] == x[..a]
  {}

  lemma TakeRight(x: seq<nat>, y: seq<nat>, a: nat)
    requires a <= |y|
    ensures (x + y)[..|x| + a] == x + y[..a]
  {}

  lemma GreedyFound(x: seq<nat>, a: nat, e: nat)
    requires Greedy(x) && a < |x| && e in x && x[a] < e
    ensures e in x[..a]
  {
    var c :| 0 <= c < |x| && x[c] == e;
    if c < a { assert x[..a][c] == e; } else { assert Rises(x, a, c); }
  }

  lemma FoundLeft(x: seq<nat>, y: seq<nat>, i: nat, a: nat, e: nat)
    requires Greedy(x) && a < |x| && x[a] > i && x[a] < e && (e in x || e == i)
    ensures e in (x + y)[..a]
  {
    TakeLeft(x, y, a);
    GreedyFound(x, a, e);
  }

  lemma FoundRight(x: seq<nat>, y: seq<nat>, a: nat, b: nat)
    requires Greedy(y) && a < b < |y| && y[a] < y[b]
    ensures y[b] in (x + y)[..|x| + a]
  {
    assert Rises(y, a, b);
    TakeRight(x, y, a);
  }

  /** x holds ends after i, and y at most i besides. */
  ghost predicate MoreThan(x: seq<nat>, y: seq<nat>, i: nat) {
    (forall e :: e in x ==> e > i) && forall e :: e in y ==> e in x || e == i
  }

  lemma EachOf(x: seq<nat>, y: seq<nat>, i: nat, a: nat)
    requires MoreThan(x, y, i) && a < |x + y|
    ensures a < |x| ==> (x + y)[a] == x[a] && x[a] > i
    ensures a >= |x| ==> (x + y)[a] == y[a - |x|]
    ensures (x + y)[a] in x || (x + y)[a] == i
  {
    if a < |x| {
      assert (x + y)[a] == x[a] && x[a] in x;
    } else {
      assert (x + y)[a] == y[a - |x|] && y[a - |x|] in y;
    }
  }

  /** What is tried after all greater ends, but for what was tried before. */
  lemma GreedyAppend(x: seq<nat>, y: seq<nat>, i: nat)
    requires Greedy(x) && Greedy(y) && MoreThan(x, y, i)
    ensures Greedy(x + y)
  {
    var z := x + y;
    forall a: nat, b: nat | Rises(z, a, b) ensures z[b] in z[..a] {
      EachOf(x, y, i, a);
      EachOf(x, y, i, b);
      if a < |x| { FoundLeft(x, y, i, a, z[b]); } else { FoundRight(x, y, a - |x|, b - |x|); }
    }
  }

  lemma GreedyOne(e: nat)
    ensures Greedy([e]) && Greedy([])
  {}

  lemma {:induction false} GreedyStar(cls: string, s: string, i: nat)
    requires i <= |s|
    ensures Greedy(Ends([Star(cls)], s, i))
    decreases |s| - i
  {
    EndsOne(Star(cls), s, i);
    GreedyOne(i);
    if i < |s| && s[i] in cls {
      var x := Ends([Star(cls)], s, i + 1);
      GreedyStar(cls, s, i + 1);
      EndsInRange([Star(cls)], s, i + 1);
      GreedyAppend(x, [i], i);
    } else {
      assert [] + [i] == [i];
    }
  }

  /** Marks in front: the rest gives nothing new where a mark is, but for ending there. */
  lemma GreedyDash(rest: seq<Item>, s: string, i: nat)
    requires i <= |s| && Greedy(Ends(rest, s, i))
    requires i < |s| && s[i] == '-' ==> Greedy(Ends([Star("-")] + rest, s, i + 1))
    requires i < |s| && s[i] == '-' ==>
      forall e :: e in Ends(rest, s, i) ==> e == i || e in Ends([Star("-")] + rest, s, i + 1)
    ensures Greedy(Ends([Star("-")] + rest, s, i))
  {
    EndsStep(Star("-"), rest, s, i);
    var y := Ends(rest, s, i);
    if i < |s| && s[i] == '-' {
      var x := Ends([Star("-")] + rest, s, i + 1);
      EndsInRange([Star("-")] + rest, s, i + 1);
      assert forall e :: e in x ==> e > i;
      GreedyAppend(x, y, i);
    } else {
      assert [] + y == y;
    }
  }

  /** Marks and then a plain argument. */
  lemma {:induction false} GreedyDashOne(tail: seq<Item>, s: string, i: nat)
    requires i <= |s| && forall j :: 0 <= j <= |s| ==> Greedy(Ends(tail, s, j))
    ensures Greedy(Ends([One("A")] + tail, s, i))
    ensures Greedy(Ends([Star("-")] + ([One("A")] + tail), s, i))
    decreases |s| - i
  {
    EndsStep(One("A"), tail, s, i);
    if i < |s| && s[i] == '-' { GreedyDashOne(tail, s, i + 1); }
    GreedyDash([One("A")] + tail, s, i);
  }

  lemma {:induction false} GreedyRepeated(n: nat, s: string, i: nat)
    requires i <= |s|
    ensures Greedy(Ends([Star("-")] + Repeated(n), s, i))
  {
    if n == 0 {
      assert [Star("-")] + Repeated(n) == [Star("-")];
      GreedyStar("-", s, i);
    } else {
      var tail := [Star("-")] + Repeated(n - 1);
      forall j | 0 <= j <= |s| ensures Greedy(Ends(tail, s, j)) { GreedyRepeated(n - 1, s, j); }
      GreedyDashOne(tail, s, i);
    }
  }

  lemma {:induction false} GreedyDashes(s: string, i: nat)
    requires i <= |s|
    ensures Greedy(Ends(PlainPattern(Exactly(0)), s, i))
    decreases |s| - i
  {
    var rest := [Star("-")];
    assert [Star("-")] + rest == PlainPattern(Exactly(0));
    GreedyStar("-", s, i);
    if i < |s| && s[i] == '-' {
      GreedyDashes(s, i + 1);
      forall e | e in Ends(rest, s, i) ensures e == i || e in Ends([Star("-")] + rest, s, i + 1) {
        MarksExact(s, i, e);
        MarkedStep(s, i, e, 0, Some(0));
        DashesExact(s, i + 1, e);
      }
    }
    GreedyDash(rest, s, i);
  }

  lemma {:induction false} GreedyZeroOrMore(s: string, i: nat)
    requires i <= |s|
    ensures Greedy(Ends(PlainPattern(ZeroOrMore), s, i))
    decreases |s| - i
  {
    var rest := [Star("A-")];
    assert [Star("-")] + rest == PlainPattern(ZeroOrMore);
    GreedyStar("A-", s, i);
    if i < |s| && s[i] == '-' {
      GreedyZeroOrMore(s, i + 1);
      forall e | e in Ends(rest, s, i) ensures e == i || e in Ends([Star("-")] + rest, s, i + 1) {
        StarExact("A-", s, i, e);
        ZeroOrMoreExact(s, i + 1, e);
      }
    }
    GreedyDash(rest, s, i);
  }

  lemma OptEnds(tail: seq<Item>, s: string, i: nat)
    requires i <= |s|
    ensures Ends([Opt("A")] + tail, s, i) ==
      if i < |s| && s[i] == 'A' then Ends(tail, s, i + 1) + Ends(tail, s, i) else Ends(tail, s, i)
  {
    EndsStep(Opt("A"), tail, s, i);
    assert [] + Ends(tail, s, i) == Ends(tail, s, i);
  }

  lemma GreedyOpt(tail: seq<Item>, s: string, i: nat)
    requires i <= |s| && Greedy(Ends(tail, s, i)) && (i < |s| ==> Greedy(Ends(tail, s, i + 1)))
    requires i < |s| && s[i] == 'A' ==> Ends(tail, s, i) == [i]
    ensures Greedy(Ends([Opt("A")] + tail, s, i))
  {
    OptEnds(tail, s, i);
    if i < |s| && s[i] == 'A' {
      EndsInRange(tail, s, i + 1);
      GreedyAppend(Ends(tail, s, i + 1), Ends(tail, s, i), i);
    }
  }

  lemma {:induction false} GreedyOptional(s: string, i: nat)
    requires i <= |s|
    ensures Greedy(Ends(PlainPattern(Optional), s, i))
    decreases |s| - i
  {
    var tail := [Star("-")];
    var rest := [Opt("A")] + tail;
    assert [Star("-")] + rest == PlainPattern(Optional);
    GreedyStar("-", s, i);
    if i < |s| { GreedyStar("-", s, i + 1); }
    EndsOne(Star("-"), s, i);
    assert [] + [i] == [i];
    GreedyOpt(tail, s, i);
    if i < |s| && s[i] == '-' {
      GreedyOptional(s, i + 1);
      forall e | e in Ends(rest, s, i) ensures e == i || e in Ends([Star("-")] + rest, s, i + 1) {
        forall j | i <= j <= |s| { MarksExact(s, j, e); }
        OptMarks(s, i, e, tail);
        MarkedStep(s, i, e, 0, Some(0));
        OptionalExact(s, i + 1, e);
      }
    }
    GreedyDash(rest, s, i);
  }

  lemma {:induction false} GreedyOnes(n: nat, s: string, i: nat)
    requires i <= |s|
    ensures Greedy(Ends(Ones(n), s, i))
  {
    if n == 0 {
      NothingEnds(s, i);
    } else {
      EndsStep(One("A"), Ones(n - 1), s, i);
      if i < |s| { GreedyOnes(n - 1, s, i + 1); }
    }
  }

  lemma GreedyOneStar(cls: string, s: string, i: nat)
    requires i <= |s|
    ensures Greedy(Ends([One("A"), Star(cls)], s, i))
    ensures Greedy(Ends([Star("-"), One("A"), Star(cls)], s, i))
  {
    forall j | 0 <= j <= |s| ensures Greedy(Ends([Star(cls)], s, j)) { GreedyStar(cls, s, j); }
    GreedyDashOne([Star(cls)], s, i);
    assert [One("A")] + [Star(cls)] == [One("A"), Star(cls)];
    assert [Star("-")] + [One("A"), Star(cls)] == [Star("-"), One("A"), Star(cls)];
  }

  lemma GreedyPositional(a: Action, s: string, i: nat)
    requires i <= |s| && !a.isOptional
    ensures Greedy(Ends(NargsPattern(a), s, i))
  {
    match a.nargs
    case Single => GreedyOneStar("-", s, i);
    case Optional => GreedyOptional(s, i);
    case ZeroOrMore => GreedyZeroOrMore(s, i);
    case OneOrMore => GreedyOneStar("A-", s, i);
    case Remainder => GreedyStar("-AO", s, i);
    case Parser => GreedyOneStar("-AO", s, i);
    case Exactly(n) => if n == 0 { GreedyDashes(s, i); } else { GreedyRepeated(n, s, i); }
  }

  lemma GreedyPlain(s: string, i: nat)
    requires i <= |s|
    ensures Greedy(Ends([One("A")], s, i)) && Greedy(Ends([Opt("A")], s, i))
  {
    EndsOne(One("A"), s, i);
    EndsOne(Opt("A"), s, i);
  }

  lemma GreedyOptionalAction(a: Action, s: string, i: nat)
    requires i <= |s| && a.isOptional
    ensures Greedy(Ends(NargsPattern(a), s, i))
  {
    StrippedOpen();
    if Counted(a.nargs) { StrippedPatterns(a.nargs); }
    match a.nargs
    case Single => GreedyPlain(s, i);
    case Optional => GreedyPlain(s, i);
    case ZeroOrMore => GreedyStar("A", s, i);
    case OneOrMore => GreedyOneStar("A", s, i);
    case Remainder => GreedyStar("AO", s, i);
    case Parser => GreedyOneStar("AO", s, i);
    case Exactly(n) => GreedyOnes(n, s, i);
  }

  lemma GroupGreedy(a: Action, s: string, i: nat)
    requires i <= |s|
    ensures Greedy(Ends(NargsPattern(a), s, i))
  {
    if a.isOptional { GreedyOptionalAction(a, s, i); } else { GreedyPositional(a, s, i); }
  }

  // ----- the first match

  /** v cuts the string from i on into stretches that the groups match, one each. */
  ghost predicate Splits(groups: seq<seq<Item>>, s: string, i: nat, v: seq<nat>)
    requires i <= |s|
    decreases |groups|
  {
    |v| == |groups| && (groups == [] ||
      (i + v[0] <= |s| && i + v[0] in Ends(groups[0], s, i) && Splits(groups[1..], s, i + v[0], v[1..])))
  }

  ghost predicate GreatestSplit(groups: seq<seq<Item>>, s: string, i: nat, v: seq<nat>)
    requires i <= |s|
  {
    Splits(groups, s, i, v) && forall u :: Splits(groups, s, i, u) ==> LexLeq(u, v)
  }

  ghost predicate AllGreedy(groups: seq<seq<Item>>, s: string) {
    forall k, i :: 0 <= k < |groups| && 0 <= i <= |s| ==> Greedy(Ends(groups[k], s, i))
  }

  /** Of the ends, the first from which the rest matches is taken. */
  ghost predicate FirstWorks(ends: seq<nat>, rest: seq<seq<Item>>, s: string, k: nat)
    requires forall j :: 0 <= j < |ends| ==> ends[j] <= |s|
  {
    && k < |ends| && FirstMatch(rest, s, ends[k]).Some?
    && forall j :: 0 <= j < k ==> FirstMatch(rest, s, ends[j]).None?
  }

  lemma {:induction false} TryFirst(ends: seq<nat>, rest: seq<seq<Item>>, s: string, i: nat) returns (k: nat)
    requires i <= |s| && (forall j :: 0 <= j < |ends| ==> i <= ends[j] <= |s|) && TryEnds(ends, rest, s, i).Some?
    ensures FirstWorks(ends, rest, s, k)
    ensures TryEnds(ends, rest, s, i) == Some([ends[k] - i] + FirstMatch(rest, s, ends[k]).value)
    decreases |ends|
  {
    if FirstMatch(rest, s, ends[0]).Some? {
      k := 0;
    } else {
      var later := TryFirst(ends[1..], rest, s, i);
      assert forall j :: 0 < j < |ends| ==> ends[j] == ends[1..][j - 1];
      k := later + 1;
    }
  }

  lemma {:induction false} TrySome(ends: seq<nat>, rest: seq<seq<Item>>, s: string, i: nat, e: nat)
    requires i <= |s| && forall j :: 0 <= j < |ends| ==> i <= ends[j] <= |s|
    requires e in ends && e <= |s| && FirstMatch(rest, s, e).Some?
    ensures TryEnds(ends, rest, s, i).Some?
    decreases |ends|
  {
    if FirstMatch(rest, s, ends[0]).None? { TrySome(ends[1..], rest, s, i, e); }
  }

  lemma NotBefore(ends: seq<nat>, rest: seq<seq<Item>>, s: string, k: nat, e: nat)
    requires forall j :: 0 <= j < |ends| ==> ends[j] <= |s|
    requires FirstWorks(ends, rest, s, k) && e <= |s| && FirstMatch(rest, s, e).Some?
    ensures e !in ends[..k] && forall j :: 0 <= j < |ends| && ends[j] == e ==> j >= k
  {
    forall c | 0 <= c < k ensures ends[c] != e { assert FirstMatch(rest, s, ends[c]).None?; }
  }

  /** No greater end works. */
  lemma GreatestWorks(ends: seq<nat>, rest: seq<seq<Item>>, s: string, k: nat, e: nat)
    requires Greedy(ends) && forall j :: 0 <= j < |ends| ==> ends[j] <= |s|
    requires FirstWorks(ends, rest, s, k) && e in ends && e <= |s| && FirstMatch(rest, s, e).Some?
    ensures e <= ends[k]
  {
    NotBefore(ends, rest, s, k, e);
    var j :| 0 <= j < |ends| && ends[j] == e;
    assert !Rises(ends, k, j);
  }

  lemma GroupsStep(groups: seq<seq<Item>>, s: string, i: nat, ends: seq<nat>)
    requires i <= |s| && groups != [] && ends == Ends(groups[0], s, i)
    ensures forall j :: 0 <= j < |ends| ==> i <= ends[j] <= |s|
    ensures FirstMatch(groups, s, i) == TryEnds(ends, groups[1..], s, i)
  {
    EndsInRange(groups[0], s, i);
  }

  /** There is a match if the string can be split among the groups at all. */
  lemma {:induction false} SplitMatches(groups: seq<seq<Item>>, s: string, i: nat, u: seq<nat>)
    requires i <= |s| && Splits(groups, s, i, u)
    ensures FirstMatch(groups, s, i).Some?
    decreases |groups|
  {
    if groups != [] {
      var ends, e := Ends(groups[0], s, i), i + u[0];
      GroupsStep(groups, s, i, ends);
      SplitMatches(groups[1..], s, e, u[1..]);
      TrySome(ends, groups[1..], s, i, e);
    }
  }

  lemma LexCons(u: seq<nat>, first: nat, v: seq<nat>)
    requires |u| == |v| + 1 && u[0] <= first && (u[0] == first ==> LexLeq(u[1..], v))
    ensures LexLeq(u, [first] + v)
  {
    assert ([first] + v)[1..] == v;
  }

  lemma SplitEnd(groups: seq<seq<Item>>, rest: seq<seq<Item>>, s: string, i: nat, u: seq<nat>) returns (e: nat)
    requires i <= |s| && groups != [] && rest == groups[1..] && Splits(groups, s, i, u)
    ensures e == i + u[0] <= |s| && e in Ends(groups[0], s, i) && FirstMatch(rest, s, e).Some?
  {
    e := i + u[0];
    SplitMatches(rest, s, e, u[1..]);
  }

  /** The first end that works is the greatest of any split. */
  lemma GreatestFirst(groups: seq<seq<Item>>, rest: seq<seq<Item>>, s: string, i: nat, ends: seq<nat>, k: nat,
                      u: seq<nat>)
    requires i <= |s| && groups != [] && rest == groups[1..] && ends == Ends(groups[0], s, i) && Greedy(ends)
    requires (forall j :: 0 <= j < |ends| ==> i <= ends[j] <= |s|) && FirstWorks(ends, rest, s, k)
    requires Splits(groups, s, i, u)
    ensures i + u[0] <= ends[k]
  {
    var e := SplitEnd(groups, rest, s, i, u);
    GreatestWorks(ends, rest, s, k, e);
  }

  /** The first match gives the first group the most it can get, then the second,
      and so on. */
  lemma {:induction false} MatchGreatest(groups: seq<seq<Item>>, s: string, i: nat)
    requires i <= |s| && AllGreedy(groups, s) && FirstMatch(groups, s, i).Some?
    ensures GreatestSplit(groups, s, i, FirstMatch(groups, s, i).value)
    decreases |groups|
  {
    if groups == [] {
      assert Splits([], s, i, []);
    } else {
      var k, ends, rest := FirstChoice(groups, s, i);
      var v := FirstMatch(rest, s, ends[k]).value;
      MatchGreatest(rest, s, ends[k]);
      ChoiceGreatest(groups, rest, s, i, ends, k, v);
    }
  }

  lemma ChoiceGreatest(groups: seq<seq<Item>>, rest: seq<seq<Item>>, s: string, i: nat, ends: seq<nat>, k: nat,
                       v: seq<nat>)
    requires i <= |s| && groups != [] && rest == groups[1..] && ends == Ends(groups[0], s, i) && Greedy(ends)
    requires (forall j :: 0 <= j < |ends| ==> i <= ends[j] <= |s|) && FirstWorks(ends, rest, s, k)
    requires GreatestSplit(rest, s, ends[k], v)
    ensures GreatestSplit(groups, s, i, [ends[k] - i] + v)
  {
    NoneGreater(groups, rest, s, i, ends, k);
    GreatestCons(groups, rest, s, i, ends[k], v);
  }

  lemma NoneGreater(groups: seq<seq<Item>>, rest: seq<seq<Item>>, s: string, i: nat, ends: seq<nat>, k: nat)
    requires i <= |s| && groups != [] && rest == groups[1..] && ends == Ends(groups[0], s, i) && Greedy(ends)
    requires (forall j :: 0 <= j < |ends| ==> i <= ends[j] <= |s|) && FirstWorks(ends, rest, s, k)
    ensures forall u :: Splits(groups, s, i, u) ==> i + u[0] <= ends[k]
  {
    forall u | Splits(groups, s, i, u) ensures i + u[0] <= ends[k] {
      GreatestFirst(groups, rest, s, i, ends, k, u);
    }
  }

  lemma FirstChoice(groups: seq<seq<Item>>, s: string, i: nat) returns (k: nat, ends: seq<nat>, rest: seq<seq<Item>>)
    requires i <= |s| && AllGreedy(groups, s) && groups != [] && FirstMatch(groups, s, i).Some?
    ensures ends == Ends(groups[0], s, i) && rest == groups[1..] && Greedy(ends) && AllGreedy(rest, s)
    ensures (forall j :: 0 <= j < |ends| ==> i <= ends[j] <= |s|) && FirstWorks(ends, rest, s, k)
    ensures FirstMatch(groups, s, i) == Some([ends[k] - i] + FirstMatch(rest, s, ends[k]).value)
  {
    ends, rest := Ends(groups[0], s, i), groups[1..];
    GroupsStep(groups, s, i, ends);
    k := TryFirst(ends, rest, s, i);
    forall j, n | 0 <= j < |rest| && 0 <= n <= |s| ensures Greedy(Ends(rest[j], s, n)) {
      assert rest[j] == groups[j + 1];
    }
  }

  lemma GreatestCons(groups: seq<seq<Item>>, rest: seq<seq<Item>>, s: string, i: nat, e: nat, v: seq<nat>)
    requires i <= e <= |s| && groups != [] && rest == groups[1..] && e in Ends(groups[0], s, i)
    requires GreatestSplit(rest, s, e, v)
    requires forall u :: Splits(groups, s, i, u) ==> i + u[0] <= e
    ensures GreatestSplit(groups, s, i, [e - i] + v)
  {
    assert ([e - i] + v)[1..] == v;
    forall u | Splits(groups, s, i, u) ensures LexLeq(u, [e - i] + v) { LexCons(u, e - i, v); }
  }

  // ----- what the actions get

  /** v cuts the arguments from i on into stretches that the actions take, one each. */
  ghost predicate Cuts(actions: seq<Action>, s: string, i: nat, v: seq<nat>)
    decreases |actions|
  {
    |v| == |actions| && (actions == [] ||
      (Speaks(actions[0], s, i, i + v[0]) && Cuts(actions[1..], s, i + v[0], v[1..])))
  }

  ghost predicate CanCut(actions: seq<Action>, s: string, i: nat) { exists v :: Cuts(actions, s, i, v) }

  ghost predicate Best(actions: seq<Action>, s: string, i: nat, v: seq<nat>) {
    Cuts(actions, s, i, v) && forall u :: Cuts(actions, s, i, u) ==> LexLeq(u, v)
  }

  lemma {:induction false} CutsSplit(actions: seq<Action>, s: string, i: nat, v: seq<nat>)
    requires i <= |s|
    ensures Cuts(actions, s, i, v) <==> Splits(Patterns(actions), s, i, v)
    decreases |actions|
  {
    if actions != [] && |v| == |actions| {
      GroupExact(actions[0], s, i, i + v[0]);
      assert Patterns(actions)[1..] == Patterns(actions[1..]);
      if i + v[0] <= |s| { CutsSplit(actions[1..], s, i + v[0], v[1..]); }
    }
  }

  /** There is a first match exactly when the arguments can be cut among the actions,
      and it is the best cut: the first action gets the most it can, then the second,
      and so on. */
  lemma FirstMatchBest(actions: seq<Action>, s: string, i: nat)
    requires i <= |s|
    ensures FirstMatch(Patterns(actions), s, i).Some? <==> CanCut(actions, s, i)
    ensures FirstMatch(Patterns(actions), s, i).Some? ==> Best(actions, s, i, FirstMatch(Patterns(actions), s, i).value)
  {
    var groups := Patterns(actions);
    forall k, j | 0 <= k < |groups| && 0 <= j <= |s| ensures Greedy(Ends(groups[k], s, j)) {
      GroupGreedy(actions[k], s, j);
    }
    forall u ensures Cuts(actions, s, i, u) <==> Splits(groups, s, i, u) { CutsSplit(actions, s, i, u); }
    if CanCut(actions, s, i) {
      var u :| Cuts(actions, s, i, u);
      SplitMatches(groups, s, i, u);
    }
    if FirstMatch(groups, s, i).Some? {
      MatchGreatest(groups, s, i);
      assert Cuts(actions, s, i, FirstMatch(groups, s, i).value);
    }
  }

  /** r cuts the arguments in the best way among the longest prefix of the first k
      actions among which they can be cut at all. */
  ghost predicate LongestCut(actions: seq<Action>, s: string, k: nat, r: seq<nat>)
    requires k <= |actions|
  {
    |r| <= k && Best(actions[..|r|], s, 0, r) && forall j :: |r| < j <= k ==> !CanCut(actions[..j], s, 0)
  }

  lemma NoneCut(actions: seq<Action>, s: string)
    ensures LongestCut(actions, s, 0, [])
  {
    assert actions[..0] == [] && Cuts([], s, 0, []);
  }

  lemma AllCut(actions: seq<Action>, s: string, k: nat, r: seq<nat>)
    requires k <= |actions| && Best(actions[..k], s, 0, r)
    ensures LongestCut(actions, s, k, r)
  {}

  lemma LastLeft(actions: seq<Action>, s: string, k: nat, r: seq<nat>)
    requires 0 < k <= |actions| && LongestCut(actions, s, k - 1, r) && !CanCut(actions[..k], s, 0)
    ensures LongestCut(actions, s, k, r)
  {}

  /** The positionals that get arguments at once, and their numbers. */
  lemma {:induction false} PartialBest(actions: seq<Action>, s: string, k: nat)
    requires k <= |actions|
    ensures LongestCut(actions, s, k, PartialFrom(actions, s, k))
  {
    if k == 0 {
      NoneCut(actions, s);
    } else {
      FirstMatchBest(actions[..k], s, 0);
      if FirstMatch(Patterns(actions[..k]), s, 0).None? {
        PartialBest(actions, s, k - 1);
        LastLeft(actions, s, k, PartialFrom(actions, s, k - 1));
      } else {
        AllCut(actions, s, k, PartialFrom(actions, s, k));
      }
    }
  }

  // ----- one action

  /** n is the longest stretch that the action takes from the front. */
  ghost predicate Longest(a: Action, s: string, n: nat) {
    Speaks(a, s, 0, n) && forall m: nat :: Speaks(a, s, 0, m) ==> m <= n
  }

  ghost predicate TakesNone(a: Action, s: string) { forall m: nat :: !Speaks(a, s, 0, m) }

  lemma OneCut(a: Action, s: string, v: seq<nat>)
    ensures Cuts([a], s, 0, v) <==> |v| == 1 && Speaks(a, s, 0, v[0])
  {
    assert [a][1..] == [];
  }

  /** _match_argument takes the longest stretch, and fails when there is none. */
  lemma ArgumentLongest(a: Action, s: string, n: nat)
    ensures MatchArgument(a, s) == Some(n) <==> Longest(a, s, n)
    ensures MatchArgument(a, s).None? <==> TakesNone(a, s)
  {
    assert Patterns([a]) == [NargsPattern(a)];
    FirstMatchBest([a], s, 0);
    var r := FirstMatch([NargsPattern(a)], s, 0);
    forall m: nat ensures Cuts([a], s, 0, [m]) <==> Speaks(a, s, 0, m) { OneCut(a, s, [m]); }
    if r.Some? {
      OneCut(a, s, r.value);
      forall m: nat | Speaks(a, s, 0, m) ensures m <= r.value[0] { assert LexLeq([m], r.value); }
    } else {
      assert !CanCut([a], s, 0);
    }
  }

  // ----- runs of plain arguments

  /** s starts with exactly n plain arguments, ended by an option or the end. */
  predicate PlainRun(s: string, n: nat) {
    n <= |s| && (forall k :: 0 <= k < n ==> s[k] == 'A') && (n < |s| ==> s[n] == 'O')
  }

  function LeastSum(actions: seq<Action>): nat {
    if actions == [] then 0 else Least(actions[0].nargs) + LeastSum(actions[1..])
  }

  /** v gives each action a count within its bounds, in at most n arguments. */
  ghost predicate Fits(actions: seq<Action>, v: seq<nat>, n: int) {
    |v| == |actions| && Sum(v) <= n && forall k :: 0 <= k < |v| ==> Allows(actions[k].nargs, v[k])
  }

  ghost predicate Greatest(actions: seq<Action>, v: seq<nat>, n: int) {
    Fits(actions, v, n) && forall u :: Fits(actions, u, n) ==> LexLeq(u, v)
  }

  /** None of them takes options. */
  predicate AllCounted(actions: seq<Action>) { forall k :: 0 <= k < |actions| ==> Counted(actions[k].nargs) }

  /** In a run of n plain arguments a stretch is just a number that nargs allows. */
  lemma PlainSpeaks(a: Action, s: string, n: nat, i: nat, e: nat)
    requires PlainRun(s, n) && i <= n && Counted(a.nargs)
    ensures Speaks(a, s, i, e) <==> i <= e <= n && Allows(a.nargs, e - i)
  {
    var mark := if a.isOptional then "" else "-";
    if i <= e <= n {
      CountAll(s, i, e);
    } else if n < e <= |s| {
      assert s[n] !in "A" + mark;
    }
  }

  lemma {:induction false} PlainCuts(actions: seq<Action>, s: string, n: nat, i: nat, v: seq<nat>)
    requires PlainRun(s, n) && i <= n && AllCounted(actions)
    ensures Cuts(actions, s, i, v) <==> Fits(actions, v, n - i)
    decreases |actions|
  {
    if actions != [] && |v| == |actions| {
      PlainSpeaks(actions[0], s, n, i, i + v[0]);
      if i + v[0] <= n { PlainCuts(actions[1..], s, n, i + v[0], v[1..]); }
      FitsStep(actions, v, n - i);
    }
  }

  lemma FitsStep(actions: seq<Action>, v: seq<nat>, n: int)
    requires actions != [] && |v| == |actions|
    ensures Fits(actions, v, n) <==> Allows(actions[0].nargs, v[0]) && Fits(actions[1..], v[1..], n - v[0])
  {
    if Fits(actions[1..], v[1..], n - v[0]) && Allows(actions[0].nargs, v[0]) {
      forall k | 0 <= k < |v| ensures Allows(actions[k].nargs, v[k]) {
        if k > 0 { assert Allows(actions[1..][k - 1].nargs, v[1..][k - 1]); }
      }
    }
  }

  lemma {:induction false} FitsLeast(actions: seq<Action>, v: seq<nat>, n: int)
    requires Fits(actions, v, n)
    ensures LeastSum(actions) <= n
  {
    if v != [] {
      FitsStep(actions, v, n);
      FitsLeast(actions[1..], v[1..], n - v[0]);
    }
  }

  lemma {:induction false} LeastFits(actions: seq<Action>, n: int) returns (v: seq<nat>)
    requires LeastSum(actions) <= n
    ensures Fits(actions, v, n)
  {
    v := [];
    if actions != [] {
      var least := Least(actions[0].nargs);
      var more := LeastFits(actions[1..], n - least);
      v := [least] + more;
      FitsStep(actions, v, n);
    }
  }

  /** Some positionals can be cut from a run of plain arguments exactly when their
      least counts fit. */
  lemma PlainCan(actions: seq<Action>, s: string, n: nat)
    requires PlainRun(s, n) && AllCounted(actions)
    ensures CanCut(actions, s, 0) <==> LeastSum(actions) <= n
  {
    if CanCut(actions, s, 0) {
      var v :| Cuts(actions, s, 0, v);
      PlainCuts(actions, s, n, 0, v);
      FitsLeast(actions, v, n);
    }
    if LeastSum(actions) <= n {
      var v := LeastFits(actions, n);
      PlainCuts(actions, s, n, 0, v);
    }
  }

  /** _match_arguments_partial on a run of n plain arguments: the longest prefix
      of the positionals whose least counts fit, with the lexicographically
      greatest counts for it. */
  lemma PartialIsGreatest(actions: seq<Action>, s: string, n: nat, k: nat)
    requires PlainRun(s, n) && k <= |actions| && AllCounted(actions)
    ensures var r := PartialFrom(actions, s, k);
      && |r| <= k && Greatest(actions[..|r|], r, n)
      && forall j :: |r| < j <= k ==> LeastSum(actions[..j]) > n
  {
    PartialBest(actions, s, k);
    var r := PartialFrom(actions, s, k);
    forall u ensures Cuts(actions[..|r|], s, 0, u) <==> Fits(actions[..|r|], u, n) {
      PlainCuts(actions[..|r|], s, n, 0, u);
    }
    forall j | |r| < j <= k ensures LeastSum(actions[..j]) > n { PlainCan(actions[..j], s, n); }
  }

  /** _match_argument of an optional takes as many of the plain arguments right
      after it as its nargs allow, and fails when there are too few. */
  lemma OptionalTakes(a: Action, s: string, n: nat)
    requires a.isOptional && Counted(a.nargs)
    requires n <= |s| && (forall k :: 0 <= k < n ==> s[k] == 'A') && (n < |s| ==> s[n] != 'A')
    ensures MatchArgument(a, s) ==
      if n < Least(a.nargs) then None
      else if Most(a.nargs).Some? && Most(a.nargs).value < n then Some(Most(a.nargs).value)
      else Some(n)
  {
    forall m: nat ensures Speaks(a, s, 0, m) <==> m <= n && Allows(a.nargs, m) {
      if m <= |s| { TakenSpeaks(a, s, 0, m); }
    }
    ArgumentLongest(a, s, n);
    if Most(a.nargs).Some? { ArgumentLongest(a, s, Most(a.nargs).value); }
  }
}
