/** What one operation of a patch changes, through dictionaries and lists, and what
    it leaves alone. */
module PatchFrame {
  import opened Wrappers
  import opened Text
  import opened JsonPatch
  import P = JsonPointer

  // ----- decimal indices

  /** part is the decimal numeral of i, with or without zeros in front. */
  ghost predicate Spells(part: string, i: nat) { exists k: nat :: part == Noughts(k) + Numeral(i, Dec) }

  lemma {:induction false} NoughtsParse(k: nat)
    ensures AllDigits(Noughts(k), Dec) && ParseNumeral(Noughts(k), Dec) == 0
  {
    if k > 0 {
      NoughtsParse(k - 1);
      NoughtsAppend(k - 1);
      ParseAppend(Noughts(k - 1), '0', Dec);
    }
  }

  lemma {:induction false} PaddedParse(k: nat, s: string)
    requires AllDigits(s, Dec)
    ensures AllDigits(Noughts(k) + s, Dec) && ParseNumeral(Noughts(k) + s, Dec) == ParseNumeral(s, Dec)
  {
    NoughtsParse(k);
    if s == "" {
      assert Noughts(k) + s == Noughts(k);
    } else {
      var t, c := s[..|s| - 1], s[|s| - 1];
      PaddedParse(k, t);
      assert s == t + [c] && Noughts(k) + s == (Noughts(k) + t) + [c];
      ParseAppend(Noughts(k) + t, c, Dec);
      ParseAppend(t, c, Dec);
    }
  }

  lemma DecimalLower(s: string)
    requires AllDigits(s, Dec)
    ensures Lower(s) == s
  {
    forall i | 0 <= i < |s| ensures Lower(s)[i] == s[i] { assert IsDigit(s[i], Dec); }
  }

  lemma SpellsExact(part: string, i: nat)
    ensures part != "" && AllDigits(part, Dec) && ParseNumeral(part, Dec) == i <==> Spells(part, i)
  {
    if part != "" && AllDigits(part, Dec) {
      var k := NumeralExact(part, Dec);
      DecimalLower(part);
      assert Spells(part, ParseNumeral(part, Dec));
    }
    if k: nat :| part == Noughts(k) + Numeral(i, Dec) {
      NumeralRoundTrip(i, Dec);
      PaddedParse(k, Numeral(i, Dec));
    }
  }

  /** What a part means inside a list. */
  lemma ListStepExact(part: string, i: nat)
    ensures ListStep(part) == Ok(Index(i)) <==> Spells(part, i)
    ensures ListStep(part) == Ok(Dash) <==> part == "-"
    ensures ListStep(part).Err? ==> ListStep(part) == Err(JsonPointerException) || ListStep(part) == Err(ValueError)
    ensures ListStep(part) == Err(ValueError) <==> part != "" && part[0] == '0' && forall n: nat :: !Spells(part, n)
  {
    forall n: nat { SpellsExact(part, n); }
    if part != "" && AllDigits(part, Dec) { assert Spells(part, ParseNumeral(part, Dec)); }
    SpellsExact(part, i);
    if part == "-" { assert !IsDigit(part[0], Dec); }
  }

  // ----- places in a document

  /** One step to a place: a key of a dictionary, or an index of a list or string. */
  datatype Place = Key(k: string) | At(i: nat)

  /** What is one step down. */
  function Child(doc: Json, place: Place): Option<Json> {
    match doc
    case Dict(m) => if place.Key? && place.k in m then Some(m[place.k]) else None
    case List(items) => if place.At? && place.i < |items| then Some(items[place.i]) else None
    case Atom(Text(s)) => if place.At? && place.i < |s| then Some(Atom(Text([s[place.i]]))) else None
    case Atom(_) => None
  }

  function Read(doc: Json, places: seq<Place>): Option<Json>
    decreases |places|
  {
    if places == [] then Some(doc)
    else if Child(doc, places[0]).None? then None
    else Read(Child(doc, places[0]).value, places[1..])
  }

  /** The part of a pointer that leads to a place. */
  ghost predicate Names(doc: Json, part: string, place: Place) {
    Child(doc, place).Some? && match place case Key(k) => part == k case At(i) => Spells(part, i)
  }

  /** The parts lead, step by step, to the places. */
  ghost predicate Leads(doc: Json, parts: seq<string>, places: seq<Place>)
    decreases |parts|
  {
    |parts| == |places| &&
    (parts != [] ==> Names(doc, parts[0], places[0]) && Leads(Child(doc, places[0]).value, parts[1..], places[1..]))
  }

  lemma WalkExact(doc: Json, part: string)
    ensures Walk(doc, part).Err? ==> Walk(doc, part) == Err(JsonPointerException) || Walk(doc, part) == Err(ValueError)
    ensures forall place :: Names(doc, part, place) ==> Walk(doc, part) == Ok(Child(doc, place))
    ensures (exists c :: Walk(doc, part) == Ok(Some(c))) ==> exists place :: Names(doc, part, place)
  {
    forall i: nat { ListStepExact(part, i); }
    ListStepExact(part, 0);
    if c :| Walk(doc, part) == Ok(Some(c)) {
      if doc.Dict? {
        assert Names(doc, part, Key(part));
      } else {
        assert Names(doc, part, At(ListStep(part).value.i));
      }
    }
  }

  /** The places the parts lead to are read. */
  lemma {:induction false} LeadsReads(doc: Json, parts: seq<string>, places: seq<Place>)
    requires Leads(doc, parts, places)
    ensures Read(doc, places).Some?
    decreases |parts|
  {
    if parts != [] { LeadsReads(Child(doc, places[0]).value, parts[1..], places[1..]); }
  }

  /** d is like doc except for what is at the places. */
  ghost predicate OnlyAt(doc: Json, d: Json, places: seq<Place>) {
    forall other :: !(places <= other) && !(other <= places) ==> Read(d, other) == Read(doc, other)
  }

  // ----- one step

  /** Replacing a child replaces that child only. */
  lemma PutChildExact(doc: Json, part: string, place: Place, c: Json)
    requires Names(doc, part, place) && !doc.Atom?
    ensures Child(PutChild(doc, part, c), place) == Some(c)
    ensures forall q :: q != place ==> Child(PutChild(doc, part, c), q) == Child(doc, q)
  {
    if place.At? { ListStepExact(part, place.i); }
  }

  lemma {:induction false} AtomRefuses(doc: Json, parts: seq<string>, e: Edit)
    requires doc.Atom? && parts != []
    ensures ApplyAt(doc, parts, e).Err?
    decreases |parts|
  {
    if |parts| > 1 && Walk(doc, parts[0]).Ok? && Walk(doc, parts[0]).value.Some? {
      AtomRefuses(Walk(doc, parts[0]).value.value, parts[1..], e);
    }
  }

  lemma ReadStep(doc: Json, place: Place, more: seq<Place>)
    ensures Read(doc, [place] + more) ==
      if Child(doc, place).None? then None else Read(Child(doc, place).value, more)
  {
    assert ([place] + more)[1..] == more;
  }

  /** A change below one child is a change below the document. */
  lemma OnlyBelow(doc: Json, d: Json, place: Place, child: Json, c: Json, more: seq<Place>)
    requires Child(doc, place) == Some(child) && Child(d, place) == Some(c) && OnlyAt(child, c, more)
    requires forall q :: q != place ==> Child(d, q) == Child(doc, q)
    ensures OnlyAt(doc, d, [place] + more)
  {
    var places := [place] + more;
    forall other | !(places <= other) && !(other <= places) ensures Read(d, other) == Read(doc, other) {
      assert other != [];
      var rest := other[1..];
      assert other == [other[0]] + rest;
      ReadStep(doc, other[0], rest);
      ReadStep(d, other[0], rest);
      if other[0] == place { assert !(more <= rest) && !(rest <= more); }
    }
  }

  // ----- one operation

  function Front(parts: seq<string>): seq<string>
    requires parts != []
  {
    parts[..|parts| - 1]
  }

  /** d is doc with the container at the places edited by the last part, and nothing
      else changed. */
  ghost predicate EditedAt(doc: Json, parts: seq<string>, e: Edit, places: seq<Place>, d: Json)
    requires parts != []
  {
    && Leads(doc, Front(parts), places) && Read(doc, places).Some?
    && EditMember(Read(doc, places).value, parts[|parts| - 1], e).Ok?
    && Read(d, places) == Some(EditMember(Read(doc, places).value, parts[|parts| - 1], e).value)
    && OnlyAt(doc, d, places)
  }

  lemma LeadsStep(doc: Json, parts: seq<string>, place: Place, more: seq<Place>)
    requires |parts| > 1 && Names(doc, parts[0], place)
    ensures Leads(doc, Front(parts), [place] + more) <==> Leads(Child(doc, place).value, Front(parts[1..]), more)
  {
    assert Front(parts)[1..] == Front(parts[1..]) && Front(parts)[0] == parts[0];
    assert ([place] + more)[1..] == more;
  }

  /** An operation that succeeds edits the container that all parts but the last lead
      to, and leaves every other place as it was. */
  lemma {:induction false} ApplyEdits(doc: Json, parts: seq<string>, e: Edit) returns (places: seq<Place>)
    requires parts != [] && ApplyAt(doc, parts, e).Ok?
    ensures EditedAt(doc, parts, e, places, ApplyAt(doc, parts, e).value)
    decreases |parts|
  {
    if |parts| == 1 {
      places := [];
    } else {
      var part, rest := parts[0], parts[1..];
      WalkExact(doc, part);
      var child := Walk(doc, part).value.value;
      if doc.Atom? { AtomRefuses(doc, parts, e); }
      var place :| Names(doc, part, place);
      var more := ApplyEdits(child, rest, e);
      var c := ApplyAt(child, rest, e).value;
      EditedBelow(doc, parts, e, place, more, child, c);
      places := [place] + more;
    }
  }

  lemma EditedBelow(doc: Json, parts: seq<string>, e: Edit, place: Place, more: seq<Place>, child: Json, c: Json)
    requires |parts| > 1 && Names(doc, parts[0], place) && Child(doc, place) == Some(child) && !doc.Atom?
    requires EditedAt(child, parts[1..], e, more, c)
    ensures EditedAt(doc, parts, e, [place] + more, PutChild(doc, parts[0], c))
  {
    var d := PutChild(doc, parts[0], c);
    PutChildExact(doc, parts[0], place, c);
    OnlyBelow(doc, d, place, child, c, more);
    LeadsStep(doc, parts, place, more);
    ReadStep(doc, place, more);
    ReadStep(d, place, more);
  }

  /** It succeeds exactly when they lead to a container that takes the edit; what the
      container refuses is refused with its error, and parts that lead nowhere are
      refused as a bad pointer, or as no number. */
  lemma {:induction false} ApplyLeads(doc: Json, parts: seq<string>, e: Edit, places: seq<Place>)
    requires parts != [] && Leads(doc, Front(parts), places)
    ensures Read(doc, places).Some?
    ensures var edited := EditMember(Read(doc, places).value, parts[|parts| - 1], e);
      && (ApplyAt(doc, parts, e).Ok? <==> edited.Ok?)
      && (edited.Err? ==> ApplyAt(doc, parts, e) == edited)
    decreases |parts|
  {
    LeadsReads(doc, Front(parts), places);
    if |parts| > 1 {
      var place, more := places[0], places[1..];
      assert Names(doc, Front(parts)[0], place);
      LeadsStep(doc, parts, place, more);
      WalkExact(doc, parts[0]);
      assert places == [place] + more;
      ReadStep(doc, place, more);
      ApplyLeads(Child(doc, place).value, parts[1..], e, more);
    }
  }

  lemma {:induction false} ApplyNowhere(doc: Json, parts: seq<string>, e: Edit)
    requires parts != [] && forall places :: !Leads(doc, Front(parts), places)
    ensures ApplyAt(doc, parts, e) == Err(JsonPointerException) || ApplyAt(doc, parts, e) == Err(ValueError)
    decreases |parts|
  {
    assert |parts| == 1 ==> Leads(doc, Front(parts), []);
    if |parts| > 1 {
      WalkExact(doc, parts[0]);
      if c :| Walk(doc, parts[0]) == Ok(Some(c)) {
        var place :| Names(doc, parts[0], place);
        forall more ensures !Leads(c, Front(parts[1..]), more) {
          assert !Leads(doc, Front(parts), [place] + more);
          LeadsStep(doc, parts, place, more);
        }
        ApplyNowhere(c, parts[1..], e);
      }
    }
  }

  // ----- the edit itself

  /** Element i of the list is new and the others have kept their order. */
  ghost predicate Inserted(items: seq<Json>, i: nat, v: Json, d: Json) {
    && i <= |items| && d.List? && |d.items| == |items| + 1 && d.items[i] == v
    && (forall j :: 0 <= j < i ==> d.items[j] == items[j])
    && forall j :: i <= j < |items| ==> d.items[j + 1] == items[j]
  }

  ghost predicate Replaced(items: seq<Json>, i: nat, v: Json, d: Json) {
    && i < |items| && d.List? && |d.items| == |items| && d.items[i] == v
    && forall j :: 0 <= j < |items| && j != i ==> d.items[j] == items[j]
  }

  /** An edit of a list, at the index that the part spells or, for `-`, at its end. */
  lemma ListEdited(items: seq<Json>, part: string, e: Edit, i: nat)
    requires Spells(part, i) || (part == "-" && i == |items| && e.Add?)
    ensures var r := EditMember(List(items), part, e);
      match e
      case Add(v) => if i <= |items| then r.Ok? && Inserted(items, i, v, r.value) else r == Err(JsonPatchConflict)
      case Remove =>
        if i < |items| then r.Ok? && r.value.List? && Inserted(r.value.items, i, items[i], List(items))
        else r == Err(JsonPatchConflict)
      case Replace(v) =>
        if i < |items| then r.Ok? && Replaced(items, i, v, r.value)
        else r == Err(if i == |items| then IndexError else JsonPatchConflict)
  {
    ListStepExact(part, i);
    var r := EditMember(List(items), part, e);
    if e.Remove? && i < |items| {
      var w := r.value.items;
      assert w == items[..i] + items[i + 1..];
      forall j | i <= j < |w| ensures items[j + 1] == w[j] {}
    }
  }

  /** Any other part of a list is refused. */
  lemma ListRefuses(items: seq<Json>, part: string, e: Edit)
    requires !(part == "-" && e.Add?) && forall i: nat :: !Spells(part, i)
    ensures var r := EditMember(List(items), part, e);
      if part == "-" then r == Err(TypeError) else r == Err(JsonPointerException) || r == Err(ValueError)
  {
    ListStepExact(part, 0);
    if ListStep(part).Ok? && ListStep(part).value.Index? { ListStepExact(part, ListStep(part).value.i); }
  }

  ghost predicate MemberAfter(m: map<string, Json>, part: string, e: Edit, k: string, found: Option<Json>) {
    if k != part then found == Child(Dict(m), Key(k))
    else if e.Remove? then found.None?
    else found == Some(e.value)
  }

  /** An edit of a dictionary: the key gets the value, or loses its own, which must be
      there to be removed or replaced; every other key keeps its value. */
  lemma DictEdited(m: map<string, Json>, part: string, e: Edit, k: string)
    ensures var r := EditMember(Dict(m), part, e);
      && (r.Err? ==> r == Err(JsonPatchConflict)) && (r.Ok? <==> e.Add? || part in m)
      && (r.Ok? ==> r.value.Dict? && MemberAfter(m, part, e, k, Child(r.value, Key(k))))
  {}

  /** A pointer without parts stands for the document: it can be replaced, and added
      over a dictionary, but not removed. */
  lemma RootEdited(doc: Json, v: Json)
    ensures ApplyAt(doc, [], Replace(v)) == Ok(v)
    ensures ApplyAt(doc, [], Add(v)) == Ok(v) <==> doc.Dict?
    ensures !doc.Dict? ==> ApplyAt(doc, [], Add(v)) == Err(TypeError) == ApplyAt(doc, [], Remove)
    ensures doc.Dict? ==> ApplyAt(doc, [], Remove) == Err(JsonPatchConflict)
  {}

  // ----- a patch

  ghost predicate ParsedAs(ops: seq<Op>, parsed: seq<PartOp>) {
    && |parsed| == |ops|
    && forall i :: 0 <= i < |ops| ==> P.Parse(ops[i].path) == P.Ok(parsed[i].parts) && parsed[i].edit == ops[i].edit
  }

  /** One bad path among the operations refuses a patch before anything is applied. */
  lemma {:induction false} BadPathFirst(doc: Json, ops: seq<Op>, i: nat)
    requires i < |ops| && P.Parse(ops[i].path).JsonPointerException?
    ensures ParseOps(ops) == Err(JsonPointerException) && ApplyPatch(doc, ops) == Err(JsonPointerException)
  {
    if i > 0 && P.Parse(ops[0].path).Ok? { BadPathFirst(doc, ops[1..], i - 1); }
  }

  lemma {:induction false} ParsedOps(ops: seq<Op>, parsed: seq<PartOp>)
    requires ParsedAs(ops, parsed)
    ensures ParseOps(ops) == Ok(parsed)
  {
    if ops != [] {
      ParsedOps(ops[1..], parsed[1..]);
      assert parsed == [parsed[0]] + parsed[1..];
    }
  }

  lemma OneOp(doc: Json, before: seq<PartOp>, op: PartOp)
    ensures ApplyParts(doc, before).Ok? ==>
      ApplyParts(ApplyParts(doc, before).value, [op]) == ApplyAt(ApplyParts(doc, before).value, op.parts, op.edit)
  {
    assert [op][1..] == [];
  }

  /** Otherwise its operations are applied one after the other, each to what the ones
      before it leave; the first that is refused refuses the patch. */
  lemma PatchRuns(doc: Json, ops: seq<Op>, parsed: seq<PartOp>, k: nat)
    requires ParsedAs(ops, parsed) && k < |parsed|
    ensures ApplyPatch(doc, ops) == ApplyParts(doc, parsed)
    ensures ApplyParts(doc, parsed[..k + 1]) ==
      match ApplyParts(doc, parsed[..k])
      case Err(x) => Err(x)
      case Ok(d) => ApplyAt(d, parsed[k].parts, parsed[k].edit)
    ensures ApplyParts(doc, parsed[..k]).Err? ==> ApplyParts(doc, parsed) == ApplyParts(doc, parsed[..k])
    ensures ApplyParts(doc, parsed[..|parsed|]) == ApplyParts(doc, parsed)
  {
    ParsedOps(ops, parsed);
    assert parsed[..k + 1] == parsed[..k] + [parsed[k]];
    ApplyConcat(doc, parsed[..k], [parsed[k]]);
    OneOp(doc, parsed[..k], parsed[k]);
    assert parsed == parsed[..k] + parsed[k..];
    ApplyConcat(doc, parsed[..k], parsed[k..]);
    assert parsed[..|parsed|] == parsed;
  }
}
