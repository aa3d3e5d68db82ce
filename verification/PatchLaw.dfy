/** When generating a patch and applying it gives the target: exactly when no key
    that the patch has to spell in a path is changed by percent-decoding. */
module PatchLaw {
  import opened Wrappers
  import opened JsonPatch
  import opened Text
  import P = JsonPointer
  import L = ListDiff

  // ----- what the paths of a patch are read as

  /** The key that a part of a path is looked up under when it is applied: the
      path is written and read when the patch is made, and again when the
      operation is set up. */
  function LookedUp(k: string): string { P.Reread(P.Reread(k)) }

  /** A key is looked up as itself exactly when it has no percent triple; a key
      with one is looked up as something shorter. */
  lemma ReadTwice(k: string)
    ensures |LookedUp(k)| <= |k| && (P.HasTriple(k) ==> |LookedUp(k)| < |k|)
    ensures LookedUp(k) == k <==> !P.HasTriple(k)
  {
    P.PartRoundTrip(k);
    P.PartRoundTrip(P.Reread(k));
  }

  function ReadParts(parts: seq<string>): (r: seq<string>)
    ensures |r| == |parts| && forall i :: 0 <= i < |r| ==> r[i] == LookedUp(parts[i])
  {
    seq(|parts|, i requires 0 <= i < |parts| => LookedUp(parts[i]))
  }

  function Read(ops: seq<PartOp>): (r: seq<PartOp>)
    ensures |r| == |ops| && forall i :: 0 <= i < |r| ==> r[i] == PartOp(ReadParts(ops[i].parts), ops[i].edit)
  {
    seq(|ops|, i requires 0 <= i < |ops| => PartOp(ReadParts(ops[i].parts), ops[i].edit))
  }

  lemma PathReadsTwice(parts: seq<string>)
    ensures P.Parse(PointerPath(parts)) == P.Ok(ReadParts(parts))
  {
    P.PathReads(parts);
    P.PathReads(P.RereadAll(parts));
    assert P.RereadAll(P.RereadAll(parts)) == ReadParts(parts);
  }

  lemma {:induction false} PatchReads(ops: seq<PartOp>)
    ensures ParseOps(ToOps(ops)) == Ok(Read(ops))
  {
    if ops != [] {
      PathReadsTwice(ops[0].parts);
      PatchReads(ops[1..]);
      var text := ToOps(ops);
      assert text[1..] == ToOps(ops[1..]);
      assert Read(ops) == [PartOp(ReadParts(ops[0].parts), ops[0].edit)] + Read(ops[1..]);
    }
  }

  // ----- operations that stay away from a member

  /** The path goes through the dictionary at `path` to a member other than k. */
  predicate SparesPath(parts: seq<string>, path: seq<string>, k: string) {
    |parts| > |path| && parts[..|path|] == path && parts[|path|] != k
  }

  predicate Spares(ops: seq<PartOp>, path: seq<string>, k: string) {
    forall i :: 0 <= i < |ops| ==> SparesPath(ops[i].parts, path, k)
  }

  ghost predicate DictAt(root: Json, path: seq<string>) { Get(root, path).Some? && Get(root, path).value.Dict? }

  ghost function MembersAt(root: Json, path: seq<string>): map<string, Json>
    requires DictAt(root, path)
  {
    Get(root, path).value.members
  }

  lemma SparedLocally(m: map<string, Json>, q: seq<string>, e: Edit, k: string)
    requires q != [] && q[0] != k && ApplyAt(Dict(m), q, e).Ok?
    ensures var c := ApplyAt(Dict(m), q, e).value; c.Dict? && SameAt(c.members, m, k)
  {}

  lemma SparedOnce(root: Json, path: seq<string>, parts: seq<string>, e: Edit, k: string)
    requires DictAt(root, path) && SparesPath(parts, path, k) && ApplyAt(root, parts, e).Ok?
    ensures var r := ApplyAt(root, parts, e).value;
      DictAt(r, path) && SameAt(MembersAt(r, path), MembersAt(root, path), k)
  {
    var q := parts[|path|..];
    assert parts == path + q;
    ApplyUnder(root, path, q, e);
    SparedLocally(MembersAt(root, path), q, e, k);
    PutGet(root, path, ApplyAt(Dict(MembersAt(root, path)), q, e).value);
  }

  /** Operations that spare a member leave it as it is. */
  lemma {:induction false} Spared(root: Json, path: seq<string>, ops: seq<PartOp>, k: string)
    requires DictAt(root, path) && Spares(ops, path, k) && ApplyParts(root, ops).Ok?
    ensures var r := ApplyParts(root, ops).value;
      DictAt(r, path) && SameAt(MembersAt(r, path), MembersAt(root, path), k)
    decreases |ops|
  {
    if ops != [] {
      SparedOnce(root, path, ops[0].parts, ops[0].edit, k);
      var next := ApplyAt(root, ops[0].parts, ops[0].edit).value;
      Spared(next, path, ops[1..], k);
    }
  }

  // ----- where the operations of a diff go

  predicate StartsAt(ops: seq<PartOp>, path: seq<string>) {
    forall i :: 0 <= i < |ops| ==> |ops[i].parts| >= |path| && ops[i].parts[..|path|] == path
  }

  /** The path goes through a member of `keys` in which the dictionaries differ. */
  ghost predicate Through(parts: seq<string>, path: seq<string>, keys: seq<string>, src: map<string, Json>,
                          dst: map<string, Json>) {
    |parts| > |path| && parts[..|path|] == path && parts[|path|] in keys && !SameAt(src, dst, parts[|path|])
  }

  ghost predicate AllThrough(ops: seq<PartOp>, path: seq<string>, keys: seq<string>, src: map<string, Json>,
                             dst: map<string, Json>) {
    forall i :: 0 <= i < |ops| ==> Through(ops[i].parts, path, keys, src, dst)
  }

  lemma {:induction false} ListOpsStart(path: seq<string>, edits: seq<L.Edit<Json>>)
    ensures StartsAt(ListOps(path, edits), path)
  {
    if edits != [] { ListOpsStart(path, edits[1..]); }
  }

  lemma {:induction false} ValuesStart(ord: Order, path: seq<string>, src: Json, dst: Json)
    ensures StartsAt(CompareValues(ord, path, src, dst), path)
    decreases src, 1, 0
  {
    if src == dst {
    } else if src.Dict? && dst.Dict? {
      KeysThrough(ord, path, ord(path, src.members), src, dst);
      AddsThrough(path, ord(path, dst.members), src.members, dst.members);
    } else if src.List? && dst.List? {
      ListOpsStart(path, L.Compare(src.items, dst.items));
    }
  }

  lemma {:induction false} KeysThrough(ord: Order, path: seq<string>, keys: seq<string>, src: Json, dst: Json)
    requires src.Dict? && dst.Dict?
    ensures AllThrough(CompareKeys(ord, path, keys, src, dst), path, keys, src.members, dst.members)
    decreases src, 0, |keys|
  {
    if keys != [] {
      KeysThrough(ord, path, keys[1..], src, dst);
      KeyThrough(ord, path, keys[0], src, dst);
    }
  }

  function KeyOps(ord: Order, path: seq<string>, key: string, src: Json, dst: Json): seq<PartOp>
    requires src.Dict? && dst.Dict?
  {
    if key !in src.members then []
    else if key !in dst.members then [PartOp(path + [key], Remove)]
    else CompareValues(ord, path + [key], src.members[key], dst.members[key])
  }

  lemma KeyThrough(ord: Order, path: seq<string>, key: string, src: Json, dst: Json)
    requires src.Dict? && dst.Dict?
    ensures AllThrough(KeyOps(ord, path, key, src, dst), path, [key], src.members, dst.members)
    decreases src, 0, 0
  {
    if key in src.members && key in dst.members {
      var ops := CompareValues(ord, path + [key], src.members[key], dst.members[key]);
      ValuesStart(ord, path + [key], src.members[key], dst.members[key]);
      forall i | 0 <= i < |ops| ensures Through(ops[i].parts, path, [key], src.members, dst.members) {
        var parts := ops[i].parts;
        assert parts[..|path| + 1] == path + [key];
        assert parts[..|path|] == parts[..|path| + 1][..|path|] == path;
        assert parts[|path|] == parts[..|path| + 1][|path|] == key;
      }
    }
  }

  lemma {:induction false} AddsThrough(path: seq<string>, keys: seq<string>,
                                       src: map<string, Json>, dst: map<string, Json>)
    ensures AllThrough(AddKeys(path, keys, src, dst), path, keys, src, dst)
  {
    if keys != [] { AddsThrough(path, keys[1..], src, dst); }
  }

  // ----- the operations as they are read spare a member

  lemma ReadSpares(ops: seq<PartOp>, path: seq<string>, keys: seq<string>,
                   src: map<string, Json>, dst: map<string, Json>, k: string)
    requires CleanParts(path) && AllThrough(ops, path, keys, src, dst)
    requires forall x :: x in keys && !SameAt(src, dst, x) ==> LookedUp(x) != k
    ensures Spares(Read(ops), path, k)
  {
    var r := Read(ops);
    forall i | 0 <= i < |r| ensures SparesPath(r[i].parts, path, k) {
      var parts := ops[i].parts;
      assert Through(parts, path, keys, src, dst);
      forall j | 0 <= j < |path| ensures LookedUp(parts[j]) == path[j] {
        assert parts[j] == parts[..|path|][j] == path[j];
        ReadTwice(path[j]);
      }
      assert r[i].parts[..|path|] == path;
    }
  }

  lemma ReadConcat(a: seq<PartOp>, b: seq<PartOp>)
    ensures Read(a + b) == Read(a) + Read(b)
  {}

  // ----- a percent triple in the way breaks the law

  /** The longest of some keys. */
  lemma {:induction false} Longest(keys: set<string>) returns (k: string)
    requires keys != {}
    ensures k in keys && forall x :: x in keys ==> |x| <= |k|
    decreases |keys|
  {
    var x :| x in keys;
    if keys == {x} { return x; }
    assert keys == (keys - {x}) + {x};
    k := Longest(keys - {x});
    if |k| < |x| { k := x; }
  }

  /** The documents differ under k, and k cannot be spelled in a path. */
  ghost predicate Lost(src: map<string, Json>, dst: map<string, Json>, k: string) {
    (k in src || k in dst) && !SameAt(src, dst, k) && P.HasTriple(k)
  }

  /** The longest lost key is not touched by any operation: a shorter key is
      what a lost key is read as. */
  lemma LostKeyStays(ord: Order, root: Json, path: seq<string>, src: Json, dst: Json, k: string)
    requires src.Dict? && dst.Dict? && CleanParts(path) && Get(root, path) == Some(src) &&
      Lost(src.members, dst.members, k)
    requires forall x :: Lost(src.members, dst.members, x) ==> |x| <= |k|
    ensures var r := ApplyParts(root, Read(CompareValues(ord, path, src, dst)));
      r.Ok? ==> Get(r.value, path) != Some(dst)
  {
    var a, b := src.members, dst.members;
    var sk, dk := ord(path, a), ord(path, b);
    var first, second := CompareKeys(ord, path, sk, src, dst), AddKeys(path, dk, a, b);
    forall x | !SameAt(a, b, x) ensures LookedUp(x) != k {
      ReadTwice(x);
      if P.HasTriple(x) { assert Lost(a, b, x); }
    }
    KeysThrough(ord, path, sk, src, dst);
    AddsThrough(path, dk, a, b);
    ReadSpares(first, path, sk, a, b, k);
    ReadSpares(second, path, dk, a, b, k);
    ReadConcat(first, second);
    assert CompareValues(ord, path, src, dst) == first + second;
    var ops := Read(first + second);
    if ApplyParts(root, ops).Ok? { Spared(root, path, ops, k); }
  }

  lemma {:induction false} GetMember(root: Json, path: seq<string>, k: string)
    requires DictAt(root, path)
    ensures Get(root, path + [k]) == if k in MembersAt(root, path) then Some(MembersAt(root, path)[k]) else None
    decreases |path|
  {
    if path == [] {
      assert path + [k] == [k];
      if k in root.members { assert [k][1..] == []; }
    } else {
      assert (path + [k])[1..] == path[1..] + [k];
      GetMember(root.members[path[0]], path[1..], k);
    }
  }

  lemma ApplySplit(root: Json, a: seq<PartOp>, b: seq<PartOp>)
    requires ApplyParts(root, a + b).Ok?
    ensures ApplyParts(root, a).Ok? && ApplyParts(root, a + b) == ApplyParts(ApplyParts(root, a).value, b)
  {
    ApplyConcat(root, a, b);
  }

  /** All the keys in which the dictionaries differ can be spelled. */
  ghost predicate KeysSpelled(src: map<string, Json>, dst: map<string, Json>) {
    forall x :: (x in src || x in dst) && !SameAt(src, dst, x) ==> !P.HasTriple(x)
  }

  /** Operations on other keys spare k. */
  lemma OthersSpare(ops: seq<PartOp>, path: seq<string>, keys: seq<string>,
                    src: map<string, Json>, dst: map<string, Json>, k: string)
    requires CleanParts(path) && AllThrough(ops, path, keys, src, dst) && KeysSpelled(src, dst)
    requires forall x :: x in keys && !SameAt(src, dst, x) ==> x != k
    ensures Spares(Read(ops), path, k)
  {
    forall x | x in keys && !SameAt(src, dst, x) ensures LookedUp(x) != k { ReadTwice(x); }
    ReadSpares(ops, path, keys, src, dst, k);
  }

  /** A key that cannot be spelled, here or further down, leaves the dictionary
      different from the target's. */
  lemma {:induction false} Broken(ord: Order, root: Json, path: seq<string>, src: Json, dst: Json)
    requires IsOrder(ord) && CleanParts(path) && Get(root, path) == Some(src) && !DiffClean(src, dst)
    ensures var r := ApplyParts(root, Read(CompareValues(ord, path, src, dst)));
      r.Ok? ==> Get(r.value, path) != Some(dst)
    decreases src, 1, 0
  {
    var a, b := src.members, dst.members;
    var lost := set x | x in a.Keys + b.Keys && Lost(a, b, x);
    if lost != {} {
      var k := Longest(lost);
      LostKeyStays(ord, root, path, src, dst, k);
    } else {
      assert KeysSpelled(a, b) by {
        forall x | (x in a || x in b) && !SameAt(a, b, x) ensures !P.HasTriple(x) { assert x !in lost; }
      }
      var k :| k in a && k in b && !SameAt(a, b, k) && !DiffClean(a[k], b[k]);
      var sk, dk := ord(path, a), ord(path, b);
      assert Enumerates(sk, a);
      var first, second := CompareKeys(ord, path, sk, src, dst), AddKeys(path, dk, a, b);
      assert CompareValues(ord, path, src, dst) == first + second;
      ReadConcat(first, second);
      if ApplyParts(root, Read(first) + Read(second)).Ok? {
        ApplySplit(root, Read(first), Read(second));
        BrokenKey(ord, root, path, sk, src, dst, k);
        AddsSpare(path, dk, a, b, k);
        Spared(ApplyParts(root, Read(first)).value, path, Read(second), k);
      }
    }
  }

  lemma {:induction false} AddsSpare(path: seq<string>, keys: seq<string>,
                                     src: map<string, Json>, dst: map<string, Json>, k: string)
    requires CleanParts(path) && KeysSpelled(src, dst) && k in src
    ensures Spares(Read(AddKeys(path, keys, src, dst)), path, k)
  {
    if keys != [] {
      AddsSpare(path, keys[1..], src, dst, k);
      var x := keys[0];
      if x in dst && x !in src {
        var one := [PartOp(path + [x], Add(dst[x]))];
        assert !SameAt(src, dst, x) && (path + [x])[..|path|] == path;
        OthersSpare(one, path, [x], src, dst, k);
        ReadConcat(one, AddKeys(path, keys[1..], src, dst));
      } else {
        assert [] + AddKeys(path, keys[1..], src, dst) == AddKeys(path, keys[1..], src, dst);
      }
    }
  }

  lemma {:induction false} BrokenKey(ord: Order, root: Json, path: seq<string>, keys: seq<string>, src: Json,
                                     dst: Json, k: string)
    requires IsOrder(ord) && CleanParts(path) && src.Dict? && dst.Dict? && KeysSpelled(src.members, dst.members)
    requires DictAt(root, path) && k in src.members && SameAt(MembersAt(root, path), src.members, k)
    requires k in keys && forall i, j :: 0 <= i < j < |keys| ==> keys[i] != keys[j]
    requires k in dst.members && !SameAt(src.members, dst.members, k) && !DiffClean(src.members[k], dst.members[k])
    requires ApplyParts(root, Read(CompareKeys(ord, path, keys, src, dst))).Ok?
    ensures var r := ApplyParts(root, Read(CompareKeys(ord, path, keys, src, dst))).value;
      DictAt(r, path) && !SameAt(MembersAt(r, path), dst.members, k)
    decreases src, 0, |keys|
  {
    var x, rest := keys[0], CompareKeys(ord, path, keys[1..], src, dst);
    var ops := KeyOps(ord, path, x, src, dst);
    assert CompareKeys(ord, path, keys, src, dst) == ops + rest;
    ReadConcat(ops, rest);
    ApplySplit(root, Read(ops), Read(rest));
    var next := ApplyParts(root, Read(ops)).value;
    if x == k {
      BrokenMember(ord, root, path, src, dst, k);
      assert k !in keys[1..];
      LaterKeysSpare(ord, next, path, keys[1..], src, dst, k);
    } else {
      OtherKeySpares(ord, root, path, x, src, dst, k);
      assert keys == [x] + keys[1..];
      BrokenKey(ord, next, path, keys[1..], src, dst, k);
    }
  }

  /** The operations for other keys leave the member under k as it is. */
  lemma LaterKeysSpare(ord: Order, root: Json, path: seq<string>, keys: seq<string>, src: Json, dst: Json, k: string)
    requires CleanParts(path) && src.Dict? && dst.Dict? && KeysSpelled(src.members, dst.members)
    requires DictAt(root, path) && k !in keys && ApplyParts(root, Read(CompareKeys(ord, path, keys, src, dst))).Ok?
    ensures var r := ApplyParts(root, Read(CompareKeys(ord, path, keys, src, dst))).value;
      DictAt(r, path) && SameAt(MembersAt(r, path), MembersAt(root, path), k)
  {
    var ops := CompareKeys(ord, path, keys, src, dst);
    KeysThrough(ord, path, keys, src, dst);
    OthersSpare(ops, path, keys, src.members, dst.members, k);
    Spared(root, path, Read(ops), k);
  }

  lemma OtherKeySpares(ord: Order, root: Json, path: seq<string>, x: string, src: Json, dst: Json, k: string)
    requires CleanParts(path) && src.Dict? && dst.Dict? && KeysSpelled(src.members, dst.members)
    requires DictAt(root, path) && x != k && ApplyParts(root, Read(KeyOps(ord, path, x, src, dst))).Ok?
    ensures var r := ApplyParts(root, Read(KeyOps(ord, path, x, src, dst))).value;
      DictAt(r, path) && SameAt(MembersAt(r, path), MembersAt(root, path), k)
  {
    var ops := KeyOps(ord, path, x, src, dst);
    KeyThrough(ord, path, x, src, dst);
    OthersSpare(ops, path, [x], src.members, dst.members, k);
    Spared(root, path, Read(ops), k);
  }

  /** A member that comes out wrong by itself comes out wrong in its dictionary. */
  lemma {:induction false} BrokenMember(ord: Order, root: Json, path: seq<string>, src: Json, dst: Json, k: string)
    requires IsOrder(ord) && CleanParts(path) && src.Dict? && dst.Dict? && KeysSpelled(src.members, dst.members)
    requires DictAt(root, path) && k in src.members && SameAt(MembersAt(root, path), src.members, k)
    requires k in dst.members && !SameAt(src.members, dst.members, k) && !DiffClean(src.members[k], dst.members[k])
    requires ApplyParts(root, Read(KeyOps(ord, path, k, src, dst))).Ok?
    ensures var r := ApplyParts(root, Read(KeyOps(ord, path, k, src, dst))).value;
      DictAt(r, path) && !SameAt(MembersAt(r, path), dst.members, k)
    decreases src, 0, 0
  {
    var ops := KeyOps(ord, path, k, src, dst);
    var other := k + "x";
    assert other != k by { assert |other| != |k|; }
    KeyThrough(ord, path, k, src, dst);
    OthersSpare(ops, path, [k], src.members, dst.members, other);
    Spared(root, path, Read(ops), other);
    var r := ApplyParts(root, Read(ops)).value;
    GetMember(root, path, k);
    GetMember(r, path, k);
    Broken(ord, root, path + [k], src.members[k], dst.members[k]);
  }

  // ----- the law

  /** Generating a patch and applying it gives the target exactly when no key under
      which the documents differ, on the way down through dictionaries, holds a
      percent triple. */
  lemma DiffThenPatchIff(ord: Order, src: Json, dst: Json)
    requires IsOrder(ord)
    ensures ApplyPatch(src, FromDiff(ord, src, dst)) == Ok(dst) <==> DiffClean(src, dst)
  {
    if DiffClean(src, dst) {
      DiffThenPatch(ord, src, dst);
    } else {
      PatchReads(CompareValues(ord, [], src, dst));
      Broken(ord, src, [], src, dst);
    }
  }

  /** A concrete failure: the only key of a document cannot be removed. */
  lemma RemovePercentKey(ord: Order)
    requires IsOrder(ord)
    ensures var src := Dict(map["%41" := Atom(Null)]);
      ApplyPatch(src, FromDiff(ord, src, Dict(map[]))) != Ok(Dict(map[]))
  {
    var src, k := map["%41" := Atom(Null)], "%41";
    assert P.TripleAt(k);
    assert P.HasTriple(k) && k in src && !SameAt(src, map[], k);
    DiffThenPatchIff(ord, Dict(src), Dict(map[]));
  }

  lemma {:induction false} PlainKept(s: string)
    requires '~' !in s && '/' !in s
    ensures P.Escape(s) == s && P.Unescape(s) == s
  {
    if s != "" {
      assert s == [s[0]] + s[1..];
      PlainKept(s[1..]);
      P.EscapeStep(s[0], s[1..]);
      P.UnescapePlain(s[0], s[1..]);
    }
  }

  /** A percent triple in front is decoded. */
  lemma UnquoteTriple(hi: char, lo: char, rest: string)
    requires IsDigit(hi, Hex) && IsDigit(lo, Hex)
    ensures P.Unquote(['%', hi, lo] + rest) == [P.DecodeByte(hi, lo)] + P.Unquote(rest)
  {
    var s := ['%', hi, lo] + rest;
    assert s[3..] == rest;
  }

  lemma {:induction false} PlainUnquoted(s: string)
    requires '%' !in s
    ensures P.Unquote(s) == s
  {
    if s != "" { PlainUnquoted(s[1..]); }
  }

  lemma RereadTriple(hi: char, lo: char, rest: string)
    requires IsDigit(hi, Hex) && IsDigit(lo, Hex)
    requires '%' !in rest && '~' !in rest && '/' !in rest && P.DecodeByte(hi, lo) != '~' && P.DecodeByte(hi, lo) != '/'
    ensures P.Reread(['%', hi, lo] + rest) == [P.DecodeByte(hi, lo)] + rest
  {
    PlainKept(['%', hi, lo] + rest);
    UnquoteTriple(hi, lo, rest);
    PlainUnquoted(rest);
    PlainKept([P.DecodeByte(hi, lo)] + rest);
  }

  lemma TwoBytes()
    ensures IsDigit('2', Hex) && IsDigit('5', Hex) && P.DecodeByte('2', '5') == '%'
    ensures IsDigit('4', Hex) && IsDigit('1', Hex) && P.DecodeByte('4', '1') == 'A'
  {}

  /** That paths are read twice shows: the key %2541 is looked up as A. */
  lemma PercentTwice(k: string)
    requires k == "%2541"
    ensures LookedUp(k) == "A"
  {
    TwoBytes();
    var tail, none := ['4', '1'], [];
    RereadTriple('2', '5', tail);
    RereadTriple('4', '1', none);
    assert k == ['%', '2', '5'] + tail;
    assert ['%'] + tail == ['%', '4', '1'] + none;
    assert ['A'] + none == "A";
  }
}
