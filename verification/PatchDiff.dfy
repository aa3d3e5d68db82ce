/** Which operations a generated patch holds. */
module PatchDiff {
  import opened Wrappers
  import opened Text
  import opened JsonPatch
  import L = ListDiff

  ghost predicate BothDicts(src: Json, dst: Json, q: seq<string>) {
    && Get(src, q).Some? && Get(src, q).value.Dict? && Get(dst, q).Some? && Get(dst, q).value.Dict?
  }

  ghost predicate BothLists(src: Json, dst: Json, q: seq<string>) {
    && Get(src, q).Some? && Get(src, q).value.List? && Get(dst, q).Some? && Get(dst, q).value.List?
  }

  /** The operation on key k of two dictionaries of which only one has it. */
  ghost predicate KeyOp(src: Json, dst: Json, q: seq<string>, k: string, e: Edit) {
    BothDicts(src, dst, q) &&
    var a, b := Get(src, q).value.members, Get(dst, q).value.members;
    (k in a && k !in b && e == Remove) || (k !in a && k in b && e == Add(b[k]))
  }

  /** The operation replacing what differs and is no pair of dictionaries or lists. */
  ghost predicate ValueOp(src: Json, dst: Json, q: seq<string>, e: Edit) {
    && Get(src, q).Some? && Get(dst, q).Some? && Get(src, q) != Get(dst, q)
    && !BothDicts(src, dst, q) && !BothLists(src, dst, q) && e == Replace(Get(dst, q).value)
  }

  /** The operation of step n of a list script. */
  predicate StepOp(script: seq<L.Edit<Json>>, n: nat, part: string, e: Edit) {
    n < |script| && e == EditOf(script[n]) && part == if script[n].index < 0 then "" else Numeral(script[n].index, Dec)
  }

  /** A step of the script that turns one list into the other. */
  ghost predicate ScriptOp(src: Json, dst: Json, q: seq<string>, part: string, e: Edit) {
    && BothLists(src, dst, q) && Get(src, q) != Get(dst, q)
    && exists n :: StepOp(L.Compare(Get(src, q).value.items, Get(dst, q).value.items), n, part, e)
  }

  /** A difference between the documents calls for the edit at these parts. */
  ghost predicate Wanted(src: Json, dst: Json, parts: seq<string>, e: Edit) {
    || ValueOp(src, dst, parts, e)
    || (parts != [] && KeyOp(src, dst, parts[..|parts| - 1], parts[|parts| - 1], e))
    || (parts != [] && ScriptOp(src, dst, parts[..|parts| - 1], parts[|parts| - 1], e))
  }

  lemma GetStep(doc: Json, k: string, q: seq<string>)
    ensures Get(doc, [k] + q) == if doc.Dict? && k in doc.members then Get(doc.members[k], q) else None
  {
    assert ([k] + q)[1..] == q;
  }

  /** A difference below a key that both dictionaries have. */
  lemma WantedBelow(src: Json, dst: Json, k: string, parts: seq<string>, e: Edit)
    requires src.Dict? && dst.Dict? && k in src.members && k in dst.members
    ensures Wanted(src, dst, [k] + parts, e) <==> Wanted(src.members[k], dst.members[k], parts, e)
  {
    var all := [k] + parts;
    GetStep(src, k, parts);
    GetStep(dst, k, parts);
    if parts == [] {
      assert all[..|all| - 1] == [] && all[|all| - 1] == k;
    } else {
      var q := parts[..|parts| - 1];
      assert all[..|all| - 1] == [k] + q && all[|all| - 1] == parts[|parts| - 1];
      GetStep(src, k, q);
      GetStep(dst, k, q);
    }
  }

  /** A difference at a key that only one of them has. */
  lemma WantedAlone(src: Json, dst: Json, k: string, parts: seq<string>, e: Edit)
    requires src.Dict? && dst.Dict? && !(k in src.members && k in dst.members)
    ensures Wanted(src, dst, [k] + parts, e) <==> parts == [] && KeyOp(src, dst, [], k, e)
  {
    var all := [k] + parts;
    GetStep(src, k, parts);
    GetStep(dst, k, parts);
    if parts == [] {
      assert all[..|all| - 1] == [] && all[|all| - 1] == k;
    } else {
      var q := parts[..|parts| - 1];
      assert all[..|all| - 1] == [k] + q;
      GetStep(src, k, q);
      GetStep(dst, k, q);
    }
  }

  /** At anything but two dictionaries, only the place itself can differ. */
  lemma WantedHere(src: Json, dst: Json, parts: seq<string>, e: Edit)
    requires !(src.Dict? && dst.Dict?)
    ensures Wanted(src, dst, parts, e) <==>
      (parts == [] && ValueOp(src, dst, [], e)) || (|parts| == 1 && ScriptOp(src, dst, [], parts[0], e))
  {
    if |parts| == 1 { assert parts[..0] == []; }
  }

  lemma WantedSame(doc: Json, parts: seq<string>, e: Edit)
    ensures !Wanted(doc, doc, parts, e)
  {}

  // ----- the operations generated

  lemma {:induction false} ListOpsExact(path: seq<string>, edits: seq<L.Edit<Json>>, part: string, e: Edit)
    ensures PartOp(path + [part], e) in ListOps(path, edits) <==> exists n :: StepOp(edits, n, part, e)
  {
    if edits != [] {
      ListOpsExact(path, edits[1..], part, e);
      var first := ListOps(path, edits)[0];
      assert first == PartOp(path + [part], e) <==> StepOp(edits, 0, part, e) by {
        assert forall a: string, b: string :: path + [a] == path + [b] ==> (path + [a])[|path|] == (path + [b])[|path|];
      }
      if n: nat :| StepOp(edits[1..], n, part, e) { assert StepOp(edits, n + 1, part, e); }
      if n: nat :| StepOp(edits, n, part, e) && n > 0 { assert StepOp(edits[1..], n - 1, part, e); }
    }
  }

  lemma {:induction false} ListOpsUnder(path: seq<string>, edits: seq<L.Edit<Json>>, op: PartOp)
    requires op in ListOps(path, edits)
    ensures |op.parts| == |path| + 1 && op.parts == path + [op.parts[|path|]]
  {
    if op != ListOps(path, edits)[0] { ListOpsUnder(path, edits[1..], op); }
  }

  /** All operations of a comparison are at or below its path. */
  lemma {:induction false} ValuesUnder(ord: Order, path: seq<string>, src: Json, dst: Json, op: PartOp)
    requires op in CompareValues(ord, path, src, dst)
    ensures path <= op.parts
    decreases src, 1, 0
  {
    if src.Dict? && dst.Dict? {
      if op in CompareKeys(ord, path, ord(path, src.members), src, dst) {
        KeysUnder(ord, path, ord(path, src.members), src, dst, op);
      } else {
        AddKeysUnder(path, ord(path, dst.members), src.members, dst.members, op);
      }
    } else if src.List? && dst.List? {
      ListOpsUnder(path, L.Compare(src.items, dst.items), op);
    }
  }

  lemma {:induction false} KeysUnder(ord: Order, path: seq<string>, keys: seq<string>, src: Json, dst: Json, op: PartOp)
    requires src.Dict? && dst.Dict? && op in CompareKeys(ord, path, keys, src, dst)
    ensures path <= op.parts && |op.parts| > |path| && op.parts[|path|] in keys && op.parts[|path|] in src.members
    decreases src, 0, |keys|
  {
    var key := keys[0];
    if op in CompareKeys(ord, path, keys[1..], src, dst) {
      KeysUnder(ord, path, keys[1..], src, dst, op);
    } else if key in dst.members {
      ValuesUnder(ord, path + [key], src.members[key], dst.members[key], op);
      assert (path + [key])[|path|] == op.parts[|path|];
    }
  }

  lemma {:induction false} AddKeysUnder(path: seq<string>, keys: seq<string>, src: map<string, Json>,
                                        dst: map<string, Json>, op: PartOp)
    requires op in AddKeys(path, keys, src, dst)
    ensures |op.parts| == |path| + 1 && op.parts == path + [op.parts[|path|]]
    ensures var k := op.parts[|path|]; k in keys && k !in src && k in dst && op.edit == Add(dst[k])
  {
    if op in AddKeys(path, keys[1..], src, dst) { AddKeysUnder(path, keys[1..], src, dst, op); }
  }

  lemma Deeper(path: seq<string>, rest: seq<string>)
    requires rest != []
    ensures path + rest == path + [rest[0]] + rest[1..] && (path + rest)[|path|] == rest[0]
  {}

  /** The operations at one key that the source has. */
  lemma {:induction false} KeyExact(ord: Order, path: seq<string>, key: string, src: Json, dst: Json,
                                    rest: seq<string>, e: Edit)
    requires IsOrder(ord) && src.Dict? && dst.Dict? && key in src.members
    ensures var ops := if key !in dst.members then [PartOp(path + [key], Remove)]
                       else CompareValues(ord, path + [key], src.members[key], dst.members[key]);
      PartOp(path + rest, e) in ops <==> rest != [] && rest[0] == key && Wanted(src, dst, rest, e)
    decreases src, 0, 0
  {
    if rest != [] { Deeper(path, rest); }
    if key !in dst.members {
      if rest != [] && rest[0] == key {
        assert rest == [key] + rest[1..];
        WantedAlone(src, dst, key, rest[1..], e);
        assert path + [key] == path + rest <==> rest[1..] == [] by { SameLength(path, [key], rest); }
      }
    } else {
      var ops := CompareValues(ord, path + [key], src.members[key], dst.members[key]);
      if PartOp(path + rest, e) in ops {
        ValuesUnder(ord, path + [key], src.members[key], dst.members[key], PartOp(path + rest, e));
        assert (path + [key])[|path|] == (path + rest)[|path|];
      }
      if rest != [] && rest[0] == key {
        assert rest == [key] + rest[1..];
        WantedBelow(src, dst, key, rest[1..], e);
        ValuesExact(ord, path + [key], src.members[key], dst.members[key], rest[1..], e);
      }
    }
  }

  lemma NoKeyWanted(src: Json, dst: Json, rest: seq<string>, e: Edit)
    requires src.Dict? && dst.Dict?
    ensures Wanted(src, dst, rest, e) ==> rest != [] && (rest[0] in src.members || rest[0] in dst.members)
  {
    if rest != [] && rest[0] !in src.members && rest[0] !in dst.members {
      assert rest == [rest[0]] + rest[1..];
      WantedAlone(src, dst, rest[0], rest[1..], e);
    }
  }

  lemma SameLength(path: seq<string>, a: seq<string>, b: seq<string>)
    ensures path + a == path + b <==> a == b
  {
    assert (path + a)[|path|..] == a && (path + b)[|path|..] == b;
  }

  lemma {:induction false} KeysExact(ord: Order, path: seq<string>, keys: seq<string>, src: Json, dst: Json,
                                     rest: seq<string>, e: Edit)
    requires IsOrder(ord) && src.Dict? && dst.Dict?
    ensures PartOp(path + rest, e) in CompareKeys(ord, path, keys, src, dst) <==>
      rest != [] && rest[0] in keys && rest[0] in src.members && Wanted(src, dst, rest, e)
    decreases src, 0, |keys|
  {
    if keys != [] {
      assert keys == [keys[0]] + keys[1..];
      KeysExact(ord, path, keys[1..], src, dst, rest, e);
      if keys[0] in src.members { KeyExact(ord, path, keys[0], src, dst, rest, e); }
    }
  }

  lemma {:induction false} AddKeysExact(path: seq<string>, keys: seq<string>, src: Json, dst: Json,
                                        rest: seq<string>, e: Edit)
    requires src.Dict? && dst.Dict?
    ensures PartOp(path + rest, e) in AddKeys(path, keys, src.members, dst.members) <==>
      rest != [] && rest[0] in keys && rest[0] !in src.members && Wanted(src, dst, rest, e)
  {
    if keys != [] {
      var key := keys[0];
      assert keys == [key] + keys[1..];
      AddKeysExact(path, keys[1..], src, dst, rest, e);
      SameLength(path, [key], rest);
      if key !in src.members && rest != [] && rest[0] == key {
        assert rest == [key] + rest[1..];
        WantedAlone(src, dst, key, rest[1..], e);
      }
    }
  }

  lemma ListsExact(path: seq<string>, src: Json, dst: Json, rest: seq<string>, e: Edit)
    requires src.List? && dst.List? && src != dst
    ensures PartOp(path + rest, e) in ListOps(path, L.Compare(src.items, dst.items)) <==> Wanted(src, dst, rest, e)
  {
    WantedHere(src, dst, rest, e);
    var script := L.Compare(src.items, dst.items);
    if PartOp(path + rest, e) in ListOps(path, script) { ListOpsUnder(path, script, PartOp(path + rest, e)); }
    if |rest| == 1 {
      assert rest == [rest[0]];
      ListOpsExact(path, script, rest[0], e);
    }
  }

  /** A comparison yields an operation exactly when a difference calls for it: a key
      of only one dictionary is removed or added, two lists get their script, and any
      other two values that differ are replaced. */
  lemma {:induction false} ValuesExact(ord: Order, path: seq<string>, src: Json, dst: Json, rest: seq<string>, e: Edit)
    requires IsOrder(ord)
    ensures PartOp(path + rest, e) in CompareValues(ord, path, src, dst) <==> Wanted(src, dst, rest, e)
    decreases src, 1, 0
  {
    if src == dst {
      WantedSame(src, rest, e);
    } else if src.Dict? && dst.Dict? {
      assert Enumerates(ord(path, src.members), src.members) && Enumerates(ord(path, dst.members), dst.members);
      KeysExact(ord, path, ord(path, src.members), src, dst, rest, e);
      AddKeysExact(path, ord(path, dst.members), src, dst, rest, e);
      NoKeyWanted(src, dst, rest, e);
    } else if src.List? && dst.List? {
      ListsExact(path, src, dst, rest, e);
    } else {
      WantedHere(src, dst, rest, e);
      SameLength(path, [], rest);
      assert path + [] == path;
    }
  }

  // ----- one operation a place

  /** The parts, below the path, are those of an element of a list that both have. */
  ghost predicate Scripted(src: Json, dst: Json, path: seq<string>, parts: seq<string>) {
    |parts| > |path| && BothLists(src, dst, parts[|path|..|parts| - 1])
  }

  /** No two operations have the same parts, but for those of list scripts. */
  ghost predicate Apart(src: Json, dst: Json, path: seq<string>, ops: seq<PartOp>) {
    forall i, j :: 0 <= i < j < |ops| && ops[i].parts == ops[j].parts ==> Scripted(src, dst, path, ops[i].parts)
  }

  lemma ApartAppend(src: Json, dst: Json, path: seq<string>, a: seq<PartOp>, b: seq<PartOp>)
    requires Apart(src, dst, path, a) && Apart(src, dst, path, b)
    requires forall x, y :: x in a && y in b ==> x.parts != y.parts
    ensures Apart(src, dst, path, a + b)
  {
    var ops := a + b;
    assert forall k :: 0 <= k < |a| ==> ops[k] in a;
    assert forall k :: |a| <= k < |ops| ==> ops[k] in b;
    forall i, j | 0 <= i < j < |ops| && ops[i].parts == ops[j].parts ensures Scripted(src, dst, path, ops[i].parts) {
      assert j < |a| ==> ops[i] == a[i] && ops[j] == a[j];
      assert i >= |a| ==> ops[i] == b[i - |a|] && ops[j] == b[j - |a|];
    }
  }

  lemma ScriptedBelow(src: Json, dst: Json, path: seq<string>, k: string, parts: seq<string>)
    requires src.Dict? && dst.Dict? && k in src.members && k in dst.members && path + [k] <= parts
    requires Scripted(src.members[k], dst.members[k], path + [k], parts)
    ensures Scripted(src, dst, path, parts)
  {
    var q := parts[|path| + 1..|parts| - 1];
    assert parts[|path|] == (path + [k])[|path|];
    assert parts[|path|..|parts| - 1] == [k] + q;
    GetStep(src, k, q);
    GetStep(dst, k, q);
  }

  lemma {:induction false} KeyApart(ord: Order, path: seq<string>, key: string, src: Json, dst: Json)
    requires IsOrder(ord) && src.Dict? && dst.Dict? && key in src.members && key in dst.members
    ensures Apart(src, dst, path, CompareValues(ord, path + [key], src.members[key], dst.members[key]))
    decreases src, 0, 0
  {
    var ops := CompareValues(ord, path + [key], src.members[key], dst.members[key]);
    ValuesApart(ord, path + [key], src.members[key], dst.members[key]);
    forall i, j | 0 <= i < j < |ops| && ops[i].parts == ops[j].parts ensures Scripted(src, dst, path, ops[i].parts) {
      ValuesUnder(ord, path + [key], src.members[key], dst.members[key], ops[i]);
      ScriptedBelow(src, dst, path, key, ops[i].parts);
    }
  }

  lemma {:induction false} KeysApart(ord: Order, path: seq<string>, keys: seq<string>, src: Json, dst: Json)
    requires IsOrder(ord) && src.Dict? && dst.Dict? && forall i, j :: 0 <= i < j < |keys| ==> keys[i] != keys[j]
    ensures Apart(src, dst, path, CompareKeys(ord, path, keys, src, dst))
    decreases src, 0, |keys|
  {
    if keys != [] {
      var key := keys[0];
      var more := CompareKeys(ord, path, keys[1..], src, dst);
      KeysApart(ord, path, keys[1..], src, dst);
      if key in src.members {
        var ops := if key !in dst.members then [PartOp(path + [key], Remove)]
                   else CompareValues(ord, path + [key], src.members[key], dst.members[key]);
        if key in dst.members { KeyApart(ord, path, key, src, dst); }
        forall x, y | x in ops && y in more ensures x.parts != y.parts {
          KeysUnder(ord, path, keys[1..], src, dst, y);
          assert key !in keys[1..];
          if key in dst.members { ValuesUnder(ord, path + [key], src.members[key], dst.members[key], x); }
          assert x.parts[|path|] == (path + [key])[|path|];
        }
        ApartAppend(src, dst, path, ops, more);
      } else {
        assert [] + more == more;
      }
    }
  }

  lemma {:induction false} AddKeysApart(path: seq<string>, keys: seq<string>, src: Json, dst: Json)
    requires src.Dict? && dst.Dict? && forall i, j :: 0 <= i < j < |keys| ==> keys[i] != keys[j]
    ensures Apart(src, dst, path, AddKeys(path, keys, src.members, dst.members))
  {
    if keys != [] {
      var key := keys[0];
      var more := AddKeys(path, keys[1..], src.members, dst.members);
      AddKeysApart(path, keys[1..], src, dst);
      if key in dst.members && key !in src.members {
        forall y | y in more ensures path + [key] != y.parts {
          AddKeysUnder(path, keys[1..], src.members, dst.members, y);
          assert (path + [key])[|path|] == key && key !in keys[1..];
        }
        ApartAppend(src, dst, path, [PartOp(path + [key], Add(dst.members[key]))], more);
      } else {
        assert [] + more == more;
      }
    }
  }

  lemma ListsApart(path: seq<string>, src: Json, dst: Json)
    requires src.List? && dst.List?
    ensures Apart(src, dst, path, ListOps(path, L.Compare(src.items, dst.items)))
  {
    var ops := ListOps(path, L.Compare(src.items, dst.items));
    forall i | 0 <= i < |ops| ensures Scripted(src, dst, path, ops[i].parts) {
      ListOpsUnder(path, L.Compare(src.items, dst.items), ops[i]);
      assert ops[i].parts[|path|..|ops[i].parts| - 1] == [];
    }
  }

  /** Each place gets one operation, but for the elements of a list, whose script may
      come back to an index. */
  lemma {:induction false} ValuesApart(ord: Order, path: seq<string>, src: Json, dst: Json)
    requires IsOrder(ord)
    ensures Apart(src, dst, path, CompareValues(ord, path, src, dst))
    decreases src, 1, 0
  {
    if src.Dict? && dst.Dict? {
      var sk, dk := ord(path, src.members), ord(path, dst.members);
      assert Enumerates(sk, src.members) && Enumerates(dk, dst.members);
      KeysApart(ord, path, sk, src, dst);
      AddKeysApart(path, dk, src, dst);
      var removed, added := CompareKeys(ord, path, sk, src, dst), AddKeys(path, dk, src.members, dst.members);
      forall x, y | x in removed && y in added ensures x.parts != y.parts {
        KeysUnder(ord, path, sk, src, dst, x);
        AddKeysUnder(path, dk, src.members, dst.members, y);
      }
      ApartAppend(src, dst, path, removed, added);
    } else if src.List? && dst.List? {
      ListsApart(path, src, dst);
    }
  }
}
