/** JSON patches (RFC 6902): applying add, remove and replace through pointers,
    generating a patch from two documents, and applying it to get the second
    document from the first. List differences are the raw script of ListDiff. */
module JsonPatch {
  import opened Wrappers
  import opened Text
  import P = JsonPointer
  import L = ListDiff

  datatype Scalar = Null | Boolean(b: bool) | Number(n: real) | Text(s: string)

  datatype Json = Atom(value: Scalar) | List(items: seq<Json>) | Dict(members: map<string, Json>)

  datatype Error = JsonPointerException | JsonPatchConflict | TypeError | IndexError | ValueError

  datatype Result<+T> = Ok(value: T) | Err(error: Error)

  // ----- applying an operation

  /** The operation without its path. */
  datatype Edit = Add(value: Json) | Remove | Replace(value: Json)

  /** The next step of a pointer inside a list: `-` or a decimal index. */
  datatype Step = Dash | Index(i: nat)

  /** get_part on a list. The pattern for indices lets through everything that
      begins with a zero, and int() refuses what is no number. */
  function ListStep(part: string): Result<Step> {
    if part == "-" then Ok(Dash)
    else if part != "" && AllDigits(part, Dec) then Ok(Index(ParseNumeral(part, Dec)))
    else if part != "" && part[0] == '0' then Err(ValueError)
    else Err(JsonPointerException)
  }

  /** walk: the child one step down. None is the end-of-list marker. */
  function Walk(doc: Json, part: string): Result<Option<Json>> {
    match doc
    case Dict(m) => if part in m then Ok(Some(m[part])) else Err(JsonPointerException)
    case List(items) =>
      (match ListStep(part)
       case Err(e) => Err(e)
       case Ok(Dash) => Ok(None)
       case Ok(Index(i)) => if i < |items| then Ok(Some(items[i])) else Err(JsonPointerException))
    case Atom(Text(s)) =>
      (match ListStep(part)
       case Err(e) => Err(e)
       case Ok(Dash) => Ok(None)
       case Ok(Index(i)) => if i < |s| then Ok(Some(Atom(Text([s[i]])))) else Err(JsonPointerException))
    case Atom(_) => Err(JsonPointerException)
  }

  /** The document with the child one step down replaced; only dictionaries and
      lists are changed in place. */
  function PutChild(doc: Json, part: string, child: Json): Json {
    match doc
    case Dict(m) => Dict(m[part := child])
    case List(items) =>
      (match ListStep(part)
       case Ok(Index(i)) => if i < |items| then List(items[i := child]) else doc
       case _ => doc)
    case Atom(_) => doc
  }

  /** The three operations on the whole document. */
  function EditRoot(doc: Json, e: Edit): Result<Json> {
    match e
    case Replace(v) => Ok(v)
    case Add(v) => if doc.Dict? then Ok(v) else Err(TypeError)
    case Remove => if doc.Dict? then Err(JsonPatchConflict) else Err(TypeError)
  }

  /** The three operations on a member or element of `doc`. */
  function EditMember(doc: Json, part: string, e: Edit): Result<Json> {
    match doc
    case Dict(m) =>
      (match e
       case Add(v) => Ok(Dict(m[part := v]))
       case Remove => if part in m then Ok(Dict(m - {part})) else Err(JsonPatchConflict)
       case Replace(v) => if part in m then Ok(Dict(m[part := v])) else Err(JsonPatchConflict))
    case List(items) =>
      (match ListStep(part)
       case Err(x) => Err(x)
       case Ok(Dash) => if e.Add? then Ok(List(items + [e.value])) else Err(TypeError)
       case Ok(Index(i)) => EditElement(items, i, e))
    case Atom(Text(_)) => (match ListStep(part) case Err(x) => Err(x) case Ok(_) => Err(TypeError))
    case Atom(_) => Err(JsonPointerException)
  }

  function EditElement(items: seq<Json>, i: nat, e: Edit): Result<Json> {
    match e
    case Add(v) => if i > |items| then Err(JsonPatchConflict) else Ok(List(items[..i] + [v] + items[i..]))
    case Remove => if i < |items| then Ok(List(items[..i] + items[i + 1..])) else Err(JsonPatchConflict)
    case Replace(v) =>
      if i > |items| then Err(JsonPatchConflict)
      else if i == |items| then Err(IndexError)
      else Ok(List(items[i := v]))
  }

  /** to_last followed by the edit of the last step. */
  function ApplyAt(doc: Json, parts: seq<string>, e: Edit): Result<Json>
    decreases |parts|
  {
    if parts == [] then EditRoot(doc, e)
    else if |parts| == 1 then EditMember(doc, parts[0], e)
    else
      match Walk(doc, parts[0])
      case Err(x) => Err(x)
      case Ok(None) => Err(JsonPointerException)
      case Ok(Some(child)) =>
        match ApplyAt(child, parts[1..], e)
        case Err(x) => Err(x)
        case Ok(c) => Ok(PutChild(doc, parts[0], c))
  }

  /** An operation with its path as parts. */
  datatype PartOp = PartOp(parts: seq<string>, edit: Edit)

  function ApplyParts(doc: Json, ops: seq<PartOp>): Result<Json>
    decreases |ops|
  {
    if ops == [] then Ok(doc)
    else
      match ApplyAt(doc, ops[0].parts, ops[0].edit)
      case Err(x) => Err(x)
      case Ok(d) => ApplyParts(d, ops[1..])
  }

  /** An operation as a patch holds it, with its path as a string. */
  datatype Op = Op(path: string, edit: Edit)

  /** _ops: every path is parsed before anything is applied. */
  function ParseOps(ops: seq<Op>): Result<seq<PartOp>> {
    if ops == [] then Ok([])
    else
      match P.Parse(ops[0].path)
      case JsonPointerException => Err(JsonPointerException)
      case Ok(parts) =>
        match ParseOps(ops[1..])
        case Err(x) => Err(x)
        case Ok(rest) => Ok([PartOp(parts, ops[0].edit)] + rest)
  }

  /** JsonPatch.apply. */
  function ApplyPatch(doc: Json, ops: seq<Op>): Result<Json> {
    match ParseOps(ops)
    case Err(x) => Err(x)
    case Ok(parsed) => ApplyParts(doc, parsed)
  }

  // ----- generating a patch

  /** The order in which the dictionary at a path is iterated. */
  type Order = (seq<string>, map<string, Json>) -> seq<string>

  ghost predicate Enumerates(keys: seq<string>, m: map<string, Json>) {
    && (forall k :: k in keys <==> k in m)
    && (forall i, j :: 0 <= i < j < |keys| ==> keys[i] != keys[j])
  }

  ghost predicate IsOrder(ord: Order) {
    forall path, m :: Enumerates(ord(path, m), m)
  }

  /** compare_values. */
  function CompareValues(ord: Order, path: seq<string>, src: Json, dst: Json): seq<PartOp>
    decreases src, 1, 0
  {
    if src == dst then []
    else if src.Dict? && dst.Dict? then
      CompareKeys(ord, path, ord(path, src.members), src, dst)
      + AddKeys(path, ord(path, dst.members), src.members, dst.members)
    else if src.List? && dst.List? then
      ListOps(path, L.Compare(src.items, dst.items))
    else [PartOp(path, Replace(dst))]
  }

  /** compare_dicts, the loop over the source's keys. */
  function CompareKeys(ord: Order, path: seq<string>, keys: seq<string>, src: Json, dst: Json): seq<PartOp>
    requires src.Dict? && dst.Dict?
    decreases src, 0, |keys|
  {
    if keys == [] then []
    else
      var key := keys[0];
      var ops :=
        if key !in src.members then []
        else if key !in dst.members then [PartOp(path + [key], Remove)]
        else CompareValues(ord, path + [key], src.members[key], dst.members[key]);
      ops + CompareKeys(ord, path, keys[1..], src, dst)
  }

  /** compare_dicts, the loop over the target's keys. */
  function AddKeys(path: seq<string>, keys: seq<string>, src: map<string, Json>, dst: map<string, Json>): seq<PartOp> {
    if keys == [] then []
    else
      var key := keys[0];
      (if key in dst && key !in src then [PartOp(path + [key], Add(dst[key]))] else [])
      + AddKeys(path, keys[1..], src, dst)
  }

  /** A removal or addition of a list script as the edit of an operation. */
  function EditOf(e: L.Edit<Json>): Edit {
    match e case Remove(_) => Remove case Add(_, v) => Add(v)
  }

  /** The edits of a list script as operations under its path. */
  function ListOps(path: seq<string>, edits: seq<L.Edit<Json>>): seq<PartOp> {
    if edits == [] then []
    else
      var e := edits[0];
      var part := if e.index < 0 then "" else Numeral(e.index, Dec);
      [PartOp(path + [part], EditOf(e))] + ListOps(path, edits[1..])
  }

  /** The path of the pointer that from_parts builds, which has already decoded
      the parts once. */
  function PointerPath(parts: seq<string>): string {
    P.FromPartsRoundTrip(parts);
    P.Path(P.FromParts(parts).value)
  }

  function ToOps(ops: seq<PartOp>): seq<Op> {
    if ops == [] then [] else [Op(PointerPath(ops[0].parts), ops[0].edit)] + ToOps(ops[1..])
  }

  /** from_diff. */
  function FromDiff(ord: Order, src: Json, dst: Json): seq<Op> {
    ToOps(CompareValues(ord, [], src, dst))
  }

  // ----- positions reached through dictionaries

  ghost function Get(root: Json, path: seq<string>): Option<Json>
    decreases |path|
  {
    if path == [] then Some(root)
    else if root.Dict? && path[0] in root.members then Get(root.members[path[0]], path[1..])
    else None
  }

  /** The document with the value at `path` replaced and nothing else changed. */
  ghost function Put(root: Json, path: seq<string>, v: Json): Json
    requires Get(root, path).Some?
    decreases |path|
  {
    if path == [] then v
    else Dict(root.members[path[0] := Put(root.members[path[0]], path[1..], v)])
  }

  lemma {:induction false} PutGet(root: Json, path: seq<string>, v: Json)
    requires Get(root, path).Some?
    ensures Get(Put(root, path, v), path) == Some(v)
    decreases |path|
  {
    if path != [] { PutGet(root.members[path[0]], path[1..], v); }
  }

  lemma {:induction false} PutPut(root: Json, path: seq<string>, u: Json, v: Json)
    requires Get(root, path).Some?
    ensures Get(Put(root, path, u), path).Some?
    ensures Put(Put(root, path, u), path, v) == Put(root, path, v)
    decreases |path|
  {
    PutGet(root, path, u);
    if path != [] {
      PutPut(root.members[path[0]], path[1..], u, v);
      var m := root.members;
      var a, b := Put(m[path[0]], path[1..], u), Put(m[path[0]], path[1..], v);
      assert m[path[0] := a][path[0] := b] == m[path[0] := b];
    }
  }

  lemma {:induction false} PutSame(root: Json, path: seq<string>)
    requires Get(root, path).Some?
    ensures Put(root, path, Get(root, path).value) == root
    decreases |path|
  {
    if path != [] {
      PutSame(root.members[path[0]], path[1..]);
      assert root.members[path[0] := root.members[path[0]]] == root.members;
    }
  }

  lemma {:induction false} Below(root: Json, path: seq<string>, k: string, v: Json)
    requires Get(root, path).Some? && Get(root, path).value.Dict? && k in Get(root, path).value.members
    ensures Get(root, path + [k]) == Some(Get(root, path).value.members[k])
    ensures Put(root, path + [k], v) == Put(root, path, Dict(Get(root, path).value.members[k := v]))
    decreases |path|
  {
    if path == [] {
      assert path + [k] == [k];
    } else {
      assert (path + [k])[1..] == path[1..] + [k];
      Below(root.members[path[0]], path[1..], k, v);
    }
  }

  /** Changing the value at one path leaves every path that does not meet it
      unchanged. */
  lemma {:induction false} PutFrame(root: Json, path: seq<string>, v: Json, other: seq<string>)
    requires Get(root, path).Some? && !(path <= other) && !(other <= path)
    ensures Get(Put(root, path, v), other) == Get(root, other)
    decreases |path|
  {
    if path != [] && other != [] && path[0] == other[0] && root.Dict? {
      assert path == [path[0]] + path[1..] && other == [other[0]] + other[1..];
      PutFrame(root.members[path[0]], path[1..], v, other[1..]);
    }
  }

  // ----- operations under a path

  /** An operation below `path` changes only the value there, and changes it as
      it would change that value by itself. */
  lemma {:induction false} ApplyUnder(root: Json, path: seq<string>, q: seq<string>, e: Edit)
    requires Get(root, path).Some? && q != []
    ensures ApplyAt(root, path + q, e) ==
      match ApplyAt(Get(root, path).value, q, e) case Err(x) => Err(x) case Ok(c) => Ok(Put(root, path, c))
    decreases |path|
  {
    if path == [] {
      assert path + q == q;
    } else {
      assert (path + q)[1..] == path[1..] + q;
      ApplyUnder(root.members[path[0]], path[1..], q, e);
    }
  }

  lemma {:induction false} ReplaceAt(root: Json, path: seq<string>, v: Json)
    requires Get(root, path).Some?
    ensures ApplyAt(root, path, Replace(v)) == Ok(Put(root, path, v))
    decreases |path|
  {
    if path != [] {
      ReplaceAt(root.members[path[0]], path[1..], v);
      if |path| == 1 { assert path[1..] == []; }
    }
  }

  lemma {:induction false} ApplyConcat(doc: Json, a: seq<PartOp>, b: seq<PartOp>)
    ensures ApplyParts(doc, a + b) == match ApplyParts(doc, a) case Err(x) => Err(x) case Ok(d) => ApplyParts(d, b)
    decreases |a|
  {
    if a == [] {
      assert a + b == b;
    } else {
      assert (a + b)[1..] == a[1..] + b;
      var r := ApplyAt(doc, a[0].parts, a[0].edit);
      if r.Ok? { ApplyConcat(r.value, a[1..], b); }
    }
  }

  // ----- lists

  lemma IndexReads(i: nat)
    ensures ListStep(Numeral(i, Dec)) == Ok(Index(i))
  {
    NumeralRoundTrip(i, Dec);
    var s := Numeral(i, Dec);
    assert IsDigit(s[0], Dec);
    assert !IsDigit('-', Dec);
  }

  lemma OneListEdit(root: Json, path: seq<string>, w: seq<Json>, e: L.Edit<Json>, w': seq<Json>)
    requires Get(root, path) == Some(List(w)) && L.ApplyEdit(w, e) == Some(w')
    ensures e.index >= 0 && ApplyAt(root, path + [Numeral(e.index, Dec)], EditOf(e)) == Ok(Put(root, path, List(w')))
  {
    IndexReads(e.index);
    ApplyUnder(root, path, [Numeral(e.index, Dec)], EditOf(e));
  }

  /** A list script under a path replays on the list there. */
  lemma {:induction false} ListScript(root: Json, path: seq<string>, w: seq<Json>, edits: seq<L.Edit<Json>>,
                                      w': seq<Json>)
    requires Get(root, path) == Some(List(w)) && L.Replay(w, edits) == Some(w')
    ensures ApplyParts(root, ListOps(path, edits)) == Ok(Put(root, path, List(w')))
    decreases |edits|
  {
    if edits == [] {
      PutSame(root, path);
    } else {
      var e := edits[0];
      var l := L.ApplyEdit(w, e).value;
      OneListEdit(root, path, w, e, l);
      var ops := ListOps(path, edits);
      var next := Put(root, path, List(l));
      assert ops[0] == PartOp(path + [Numeral(e.index, Dec)], EditOf(e));
      assert ops[1..] == ListOps(path, edits[1..]);
      PutGet(root, path, List(l));
      PutPut(root, path, List(l), List(w'));
      ListScript(next, path, l, edits[1..], w');
    }
  }

  // ----- dictionaries

  /** The members after the first loop of compare_dicts has run over `keys`. */
  ghost function Shared(m: map<string, Json>, keys: seq<string>, dst: map<string, Json>): map<string, Json>
    decreases |keys|
  {
    if keys == [] then m
    else Shared(if keys[0] in dst then m[keys[0] := dst[keys[0]]] else m - {keys[0]}, keys[1..], dst)
  }

  ghost function Added(m: map<string, Json>, keys: seq<string>, src: map<string, Json>, dst: map<string, Json>)
      : map<string, Json>
    decreases |keys|
  {
    if keys == [] then m
    else Added(if keys[0] in dst && keys[0] !in src then m[keys[0] := dst[keys[0]]] else m, keys[1..], src, dst)
  }

  predicate SameAt(a: map<string, Json>, b: map<string, Json>, k: string) {
    (k in a <==> k in b) && (k in a && k in b ==> a[k] == b[k])
  }

  lemma {:induction false} SharedAt(m: map<string, Json>, keys: seq<string>, dst: map<string, Json>, k: string)
    ensures SameAt(Shared(m, keys, dst), if k in keys then dst else m, k)
    decreases |keys|
  {
    if keys != [] {
      var m' := if keys[0] in dst then m[keys[0] := dst[keys[0]]] else m - {keys[0]};
      SharedAt(m', keys[1..], dst, k);
      assert keys == [keys[0]] + keys[1..];
    }
  }

  lemma {:induction false} AddedAt(m: map<string, Json>, keys: seq<string>, src: map<string, Json>,
                                   dst: map<string, Json>, k: string)
    ensures SameAt(Added(m, keys, src, dst), if k in keys && k in dst && k !in src then dst else m, k)
    decreases |keys|
  {
    if keys != [] {
      var m' := if keys[0] in dst && keys[0] !in src then m[keys[0] := dst[keys[0]]] else m;
      AddedAt(m', keys[1..], src, dst, k);
      assert keys == [keys[0]] + keys[1..];
    }
  }

  /** The two loops together produce the target's members. */
  lemma BothLoops(src: map<string, Json>, dst: map<string, Json>, srcKeys: seq<string>, dstKeys: seq<string>)
    requires Enumerates(srcKeys, src) && Enumerates(dstKeys, dst)
    ensures Added(Shared(src, srcKeys, dst), dstKeys, src, dst) == dst
  {
    var r := Added(Shared(src, srcKeys, dst), dstKeys, src, dst);
    forall k ensures SameAt(r, dst, k) {
      SharedAt(src, srcKeys, dst, k);
      AddedAt(Shared(src, srcKeys, dst), dstKeys, src, dst, k);
    }
    assert forall k :: k in r <==> k in dst by {
      forall k ensures k in r <==> k in dst { assert SameAt(r, dst, k); }
    }
    forall k | k in r ensures r[k] == dst[k] { assert SameAt(r, dst, k); }
  }

  lemma {:induction false} AddScript(root: Json, path: seq<string>, m: map<string, Json>, keys: seq<string>,
                                     src: map<string, Json>, dst: map<string, Json>)
    requires Get(root, path) == Some(Dict(m))
    ensures ApplyParts(root, AddKeys(path, keys, src, dst)) == Ok(Put(root, path, Dict(Added(m, keys, src, dst))))
    decreases |keys|
  {
    if keys == [] {
      PutSame(root, path);
    } else {
      var key := keys[0];
      if key in dst && key !in src {
        var m' := m[key := dst[key]];
        ApplyUnder(root, path, [key], Add(dst[key]));
        var ops := AddKeys(path, keys, src, dst);
        assert ops == [PartOp(path + [key], Add(dst[key]))] + AddKeys(path, keys[1..], src, dst);
        assert ops[1..] == AddKeys(path, keys[1..], src, dst);
        PutGet(root, path, Dict(m'));
        AddScript(Put(root, path, Dict(m')), path, m', keys[1..], src, dst);
        PutPut(root, path, Dict(m'), Dict(Added(m', keys[1..], src, dst)));
      } else {
        assert AddKeys(path, keys, src, dst) == AddKeys(path, keys[1..], src, dst);
        AddScript(root, path, m, keys[1..], src, dst);
      }
    }
  }

  /** The keys still to compare are untouched. */
  ghost predicate Untouched(m: map<string, Json>, keys: seq<string>, src: map<string, Json>) {
    && (forall i :: 0 <= i < |keys| ==> keys[i] in src && keys[i] in m && m[keys[i]] == src[keys[i]])
    && (forall i, j :: 0 <= i < j < |keys| ==> keys[i] != keys[j])
  }

  /** The operations of compare_values at a path replace the value there by the
      target's, for whatever document is around it. */
  lemma {:induction false} ValuesScript(ord: Order, root: Json, path: seq<string>, src: Json, dst: Json)
    requires IsOrder(ord) && Get(root, path) == Some(src)
    ensures ApplyParts(root, CompareValues(ord, path, src, dst)) == Ok(Put(root, path, dst))
    decreases src, 1, 0
  {
    if src == dst {
      PutSame(root, path);
    } else if src.Dict? && dst.Dict? {
      var sk, dk := ord(path, src.members), ord(path, dst.members);
      assert Enumerates(sk, src.members) && Enumerates(dk, dst.members);
      KeysScript(ord, root, path, src.members, sk, src, dst);
      var shared := Shared(src.members, sk, dst.members);
      var mid := Put(root, path, Dict(shared));
      PutGet(root, path, Dict(shared));
      AddScript(mid, path, shared, dk, src.members, dst.members);
      BothLoops(src.members, dst.members, sk, dk);
      PutPut(root, path, Dict(shared), dst);
      ApplyConcat(root, CompareKeys(ord, path, sk, src, dst), AddKeys(path, dk, src.members, dst.members));
    } else if src.List? && dst.List? {
      L.CompareThenReplay(src.items, dst.items);
      ListScript(root, path, src.items, L.Compare(src.items, dst.items), dst.items);
    } else {
      ReplaceAt(root, path, dst);
      var ops := CompareValues(ord, path, src, dst);
      assert ops == [PartOp(path, Replace(dst))] && ops[1..] == [];
    }
  }

  lemma {:induction false} KeysScript(ord: Order, root: Json, path: seq<string>, m: map<string, Json>,
                                      keys: seq<string>, src: Json, dst: Json)
    requires IsOrder(ord) && src.Dict? && dst.Dict?
    requires Get(root, path) == Some(Dict(m)) && Untouched(m, keys, src.members)
    ensures ApplyParts(root, CompareKeys(ord, path, keys, src, dst)) ==
      Ok(Put(root, path, Dict(Shared(m, keys, dst.members))))
    decreases src, 0, |keys|
  {
    if keys == [] {
      PutSame(root, path);
    } else {
      var key := keys[0];
      var ops, m' := KeyScript(ord, root, path, m, keys, src, dst);
      var next := Put(root, path, Dict(m'));
      PutGet(root, path, Dict(m'));
      KeysScript(ord, next, path, m', keys[1..], src, dst);
      PutPut(root, path, Dict(m'), Dict(Shared(m', keys[1..], dst.members)));
      ApplyConcat(root, ops, CompareKeys(ord, path, keys[1..], src, dst));
    }
  }

  lemma {:induction false} KeyScript(ord: Order, root: Json, path: seq<string>, m: map<string, Json>,
                                     keys: seq<string>, src: Json, dst: Json)
      returns (ops: seq<PartOp>, m': map<string, Json>)
    requires IsOrder(ord) && src.Dict? && dst.Dict? && keys != []
    requires Get(root, path) == Some(Dict(m)) && Untouched(m, keys, src.members)
    ensures m' == if keys[0] in dst.members then m[keys[0] := dst.members[keys[0]]] else m - {keys[0]}
    ensures CompareKeys(ord, path, keys, src, dst) == ops + CompareKeys(ord, path, keys[1..], src, dst)
    ensures ApplyParts(root, ops) == Ok(Put(root, path, Dict(m')))
    ensures Untouched(m', keys[1..], src.members)
    decreases src, 0, |keys|, 0
  {
    var key := keys[0];
    if key !in dst.members {
      ops, m' := [PartOp(path + [key], Remove)], m - {key};
      ApplyUnder(root, path, [key], Remove);
      assert ops[1..] == [];
    } else {
      ops, m' := CompareValues(ord, path + [key], src.members[key], dst.members[key]), m[key := dst.members[key]];
      Below(root, path, key, dst.members[key]);
      ValuesScript(ord, root, path + [key], src.members[key], dst.members[key]);
    }
    forall i | 0 <= i < |keys[1..]| ensures keys[1..][i] in m' && m'[keys[1..][i]] == src.members[keys[1..][i]] {
      assert keys[1..][i] == keys[i + 1] && keys[0] != keys[i + 1];
    }
  }

  /** Diff then patch, on operations whose paths are parts: for all documents. */
  lemma DiffThenApply(ord: Order, src: Json, dst: Json)
    requires IsOrder(ord)
    ensures ApplyParts(src, CompareValues(ord, [], src, dst)) == Ok(dst)
  {
    ValuesScript(ord, src, [], src, dst);
  }

  // ----- through the path strings

  /** No key under which the documents differ, on the way down through
      dictionaries, holds a percent triple. */
  ghost predicate DiffClean(src: Json, dst: Json)
    decreases src
  {
    src.Dict? && dst.Dict? ==>
      forall k :: (k in src.members || k in dst.members) && !SameAt(src.members, dst.members, k) ==>
        !P.HasTriple(k) && (k in src.members && k in dst.members ==> DiffClean(src.members[k], dst.members[k]))
  }

  ghost predicate CleanParts(parts: seq<string>) {
    forall i :: 0 <= i < |parts| ==> !P.HasTriple(parts[i])
  }

  ghost predicate CleanOps(ops: seq<PartOp>) {
    forall i :: 0 <= i < |ops| ==> CleanParts(ops[i].parts)
  }

  lemma {:induction false} DigitsNoTriple(s: string)
    requires AllDigits(s, Dec)
    ensures !P.HasTriple(s)
  {
    if s != "" {
      assert IsDigit(s[0], Dec) && s[0] != '%';
      DigitsNoTriple(s[1..]);
    }
  }

  lemma {:induction false} ListOpsClean(path: seq<string>, edits: seq<L.Edit<Json>>)
    requires CleanParts(path)
    ensures CleanOps(ListOps(path, edits))
  {
    if edits != [] {
      ListOpsClean(path, edits[1..]);
      if edits[0].index >= 0 {
        NumeralRoundTrip(edits[0].index, Dec);
        DigitsNoTriple(Numeral(edits[0].index, Dec));
      }
    }
  }

  lemma {:induction false} AddKeysClean(path: seq<string>, keys: seq<string>,
                                        src: map<string, Json>, dst: map<string, Json>)
    requires CleanParts(path) && forall k :: k in dst && k !in src ==> !P.HasTriple(k)
    ensures CleanOps(AddKeys(path, keys, src, dst))
  {
    if keys != [] { AddKeysClean(path, keys[1..], src, dst); }
  }

  lemma {:induction false} ValuesClean(ord: Order, path: seq<string>, src: Json, dst: Json)
    requires CleanParts(path) && DiffClean(src, dst)
    ensures CleanOps(CompareValues(ord, path, src, dst))
    decreases src, 1, 0
  {
    if src == dst {
    } else if src.Dict? && dst.Dict? {
      KeysClean(ord, path, ord(path, src.members), src, dst);
      forall k | k in dst.members && k !in src.members ensures !P.HasTriple(k) {
        assert !SameAt(src.members, dst.members, k);
      }
      AddKeysClean(path, ord(path, dst.members), src.members, dst.members);
    } else if src.List? && dst.List? {
      ListOpsClean(path, L.Compare(src.items, dst.items));
    }
  }

  lemma {:induction false} KeysClean(ord: Order, path: seq<string>, keys: seq<string>, src: Json, dst: Json)
    requires src.Dict? && dst.Dict? && CleanParts(path) && DiffClean(src, dst)
    ensures CleanOps(CompareKeys(ord, path, keys, src, dst))
    decreases src, 0, |keys|
  {
    if keys != [] {
      KeysClean(ord, path, keys[1..], src, dst);
      var key := keys[0];
      if key in src.members && !SameAt(src.members, dst.members, key) {
        if key in dst.members { ValuesClean(ord, path + [key], src.members[key], dst.members[key]); }
      }
    }
  }

  lemma {:induction false} CleanOpsParse(ops: seq<PartOp>)
    requires CleanOps(ops)
    ensures ParseOps(ToOps(ops)) == Ok(ops)
  {
    if ops != [] {
      P.FromPartsRoundTrip(ops[0].parts);
      CleanOpsParse(ops[1..]);
      assert ops == [PartOp(ops[0].parts, ops[0].edit)] + ops[1..];
    }
  }

  /** Diff then patch is the identity when no key under which the documents
      differ holds a percent triple. */
  lemma DiffThenPatch(ord: Order, src: Json, dst: Json)
    requires IsOrder(ord) && DiffClean(src, dst)
    ensures ApplyPatch(src, FromDiff(ord, src, dst)) == Ok(dst)
  {
    ValuesClean(ord, [], src, dst);
    CleanOpsParse(CompareValues(ord, [], src, dst));
    DiffThenApply(ord, src, dst);
  }
}
