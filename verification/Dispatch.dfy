/** Single dispatch: the lookup through the extended method resolution order, and
    the cache in front of it, kept coherent by the abstract-class token. */
module Dispatch {
  import opened Wrappers
  import opened C3

  type Cls = nat

  type Impl = nat

  /** What never changes about the classes: their bases and method resolution
      orders, which of them are abstract base classes (have
      `__abstractmethods__`), and which count as true, as all do whose metaclass
      says nothing else. */
  datatype Classes = Classes(bases: Cls -> seq<Cls>, mro: Cls -> seq<Cls>,
                             isAbc: Cls -> bool, truthy: Cls -> bool, rank: Cls -> nat)

  /** issubclass. */
  type Relation = (Cls, Cls) -> bool

  /** What can change: issubclass, by registering virtual subclasses of an abstract
      base class, and the direct subclasses, by defining a class. */
  datatype View = View(sub: Relation, subclasses: Cls -> seq<Cls>)

  ghost predicate Acyclic(h: Classes) {
    forall c, i :: 0 <= i < |h.bases(c)| ==> h.rank(h.bases(c)[i]) < h.rank(c)
  }

  /** Subclassing of a class that is no abstract base class is inheritance. */
  ghost predicate Lawful(h: Classes, sub: Relation) {
    forall c, t :: !h.isAbc(t) ==> (sub(c, t) <==> t in h.mro(c))
  }

  datatype Result<+T> = Ok(value: T) | RuntimeError

  // ----- _c3_mro

  /** k is one past the last abstract base, if there is one. */
  ghost predicate LastAbstract(h: Classes, bases: seq<Cls>, k: nat) {
    && k <= |bases| && (k > 0 ==> h.isAbc(bases[k - 1]))
    && forall i :: k <= i < |bases| ==> !h.isAbc(bases[i])
  }

  function Boundary(h: Classes, bases: seq<Cls>): (k: nat)
    ensures k <= |bases| && LastAbstract(h, bases, k)
  {
    if bases == [] then 0 else if h.isAbc(bases[|bases| - 1]) then |bases| else Boundary(h, bases[..|bases| - 1])
  }

  /** cls is the class that introduces the behaviour of abc. */
  predicate Introduces(h: Classes, sub: Relation, cls: Cls, abc: Cls) {
    sub(cls, abc) && forall i :: 0 <= i < |h.bases(cls)| ==> !sub(h.bases(cls)[i], abc)
  }

  /** The list comprehensions of this file. */
  function Filter(s: seq<Cls>, p: Cls -> bool): (r: seq<Cls>)
    ensures forall x :: x in r <==> x in s && p(x)
    ensures |r| <= |s| && (|r| == |s| ==> forall x :: x in s ==> p(x))
  {
    if s == [] then [] else (if p(s[0]) then [s[0]] else []) + Filter(s[1..], p)
  }

  function Introduced(h: Classes, sub: Relation, cls: Cls, abcs: seq<Cls>): (r: seq<Cls>)
    ensures forall c :: c in r <==> c in abcs && Introduces(h, sub, cls, c)
  {
    Filter(abcs, (c: Cls) => Introduces(h, sub, cls, c))
  }

  function NotIntroduced(h: Classes, sub: Relation, cls: Cls, abcs: seq<Cls>): (r: seq<Cls>)
    ensures forall c :: c in r <==> c in abcs && !Introduces(h, sub, cls, c)
    ensures |r| <= |abcs|
    ensures Introduced(h, sub, cls, abcs) != [] ==> |r| < |abcs|
  {
    assert Introduced(h, sub, cls, abcs) != [] ==> Introduced(h, sub, cls, abcs)[0] in abcs;
    Filter(abcs, (c: Cls) => !Introduces(h, sub, cls, c))
  }

  /** All the orders, if none of them failed. */
  function AllOk(mros: seq<Option<seq<Cls>>>): (r: Option<seq<seq<Cls>>>)
    ensures r.Some? <==> forall i :: 0 <= i < |mros| ==> mros[i].Some?
    ensures r.Some? ==> |r.value| == |mros| && forall i :: 0 <= i < |mros| ==> mros[i] == Some(r.value[i])
  {
    if mros == [] then Some([])
    else
      var rest := AllOk(mros[1..]);
      if mros[0].None? || rest.None? then None else Some([mros[0].value] + rest.value)
  }

  /** _c3_mro. None stands for the RuntimeError of an inconsistent hierarchy. */
  function C3Mro(h: Classes, sub: Relation, cls: Cls, abcs: seq<Cls>): Option<seq<Cls>>
    requires Acyclic(h)
    decreases |abcs|, h.rank(cls)
  {
    var bases, left := h.bases(cls), NotIntroduced(h, sub, cls, abcs);
    var boundary, abstracts := Boundary(h, bases), Introduced(h, sub, cls, abcs);
    var explicit, others := bases[..boundary], bases[boundary..];
    var baseMros := AllOk(seq(|bases|, j requires 0 <= j < |bases| => C3Mro(h, sub, bases[j], left)));
    var abstractMros := AllOk(seq(|abstracts|, j requires 0 <= j < |abstracts| => C3Mro(h, sub, abstracts[j], left)));
    if baseMros.None? || abstractMros.None? then None
    else
      var first, second := baseMros.value[..boundary], baseMros.value[boundary..];
      Merge(MroLists(cls, first, abstractMros.value, second, explicit, abstracts, others), h.truthy)
  }

  function MroLists(cls: Cls, e: seq<seq<Cls>>, a: seq<seq<Cls>>, o: seq<seq<Cls>>,
                    explicit: seq<Cls>, abstracts: seq<Cls>, others: seq<Cls>): seq<seq<Cls>> {
    [[cls]] + e + a + o + [explicit] + [abstracts] + [others]
  }

  /** Where the lists of a merge stand: the class, the orders m of its bases up to
      the boundary k, the orders a of the abstract classes, those of the other bases,
      and the three kinds of classes themselves. */
  ghost predicate Places(lists: seq<seq<Cls>>, cls: Cls, bases: seq<Cls>, k: nat, m: seq<seq<Cls>>,
                         abstracts: seq<Cls>, a: seq<seq<Cls>>) {
    && k <= |bases| == |m| && |lists| == |m| + |a| + 4 && lists[0] == [cls]
    && (forall i :: 0 <= i < k ==> lists[1 + i] == m[i])
    && (forall i :: 0 <= i < |a| ==> lists[1 + k + i] == a[i])
    && (forall i :: k <= i < |m| ==> lists[1 + |a| + i] == m[i])
    && lists[|lists| - 3] == bases[..k] && lists[|lists| - 2] == abstracts && lists[|lists| - 1] == bases[k..]
  }

  lemma ListPlaces(cls: Cls, bases: seq<Cls>, k: nat, m: seq<seq<Cls>>, abstracts: seq<Cls>, a: seq<seq<Cls>>)
    requires k <= |bases| == |m|
    ensures Places(MroLists(cls, m[..k], a, m[k..], bases[..k], abstracts, bases[k..]), cls, bases, k, m, abstracts, a)
  {}

  /** The orders of some classes, all of which were found. */
  ghost predicate AreMros(h: Classes, sub: Relation, classes: seq<Cls>, left: seq<Cls>, mros: seq<seq<Cls>>)
    requires Acyclic(h)
  {
    |mros| == |classes| && forall i :: 0 <= i < |classes| ==> C3Mro(h, sub, classes[i], left) == Some(mros[i])
  }

  /** Everything the order of cls has to agree with, given the orders m of its bases
      and a of the abstract classes introduced here. */
  function ListsOf(h: Classes, sub: Relation, cls: Cls, abcs: seq<Cls>, m: seq<seq<Cls>>, a: seq<seq<Cls>>)
      : seq<seq<Cls>>
    requires |m| == |h.bases(cls)|
  {
    var bases := h.bases(cls);
    var boundary := Boundary(h, bases);
    MroLists(cls, m[..boundary], a, m[boundary..], bases[..boundary],
             Introduced(h, sub, cls, abcs), bases[boundary..])
  }

  /** The lists that a returned order was merged from. */
  lemma MergedFrom(h: Classes, sub: Relation, cls: Cls, abcs: seq<Cls>) returns (m: seq<seq<Cls>>, a: seq<seq<Cls>>)
    requires Acyclic(h) && C3Mro(h, sub, cls, abcs).Some?
    ensures AreMros(h, sub, h.bases(cls), NotIntroduced(h, sub, cls, abcs), m)
    ensures AreMros(h, sub, Introduced(h, sub, cls, abcs), NotIntroduced(h, sub, cls, abcs), a)
    ensures C3Mro(h, sub, cls, abcs) == Merge(ListsOf(h, sub, cls, abcs, m, a), h.truthy)
  {
    var bases, left := h.bases(cls), NotIntroduced(h, sub, cls, abcs);
    var abstracts := Introduced(h, sub, cls, abcs);
    m := AllOk(seq(|bases|, j requires 0 <= j < |bases| => C3Mro(h, sub, bases[j], left))).value;
    a := AllOk(seq(|abstracts|, j requires 0 <= j < |abstracts| => C3Mro(h, sub, abstracts[j], left))).value;
  }

  /** The order of c was found and is kept in r. */
  ghost predicate Keeps(h: Classes, sub: Relation, c: Cls, left: seq<Cls>, r: seq<Cls>)
    requires Acyclic(h)
  {
    C3Mro(h, sub, c, left).Some? && Subsequence(C3Mro(h, sub, c, left).value, r)
  }

  ghost predicate KeepsAll(h: Classes, sub: Relation, classes: seq<Cls>, left: seq<Cls>, r: seq<Cls>)
    requires Acyclic(h)
  {
    forall i :: 0 <= i < |classes| ==> Keeps(h, sub, classes[i], left, r)
  }

  /** What _c3_mro returns holds the class, repeats nothing, keeps the order in
      which the bases are listed on each side of the boundary and in which the
      abstract classes introduced here were given, and keeps the order of every
      base and of every such abstract class. */
  lemma MroSound(h: Classes, sub: Relation, cls: Cls, abcs: seq<Cls>)
    requires Acyclic(h) && C3Mro(h, sub, cls, abcs).Some?
    ensures var r, bases := C3Mro(h, sub, cls, abcs).value, h.bases(cls);
      var introduced, left := Introduced(h, sub, cls, abcs), NotIntroduced(h, sub, cls, abcs);
      && NoDuplicates(r) && cls in r
      && Subsequence(bases[..Boundary(h, bases)], r) && Subsequence(bases[Boundary(h, bases)..], r)
      && Subsequence(introduced, r)
      && KeepsAll(h, sub, bases, left, r) && KeepsAll(h, sub, introduced, left, r)
  {
    var bases, r, left := h.bases(cls), C3Mro(h, sub, cls, abcs).value, NotIntroduced(h, sub, cls, abcs);
    var boundary, abstracts := Boundary(h, bases), Introduced(h, sub, cls, abcs);
    var m, a := MergedFrom(h, sub, cls, abcs);
    ListPlaces(cls, bases, boundary, m, abstracts, a);
    ListsKept(ListsOf(h, sub, cls, abcs, m, a), h.truthy, cls, bases, boundary, m, abstracts, a, r);
    AllKept(h, sub, bases, left, m, r);
    AllKept(h, sub, abstracts, left, a, r);
  }

  /** r is a common order, of classes that count as true, of all of these, where m
      and a are the orders of the bases and of the abstract classes. */
  ghost predicate Orders(h: Classes, sub: Relation, cls: Cls, abcs: seq<Cls>, r: seq<Cls>,
                         m: seq<seq<Cls>>, a: seq<seq<Cls>>)
    requires Acyclic(h)
  {
    && AreMros(h, sub, h.bases(cls), NotIntroduced(h, sub, cls, abcs), m)
    && AreMros(h, sub, Introduced(h, sub, cls, abcs), NotIntroduced(h, sub, cls, abcs), a)
    && LinearExtension(r, ListsOf(h, sub, cls, abcs, m, a)) && AllTrue(r, h.truthy)
  }

  /** _c3_mro returns an order exactly when every base and every abstract class
      introduced here has one and a common order of them all exists. */
  lemma MroExact(h: Classes, sub: Relation, cls: Cls, abcs: seq<Cls>)
    requires Acyclic(h)
    ensures C3Mro(h, sub, cls, abcs).Some? <==> exists r, m, a :: Orders(h, sub, cls, abcs, r, m, a)
  {
    if C3Mro(h, sub, cls, abcs).Some? {
      var m, a := MergedFrom(h, sub, cls, abcs);
      var r, lists := C3Mro(h, sub, cls, abcs).value, ListsOf(h, sub, cls, abcs, m, a);
      MergeSound(lists, h.truthy);
      MergeTrue(lists, h.truthy);
      assert Orders(h, sub, cls, abcs, r, m, a);
    }
    if r, m, a :| Orders(h, sub, cls, abcs, r, m, a) { OrdersMerge(h, sub, cls, abcs, r, m, a); }
  }

  lemma OrdersMerge(h: Classes, sub: Relation, cls: Cls, abcs: seq<Cls>, r: seq<Cls>,
                    m: seq<seq<Cls>>, a: seq<seq<Cls>>)
    requires Acyclic(h) && Orders(h, sub, cls, abcs, r, m, a)
    ensures C3Mro(h, sub, cls, abcs).Some?
  {
    MroIsMerge(h, sub, cls, abcs, m, a);
    MergeComplete(ListsOf(h, sub, cls, abcs, m, a), h.truthy, r);
  }

  lemma MroIsMerge(h: Classes, sub: Relation, cls: Cls, abcs: seq<Cls>, m: seq<seq<Cls>>, a: seq<seq<Cls>>)
    requires Acyclic(h) && AreMros(h, sub, h.bases(cls), NotIntroduced(h, sub, cls, abcs), m)
    requires AreMros(h, sub, Introduced(h, sub, cls, abcs), NotIntroduced(h, sub, cls, abcs), a)
    ensures C3Mro(h, sub, cls, abcs) == Merge(ListsOf(h, sub, cls, abcs, m, a), h.truthy)
  {
    var bases, left := h.bases(cls), NotIntroduced(h, sub, cls, abcs);
    var abstracts := Introduced(h, sub, cls, abcs);
    AllOkIs(seq(|bases|, j requires 0 <= j < |bases| => C3Mro(h, sub, bases[j], left)), m);
    AllOkIs(seq(|abstracts|, j requires 0 <= j < |abstracts| => C3Mro(h, sub, abstracts[j], left)), a);
  }

  lemma AllOkIs(mros: seq<Option<seq<Cls>>>, values: seq<seq<Cls>>)
    requires |mros| == |values| && forall i :: 0 <= i < |mros| ==> mros[i] == Some(values[i])
    ensures AllOk(mros) == Some(values)
  {
    assert AllOk(mros).value == values;
  }

  lemma AllKept(h: Classes, sub: Relation, classes: seq<Cls>, left: seq<Cls>, mros: seq<seq<Cls>>, r: seq<Cls>)
    requires Acyclic(h) && AreMros(h, sub, classes, left, mros)
    requires forall i :: 0 <= i < |mros| ==> Subsequence(mros[i], r)
    ensures KeepsAll(h, sub, classes, left, r)
  {}

  lemma ListsKept(lists: seq<seq<Cls>>, truthy: Cls -> bool, cls: Cls, bases: seq<Cls>, k: nat, m: seq<seq<Cls>>,
                  abstracts: seq<Cls>, a: seq<seq<Cls>>, r: seq<Cls>)
    requires Places(lists, cls, bases, k, m, abstracts, a) && Merge(lists, truthy) == Some(r)
    ensures NoDuplicates(r) && cls in r
    ensures forall i :: 0 <= i < |m| ==> Subsequence(m[i], r)
    ensures forall i :: 0 <= i < |a| ==> Subsequence(a[i], r)
    ensures Subsequence(bases[..k], r) && Subsequence(abstracts, r) && Subsequence(bases[k..], r)
  {
    MergeSound(lists, truthy);
    assert cls in lists[0] && InSome(cls, lists);
    forall i | 0 <= i < |m| ensures Subsequence(m[i], r) {
      assert Subsequence(lists[if i < k then 1 + i else 1 + |a| + i], r);
    }
    forall i | 0 <= i < |a| ensures Subsequence(a[i], r) { assert Subsequence(lists[1 + k + i], r); }
    assert forall i :: 0 <= i < |lists| ==> Subsequence(lists[i], r);
  }

  // ----- _compose_mro

  type Registry = seq<(Cls, Impl)>

  predicate Registered(registry: Registry, c: Cls) {
    exists i :: 0 <= i < |registry| && registry[i].0 == c
  }

  function Find(registry: Registry, c: Cls): Option<Impl> {
    if registry == [] then None else if registry[0].0 == c then Some(registry[0].1) else Find(registry[1..], c)
  }

  function Keys(registry: Registry): seq<Cls> {
    seq(|registry|, i requires 0 <= i < |registry| => registry[i].0)
  }

  /** The registered classes that cls is a virtual subclass of. */
  function Related(h: Classes, sub: Relation, cls: Cls, registry: Registry): seq<Cls> {
    Filter(Keys(registry), (t: Cls) => t !in h.mro(cls) && sub(cls, t))
  }

  predicate StrictBase(h: Classes, t: Cls, types: seq<Cls>) {
    exists i :: 0 <= i < |types| && types[i] != t && t in h.mro(types[i])
  }

  function WithoutStrictBases(h: Classes, types: seq<Cls>): seq<Cls> {
    Filter(types, (t: Cls) => !StrictBase(h, t, types))
  }

  function Keep(list: seq<Cls>, types: seq<Cls>): seq<Cls> { Filter(list, (c: Cls) => c in types) }

  /** For each direct subclass of a type that cls also implements, the useful
      part of its order. */
  function FoundSubs(h: Classes, sub: Relation, cls: Cls, subs: seq<Cls>, types: seq<Cls>): seq<seq<Cls>> {
    var used := Filter(subs, (s: Cls) => s !in h.mro(cls) && sub(cls, s));
    seq(|used|, i requires 0 <= i < |used| => Keep(h.mro(used[i]), types))
  }

  /** The stable sort by decreasing length. */
  function InsertByLength(s: seq<Cls>, sorted: seq<seq<Cls>>): seq<seq<Cls>> {
    if sorted == [] || |s| >= |sorted[0]| then [s] + sorted else [sorted[0]] + InsertByLength(s, sorted[1..])
  }

  function SortByLength(found: seq<seq<Cls>>): seq<seq<Cls>> {
    if found == [] then [] else InsertByLength(found[0], SortByLength(found[1..]))
  }

  function AppendNew(mro: seq<Cls>, list: seq<Cls>): seq<Cls>
    decreases |list|
  {
    if list == [] then mro else AppendNew(if list[0] in mro then mro else mro + [list[0]], list[1..])
  }

  function AppendAllNew(mro: seq<Cls>, lists: seq<seq<Cls>>): seq<Cls>
    decreases |lists|
  {
    if lists == [] then mro else AppendAllNew(AppendNew(mro, lists[0]), lists[1..])
  }

  function OrderAbcs(h: Classes, v: View, cls: Cls, list: seq<Cls>, types: seq<Cls>, mro: seq<Cls>): seq<Cls>
    decreases |list|
  {
    if list == [] then mro
    else
      var found := FoundSubs(h, v.sub, cls, v.subclasses(list[0]), types);
      OrderAbcs(h, v, cls, list[1..], types,
                if found == [] then mro + [list[0]] else AppendAllNew(mro, SortByLength(found)))
  }

  function ComposeMro(h: Classes, v: View, cls: Cls, registry: Registry): Option<seq<Cls>>
    requires Acyclic(h)
  {
    var related := Related(h, v.sub, cls, registry);
    var types := WithoutStrictBases(h, related);
    C3Mro(h, v.sub, cls, OrderAbcs(h, v, cls, types, types, []))
  }

  // ----- _find_impl

  /** The first registered class of the order, unless the class right after it is
      another registered abstract class it is unrelated to. */
  function Match(h: Classes, sub: Relation, cls: Cls, registry: Registry, mro: seq<Cls>): Result<Option<Cls>> {
    if mro == [] then Ok(None)
    else if !Registered(registry, mro[0]) then Match(h, sub, cls, registry, mro[1..])
    else if |mro| > 1 && Registered(registry, mro[1]) && mro[1] !in h.mro(cls) && mro[0] !in h.mro(cls)
            && !sub(mro[0], mro[1])
    then RuntimeError
    else Ok(Some(mro[0]))
  }

  /** The loop of _find_impl. */
  method FindMatch(h: Classes, sub: Relation, cls: Cls, registry: Registry, mro: seq<Cls>)
      returns (r: Result<Option<Cls>>)
    ensures r == Match(h, sub, cls, registry, mro)
  {
    var found: Option<Cls> := None;
    for i := 0 to |mro|
      invariant found.None? ==> Match(h, sub, cls, registry, mro) == Match(h, sub, cls, registry, mro[i..])
      invariant found.Some? ==> i > 0 && found.value == mro[i - 1] && Registered(registry, found.value)
      invariant found.Some? ==> Match(h, sub, cls, registry, mro) == Match(h, sub, cls, registry, mro[i - 1..])
    {
      var t := mro[i];
      assert mro[i..][1..] == mro[i + 1..] && mro[i..][0] == t;
      if found.Some? {
        assert mro[i - 1..][0] == found.value && mro[i - 1..][1] == t;
        if Registered(registry, t) && t !in h.mro(cls) && found.value !in h.mro(cls) && !sub(found.value, t) {
          return RuntimeError;
        }
        break;
      }
      if Registered(registry, t) { found := Some(t); }
    }
    return Ok(found);
  }

  /** What is found along an order, if there is one. */
  function Best(h: Classes, sub: Relation, cls: Cls, registry: Registry, order: Option<seq<Cls>>)
      : Result<Option<Impl>> {
    match order
    case None => RuntimeError
    case Some(mro) =>
      match Match(h, sub, cls, registry, mro)
      case RuntimeError => RuntimeError
      case Ok(None) => Ok(None)
      case Ok(Some(t)) => Ok(Find(registry, t))
  }

  function FindImpl(h: Classes, v: View, cls: Cls, registry: Registry): Result<Option<Impl>>
    requires Acyclic(h)
  {
    Best(h, v.sub, cls, registry, ComposeMro(h, v, cls, registry))
  }

  /** The lookup without the cache. */
  function Lookup(h: Classes, v: View, cls: Cls, registry: Registry): Result<Option<Impl>>
    requires Acyclic(h)
  {
    if Registered(registry, cls) then Ok(Find(registry, cls)) else FindImpl(h, v, cls, registry)
  }

  // ----- what a lookup depends on

  predicate NoAbc(h: Classes, registry: Registry) {
    forall i :: 0 <= i < |registry| ==> !h.isAbc(registry[i].0)
  }

  lemma {:induction false} FilterNone(s: seq<Cls>, p: Cls -> bool)
    requires forall i :: 0 <= i < |s| ==> !p(s[i])
    ensures Filter(s, p) == []
  {
    if s != [] { FilterNone(s[1..], p); }
  }

  lemma NothingRelated(h: Classes, sub: Relation, cls: Cls, registry: Registry)
    requires Lawful(h, sub) && NoAbc(h, registry)
    ensures Related(h, sub, cls, registry) == []
  {
    FilterNone(Keys(registry), (t: Cls) => t !in h.mro(cls) && sub(cls, t));
  }

  lemma {:induction false} PlainMro(h: Classes, sub1: Relation, sub2: Relation, cls: Cls)
    requires Acyclic(h)
    ensures C3Mro(h, sub1, cls, []) == C3Mro(h, sub2, cls, [])
    decreases h.rank(cls)
  {
    var bases := h.bases(cls);
    var a := seq(|bases|, j requires 0 <= j < |bases| => C3Mro(h, sub1, bases[j], []));
    var b := seq(|bases|, j requires 0 <= j < |bases| => C3Mro(h, sub2, bases[j], []));
    forall j | 0 <= j < |bases| ensures a[j] == b[j] { PlainMro(h, sub1, sub2, bases[j]); }
    assert a == b;
  }

  lemma {:induction false} SameMatch(h: Classes, sub1: Relation, sub2: Relation, cls: Cls, registry: Registry,
                                     mro: seq<Cls>)
    requires Lawful(h, sub1) && Lawful(h, sub2) && NoAbc(h, registry)
    ensures Match(h, sub1, cls, registry, mro) == Match(h, sub2, cls, registry, mro)
  {
    if mro != [] { SameMatch(h, sub1, sub2, cls, registry, mro[1..]); }
  }

  lemma NothingComposed(h: Classes, v: View, cls: Cls, registry: Registry)
    requires Acyclic(h) && Lawful(h, v.sub) && NoAbc(h, registry)
    ensures ComposeMro(h, v, cls, registry) == C3Mro(h, v.sub, cls, [])
  {
    NothingRelated(h, v.sub, cls, registry);
  }

  lemma BestAlong(h: Classes, sub1: Relation, sub2: Relation, cls: Cls, registry: Registry, order: Option<seq<Cls>>)
    requires Lawful(h, sub1) && Lawful(h, sub2) && NoAbc(h, registry)
    ensures Best(h, sub1, cls, registry, order) == Best(h, sub2, cls, registry, order)
  {
    if order.Some? { SameMatch(h, sub1, sub2, cls, registry, order.value); }
  }

  /** Without abstract base classes in the registry, a lookup does not depend on
      what issubclass currently says, nor on which subclasses are defined. */
  lemma LookupIndependent(h: Classes, v1: View, v2: View, cls: Cls, registry: Registry)
    requires Acyclic(h) && Lawful(h, v1.sub) && Lawful(h, v2.sub) && NoAbc(h, registry)
    ensures Lookup(h, v1, cls, registry) == Lookup(h, v2, cls, registry)
  {
    NothingComposed(h, v1, cls, registry);
    NothingComposed(h, v2, cls, registry);
    PlainMro(h, v1.sub, v2.sub, cls);
    BestAlong(h, v1.sub, v2.sub, cls, registry, C3Mro(h, v1.sub, cls, []));
  }

  // ----- the cache

  /** The closures' shared state: registry, dispatch_cache and ns.cache_token. */
  datatype State = State(registry: Registry, cache: map<Cls, Option<Impl>>, token: Option<nat>)

  /** registry[cls] = func. */
  function SetItem(registry: Registry, cls: Cls, func: Impl): (r: Registry)
    ensures Find(r, cls) == Some(func)
    ensures forall c :: c != cls ==> Find(r, c) == Find(registry, c)
  {
    if registry == [] then [(cls, func)]
    else if registry[0].0 == cls then [(cls, func)] + registry[1..]
    else [registry[0]] + SetItem(registry[1..], cls, func)
  }

  lemma {:induction false} SetItemNoAbc(h: Classes, registry: Registry, cls: Cls, func: Impl)
    requires NoAbc(h, registry) && !h.isAbc(cls)
    ensures NoAbc(h, SetItem(registry, cls, func))
  {
    if registry != [] && registry[0].0 != cls { SetItemNoAbc(h, registry[1..], cls, func); }
  }

  /** The environment: the class hierarchy, and what issubclass says and which
      subclasses there are while the global token of abstract-class registrations
      has a given value. */
  datatype World = World(h: Classes, views: nat -> View)

  ghost predicate ValidWorld(w: World) {
    Acyclic(w.h) && forall t :: Lawful(w.h, w.views(t).sub)
  }

  function Uncached(w: World, registry: Registry, cls: Cls, now: nat): Result<Option<Impl>>
    requires Acyclic(w.h)
  {
    Lookup(w.h, w.views(now), cls, registry)
  }

  /** Every cached entry is what an uncached lookup would return while the token
      has the recorded value, or at any time while none is recorded. */
  ghost predicate Coherent(w: World, s: State)
    requires Acyclic(w.h)
  {
    && (s.token.None? ==> NoAbc(w.h, s.registry))
    && forall c, t {:trigger Uncached(w, s.registry, c, t)} :: c in s.cache && (s.token.None? || s.token.value == t) ==>
         Uncached(w, s.registry, c, t) == Ok(s.cache[c])
  }

  /** What a call of dispatch leaves behind and returns. */
  function DispatchStep(w: World, s: State, cls: Cls, now: nat): (State, Result<Option<Impl>>)
    requires Acyclic(w.h)
  {
    var stale := s.token.Some? && s.token.value != now;
    var synced := if stale then State(s.registry, map[], Some(now)) else s;
    if cls in synced.cache then (synced, Ok(synced.cache[cls]))
    else
      match Uncached(w, s.registry, cls, now)
      case RuntimeError => (synced, RuntimeError)
      case Ok(impl) => (synced.(cache := synced.cache[cls := impl]), Ok(impl))
  }

  function RegisterStep(w: World, s: State, cls: Cls, func: Impl, now: nat): State {
    State(SetItem(s.registry, cls, func), map[], if s.token.None? && w.h.isAbc(cls) then Some(now) else s.token)
  }

  /** With the cache in place a dispatch still returns what the uncached lookup
      returns now, and the cache stays coherent. */
  lemma DispatchCoherent(w: World, s: State, cls: Cls, now: nat)
    requires ValidWorld(w) && Coherent(w, s)
    ensures Coherent(w, DispatchStep(w, s, cls, now).0)
    ensures DispatchStep(w, s, cls, now).1 == Uncached(w, s.registry, cls, now)
  {
    if cls in s.cache {
      assert (s.token.None? || s.token.value == now) ==> Uncached(w, s.registry, cls, now) == Ok(s.cache[cls]);
    }
    var s' := DispatchStep(w, s, cls, now).0;
    forall c, t | c in s'.cache && (s'.token.None? || s'.token.value == t)
      ensures Uncached(w, s'.registry, c, t) == Ok(s'.cache[c])
    {
      if c in s.cache && s'.cache[c] == s.cache[c] && s'.token == s.token {
        assert Uncached(w, s.registry, c, t) == Ok(s.cache[c]);
      } else if s.token.None? {
        LookupIndependent(w.h, w.views(t), w.views(now), c, s.registry);
      }
    }
  }

  lemma RegisterCoherent(w: World, s: State, cls: Cls, func: Impl, now: nat)
    requires ValidWorld(w) && Coherent(w, s)
    ensures Coherent(w, RegisterStep(w, s, cls, func, now))
  {
    if s.token.None? && !w.h.isAbc(cls) { SetItemNoAbc(w.h, s.registry, cls, func); }
  }

  /** A call, made while the global token has the value `now`. Registrations of
      virtual subclasses and definitions of classes happen between calls and show
      as changes of `now`. */
  datatype Call = Dispatching(cls: Cls, now: nat) | Registering(key: Cls, func: Impl, now: nat)

  function RunCached(w: World, s: State, calls: seq<Call>): seq<Result<Option<Impl>>>
    requires Acyclic(w.h)
    decreases |calls|
  {
    if calls == [] then []
    else
      match calls[0]
      case Dispatching(cls, now) =>
        var (s', r) := DispatchStep(w, s, cls, now);
        [r] + RunCached(w, s', calls[1..])
      case Registering(cls, func, now) => RunCached(w, RegisterStep(w, s, cls, func, now), calls[1..])
  }

  function RunUncached(w: World, registry: Registry, calls: seq<Call>): seq<Result<Option<Impl>>>
    requires Acyclic(w.h)
    decreases |calls|
  {
    if calls == [] then []
    else
      match calls[0]
      case Dispatching(cls, now) => [Uncached(w, registry, cls, now)] + RunUncached(w, registry, calls[1..])
      case Registering(cls, func, _) => RunUncached(w, SetItem(registry, cls, func), calls[1..])
  }

  /** Over any sequence of dispatches, registrations and changes of the token,
      the cache is invisible. */
  lemma {:induction false} CacheInvisible(w: World, s: State, calls: seq<Call>)
    requires ValidWorld(w) && Coherent(w, s)
    ensures RunCached(w, s, calls) == RunUncached(w, s.registry, calls)
    decreases |calls|
  {
    if calls != [] {
      match calls[0]
      case Dispatching(cls, now) =>
        DispatchCoherent(w, s, cls, now);
        CacheInvisible(w, DispatchStep(w, s, cls, now).0, calls[1..]);
      case Registering(cls, func, now) =>
        RegisterCoherent(w, s, cls, func, now);
        CacheInvisible(w, RegisterStep(w, s, cls, func, now), calls[1..]);
    }
  }

  /** What a dispatch leaves in the cache: its own result unless it raised, and the
      entries that were there unless the token has changed since it was recorded. */
  lemma DispatchCaches(w: World, s: State, cls: Cls, now: nat)
    requires Acyclic(w.h)
    ensures var (s', r) := DispatchStep(w, s, cls, now);
      && s'.registry == s.registry && s'.token == (if s.token.None? then None else Some(now))
      && (cls in s'.cache <==> r.Ok?) && (r.Ok? ==> s'.cache[cls] == r.value)
      && forall c :: c != cls ==>
           && (c in s'.cache <==> c in s.cache && (s.token.None? || s.token.value == now))
           && (c in s'.cache ==> s'.cache[c] == s.cache[c])
  {}

  /** A second dispatch, of the same class and under the same token, is answered from
      the cache. */
  lemma DispatchAgain(w: World, s: State, cls: Cls, now: nat)
    requires Acyclic(w.h) && DispatchStep(w, s, cls, now).1.Ok?
    ensures cls in DispatchStep(w, s, cls, now).0.cache
    ensures DispatchStep(w, DispatchStep(w, s, cls, now).0, cls, now) == DispatchStep(w, s, cls, now)
  {
    DispatchCaches(w, s, cls, now);
  }

  function RunState(w: World, s: State, calls: seq<Call>): State
    requires Acyclic(w.h)
    decreases |calls|
  {
    if calls == [] then s
    else
      match calls[0]
      case Dispatching(cls, now) => RunState(w, DispatchStep(w, s, cls, now).0, calls[1..])
      case Registering(cls, func, now) => RunState(w, RegisterStep(w, s, cls, func, now), calls[1..])
  }

  predicate RegistersAbc(w: World, call: Call) { call.Registering? && w.h.isAbc(call.key) }

  /** The token is recorded exactly once an abstract base class has been registered. */
  lemma {:induction false} TokenRecorded(w: World, s: State, calls: seq<Call>)
    requires Acyclic(w.h)
    ensures RunState(w, s, calls).token.Some? <==>
      s.token.Some? || exists i :: 0 <= i < |calls| && RegistersAbc(w, calls[i])
    decreases |calls|
  {
    if calls != [] {
      var call, more := calls[0], calls[1..];
      match call {
        case Dispatching(cls, now) =>
          DispatchCaches(w, s, cls, now);
          TokenRecorded(w, DispatchStep(w, s, cls, now).0, more);
        case Registering(cls, func, now) =>
          TokenRecorded(w, RegisterStep(w, s, cls, func, now), more);
      }
      if i :| 0 <= i < |more| && RegistersAbc(w, more[i]) { assert RegistersAbc(w, calls[i + 1]); }
      if i :| 0 <= i < |calls| && RegistersAbc(w, calls[i]) { assert i > 0 ==> RegistersAbc(w, more[i - 1]); }
    }
  }

  /** The closures dispatch and register over shared variables. */
  class Closures {
    const w: World
    var registry: Registry
    var cache: map<Cls, Option<Impl>>
    var token: Option<nat>

    ghost function Now(): State
      reads this
    {
      State(registry, cache, token)
    }

    ghost predicate Valid()
      reads this
    {
      ValidWorld(w) && Coherent(w, Now())
    }

    /** singledispatch(func): the default implementation is registered for the
        root class, which is no abstract base class. */
    constructor (w: World, root: Cls, func: Impl)
      requires ValidWorld(w) && !w.h.isAbc(root)
      ensures Valid() && this.w == w && Now() == State([(root, func)], map[], None)
    {
      this.w := w;
      registry := [(root, func)];
      cache := map[];
      token := None;
    }

    method Dispatch(cls: Cls, now: nat) returns (r: Result<Option<Impl>>)
      requires Valid()
      modifies this`cache, this`token
      ensures Valid() && (Now(), r) == DispatchStep(w, old(Now()), cls, now)
      ensures r == Uncached(w, registry, cls, now)
    {
      DispatchCoherent(w, Now(), cls, now);
      if token.Some? {
        if token.value != now {
          cache := map[];
          token := Some(now);
        }
      }
      if cls in cache { return Ok(cache[cls]); }
      if Registered(registry, cls) {
        r := Ok(Find(registry, cls));
      } else {
        r := FindImpl(w.h, w.views(now), cls, registry);
        if r.RuntimeError? { return; }
      }
      cache := cache[cls := r.value];
    }

    method Register(cls: Cls, func: Impl, now: nat)
      requires Valid()
      modifies this
      ensures Valid() && Now() == RegisterStep(w, old(Now()), cls, func, now)
    {
      RegisterCoherent(w, Now(), cls, func, now);
      registry := SetItem(registry, cls, func);
      if token.None? && w.h.isAbc(cls) { token := Some(now); }
      cache := map[];
    }
  }
}
