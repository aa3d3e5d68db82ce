/** Which order a class is dispatched along, and which implementation is found. */
module DispatchOrder {
  import opened Wrappers
  import opened C3
  import opened C3Order
  import opened Dispatch

  // ----- the list comprehensions

  lemma Regroup(a: seq<Cls>, b: seq<Cls>, c: seq<Cls>)
    ensures a + b + c == a + (b + c)
  {}

  lemma FilterStep(c: Cls, s: seq<Cls>, p: Cls -> bool)
    ensures Filter([c] + s, p) == (if p(c) then [c] else []) + Filter(s, p)
  {
    assert ([c] + s)[1..] == s;
  }

  /** A comprehension goes through its list in order. */
  lemma {:induction false} FilterNext(s: seq<Cls>, c: Cls, p: Cls -> bool)
    ensures Filter(s + [c], p) == Filter(s, p) + if p(c) then [c] else []
  {
    var last := if p(c) then [c] else [];
    if s == [] {
      FilterStep(c, [], p);
      assert s + [c] == [c] + [] && last + [] == [] + last;
    } else {
      var first, more := if p(s[0]) then [s[0]] else [], s[1..];
      FilterNext(more, c, p);
      assert s + [c] == [s[0]] + (more + [c]) && s == [s[0]] + more;
      FilterStep(s[0], more + [c], p);
      FilterStep(s[0], more, p);
      Regroup(first, Filter(more, p), last);
    }
  }

  lemma {:induction false} FilterSame(s: seq<Cls>, p: Cls -> bool, q: Cls -> bool)
    requires forall c :: p(c) == q(c)
    ensures Filter(s, p) == Filter(s, q)
  {
    if s != [] { FilterSame(s[1..], p, q); }
  }

  // ----- _c3_mro

  /** r is the C3 merge of the class, the orders m of its bases up to the last
      abstract one, the orders a of the abstract classes inserted here, the orders of
      the other bases, and the three lists of classes. The orders are found with the
      abstract classes left. */
  ghost predicate MergedAs(h: Classes, sub: Relation, cls: Cls, inserted: seq<Cls>, left: seq<Cls>, r: seq<Cls>,
                           k: nat, m: seq<seq<Cls>>, a: seq<seq<Cls>>, lists: seq<seq<Cls>>)
    requires Acyclic(h)
  {
    var bases := h.bases(cls);
    && LastAbstract(h, bases, k)
    && AreMros(h, sub, bases, left, m) && AreMros(h, sub, inserted, left, a)
    && Places(lists, cls, bases, k, m, inserted, a)
    && Chosen(r, lists) && AllTrue(r, h.truthy)
  }

  /** Inserted are the abstract classes that cls implements and none of its bases does. */
  ghost predicate Linearises(h: Classes, sub: Relation, cls: Cls, abcs: seq<Cls>, r: seq<Cls>,
                             k: nat, m: seq<seq<Cls>>, a: seq<seq<Cls>>, lists: seq<seq<Cls>>)
    requires Acyclic(h)
  {
    var bases := h.bases(cls);
    var inserted := Filter(abcs, (c: Cls) => sub(cls, c) && forall i :: 0 <= i < |bases| ==> !sub(bases[i], c));
    var left := Filter(abcs, (c: Cls) => !sub(cls, c) || exists i :: 0 <= i < |bases| && sub(bases[i], c));
    MergedAs(h, sub, cls, inserted, left, r, k, m, a, lists)
  }

  lemma Comprehensions(h: Classes, sub: Relation, cls: Cls, abcs: seq<Cls>)
    ensures var bases := h.bases(cls);
      && Introduced(h, sub, cls, abcs) ==
           Filter(abcs, (c: Cls) => sub(cls, c) && forall i :: 0 <= i < |bases| ==> !sub(bases[i], c))
      && NotIntroduced(h, sub, cls, abcs) ==
           Filter(abcs, (c: Cls) => !sub(cls, c) || exists i :: 0 <= i < |bases| && sub(bases[i], c))
  {
    var bases := h.bases(cls);
    FilterSame(abcs, (c: Cls) => Introduces(h, sub, cls, c),
               (c: Cls) => sub(cls, c) && forall i :: 0 <= i < |bases| ==> !sub(bases[i], c));
    FilterSame(abcs, (c: Cls) => !Introduces(h, sub, cls, c),
               (c: Cls) => !sub(cls, c) || exists i :: 0 <= i < |bases| && sub(bases[i], c));
  }

  lemma OneBoundary(h: Classes, bases: seq<Cls>, k: nat)
    requires LastAbstract(h, bases, k)
    ensures k == Boundary(h, bases)
  {
    var b := Boundary(h, bases);
    assert b > 0 ==> h.isAbc(bases[b - 1]);
  }

  lemma OnePlacing(l1: seq<seq<Cls>>, l2: seq<seq<Cls>>, cls: Cls, bases: seq<Cls>, k: nat, m: seq<seq<Cls>>,
                   abstracts: seq<Cls>, a: seq<seq<Cls>>)
    requires Places(l1, cls, bases, k, m, abstracts, a) && Places(l2, cls, bases, k, m, abstracts, a)
    ensures l1 == l2
  {
    forall i | 0 <= i < |l1| ensures l1[i] == l2[i] {
      if 0 < i <= k { assert l1[1 + (i - 1)] == m[i - 1]; }
      if k < i <= k + |a| { assert l1[1 + k + (i - 1 - k)] == a[i - 1 - k]; }
      if k + |a| < i <= |m| + |a| { assert l1[1 + |a| + (i - 1 - |a|)] == m[i - 1 - |a|]; }
    }
  }

  lemma LinearisesIf(h: Classes, sub: Relation, cls: Cls, abcs: seq<Cls>, r: seq<Cls>,
                     k: nat, m: seq<seq<Cls>>, a: seq<seq<Cls>>, lists: seq<seq<Cls>>)
    requires Acyclic(h) && Linearises(h, sub, cls, abcs, r, k, m, a, lists)
    ensures C3Mro(h, sub, cls, abcs) == Some(r)
  {
    Comprehensions(h, sub, cls, abcs);
    OneBoundary(h, h.bases(cls), k);
    MroIsMerge(h, sub, cls, abcs, m, a);
    ListPlaces(cls, h.bases(cls), k, m, Introduced(h, sub, cls, abcs), a);
    OnePlacing(lists, ListsOf(h, sub, cls, abcs, m, a), cls, h.bases(cls), k, m, Introduced(h, sub, cls, abcs), a);
    MergeIsChosen(lists, h.truthy, r);
  }

  lemma ListsMerged(h: Classes, sub: Relation, cls: Cls, abcs: seq<Cls>, m: seq<seq<Cls>>, a: seq<seq<Cls>>,
                    r: seq<Cls>, k: nat, lists: seq<seq<Cls>>)
    requires |m| == |h.bases(cls)| && lists == ListsOf(h, sub, cls, abcs, m, a) && k == Boundary(h, h.bases(cls))
    requires Merge(lists, h.truthy) == Some(r)
    ensures Places(lists, cls, h.bases(cls), k, m, Introduced(h, sub, cls, abcs), a)
    ensures Chosen(r, lists) && AllTrue(r, h.truthy)
  {
    ListPlaces(cls, h.bases(cls), k, m, Introduced(h, sub, cls, abcs), a);
    MergeIsChosen(lists, h.truthy, r);
  }

  lemma MergedOnlyIf(h: Classes, sub: Relation, cls: Cls, abcs: seq<Cls>, r: seq<Cls>)
      returns (k: nat, m: seq<seq<Cls>>, a: seq<seq<Cls>>, lists: seq<seq<Cls>>)
    requires Acyclic(h) && C3Mro(h, sub, cls, abcs) == Some(r)
    ensures MergedAs(h, sub, cls, Introduced(h, sub, cls, abcs), NotIntroduced(h, sub, cls, abcs), r, k, m, a, lists)
  {
    m, a := MergedFrom(h, sub, cls, abcs);
    k, lists := Boundary(h, h.bases(cls)), ListsOf(h, sub, cls, abcs, m, a);
    ListsMerged(h, sub, cls, abcs, m, a, r, k, lists);
  }

  /** _c3_mro returns r exactly when r is that merge. */
  lemma MroChosen(h: Classes, sub: Relation, cls: Cls, abcs: seq<Cls>, r: seq<Cls>)
    requires Acyclic(h)
    ensures C3Mro(h, sub, cls, abcs) == Some(r) <==>
      exists k: nat, m, a, lists :: Linearises(h, sub, cls, abcs, r, k, m, a, lists)
  {
    if C3Mro(h, sub, cls, abcs) == Some(r) {
      var k, m, a, lists := MergedOnlyIf(h, sub, cls, abcs, r);
      Comprehensions(h, sub, cls, abcs);
      assert Linearises(h, sub, cls, abcs, r, k, m, a, lists);
    }
    if k: nat, m, a, lists :| Linearises(h, sub, cls, abcs, r, k, m, a, lists) {
      LinearisesIf(h, sub, cls, abcs, r, k, m, a, lists);
    }
  }

  // ----- what an order holds

  /** t is cls or an ancestor of one of its bases. */
  ghost predicate Ancestor(h: Classes, cls: Cls, t: Cls) {
    t == cls || exists i :: 0 <= i < |h.bases(cls)| && t in h.mro(h.bases(cls)[i])
  }

  /** The method resolution order of a class holds its ancestors. */
  ghost predicate Inherits(h: Classes) {
    forall c, t {:trigger Ancestor(h, c, t)} :: t in h.mro(c) <==> Ancestor(h, c, t)
  }

  lemma BaseInherits(h: Classes, cls: Cls, i: nat, t: Cls)
    requires Inherits(h) && i < |h.bases(cls)| && t in h.mro(h.bases(cls)[i])
    ensures t in h.mro(cls)
  {
    assert Ancestor(h, cls, t);
  }

  lemma OwnOrder(h: Classes, cls: Cls)
    requires Inherits(h)
    ensures cls in h.mro(cls)
  {
    assert Ancestor(h, cls, cls);
  }

  /** An ancestor of an ancestor is one. */
  lemma {:induction false} MroTransitive(h: Classes, c: Cls, t: Cls, u: Cls)
    requires Acyclic(h) && Inherits(h) && t in h.mro(c) && u in h.mro(t)
    ensures u in h.mro(c)
    decreases h.rank(c)
  {
    assert Ancestor(h, c, t);
    if t != c {
      var i :| 0 <= i < |h.bases(c)| && t in h.mro(h.bases(c)[i]);
      MroTransitive(h, h.bases(c)[i], t, u);
      BaseInherits(h, c, i, u);
    }
  }

  lemma {:induction false} AncestorRank(h: Classes, c: Cls, t: Cls)
    requires Acyclic(h) && Inherits(h) && t in h.mro(c) && t != c
    ensures h.rank(t) < h.rank(c)
    decreases h.rank(c)
  {
    assert Ancestor(h, c, t);
    var i :| 0 <= i < |h.bases(c)| && t in h.mro(h.bases(c)[i]);
    if t != h.bases(c)[i] { AncestorRank(h, h.bases(c)[i], t); }
  }

  ghost predicate Under(h: Classes, classes: seq<Cls>, x: Cls) {
    exists i :: 0 <= i < |classes| && x in h.mro(classes[i])
  }

  lemma PlacesMembers(lists: seq<seq<Cls>>, cls: Cls, bases: seq<Cls>, k: nat, m: seq<seq<Cls>>,
                      abstracts: seq<Cls>, a: seq<seq<Cls>>, x: Cls)
    requires Places(lists, cls, bases, k, m, abstracts, a)
    ensures InSome(x, lists) <==> x == cls || InSome(x, m) || InSome(x, a) || x in bases || x in abstracts
  {
    assert bases == bases[..k] + bases[k..];
    if InSome(x, lists) {
      var j :| 0 <= j < |lists| && x in lists[j];
      if 0 < j <= k { assert lists[1 + (j - 1)] == m[j - 1]; }
      if k < j <= k + |a| { assert lists[1 + k + (j - 1 - k)] == a[j - 1 - k]; }
      if k + |a| < j <= |m| + |a| { assert lists[1 + |a| + (j - 1 - |a|)] == m[j - 1 - |a|]; }
    }
    if i :| 0 <= i < |m| && x in m[i] { assert x in lists[if i < k then 1 + i else 1 + |a| + i]; }
    if i :| 0 <= i < |a| && x in a[i] { assert x in lists[1 + k + i]; }
    assert x == cls ==> x in lists[0];
    assert x in bases ==> x in lists[|lists| - 3] || x in lists[|lists| - 1];
    assert x in abstracts ==> x in lists[|lists| - 2];
  }

  /** What a merged order is made of. */
  lemma MroParts(h: Classes, sub: Relation, cls: Cls, abcs: seq<Cls>) returns (m: seq<seq<Cls>>, a: seq<seq<Cls>>)
    requires Acyclic(h) && C3Mro(h, sub, cls, abcs).Some?
    ensures AreMros(h, sub, h.bases(cls), NotIntroduced(h, sub, cls, abcs), m)
    ensures AreMros(h, sub, Introduced(h, sub, cls, abcs), NotIntroduced(h, sub, cls, abcs), a)
    ensures forall x :: x in C3Mro(h, sub, cls, abcs).value <==>
      x == cls || InSome(x, m) || InSome(x, a) || x in h.bases(cls) || x in Introduced(h, sub, cls, abcs)
  {
    m, a := MergedFrom(h, sub, cls, abcs);
    var lists, k := ListsOf(h, sub, cls, abcs, m, a), Boundary(h, h.bases(cls));
    var introduced := Introduced(h, sub, cls, abcs);
    MergeSound(lists, h.truthy);
    ListPlaces(cls, h.bases(cls), k, m, introduced, a);
    forall x { PlacesMembers(lists, cls, h.bases(cls), k, m, introduced, a, x); }
  }

  lemma ReachedUnder(h: Classes, classes: seq<Cls>, c: Cls, x: Cls)
    requires c in classes && x in h.mro(c)
    ensures Under(h, classes, x)
  {
    var i :| 0 <= i < |classes| && classes[i] == c;
  }

  lemma UnderFewer(h: Classes, fewer: seq<Cls>, classes: seq<Cls>, x: Cls)
    requires Under(h, fewer, x) && forall c :: c in fewer ==> c in classes
    ensures Under(h, classes, x)
  {
    var i :| 0 <= i < |fewer| && x in h.mro(fewer[i]);
    ReachedUnder(h, classes, fewer[i], x);
  }

  /** An order holds nothing but ancestors of the class and of the abstract classes. */
  lemma {:induction false} MroHoldsOnly(h: Classes, sub: Relation, cls: Cls, abcs: seq<Cls>, x: Cls)
    requires Acyclic(h) && Inherits(h) && C3Mro(h, sub, cls, abcs).Some? && x in C3Mro(h, sub, cls, abcs).value
    ensures x in h.mro(cls) || Under(h, abcs, x)
    decreases |abcs|, h.rank(cls)
  {
    var m, a := MroParts(h, sub, cls, abcs);
    var bases, introduced, left := h.bases(cls), Introduced(h, sub, cls, abcs), NotIntroduced(h, sub, cls, abcs);
    OwnOrder(h, x);
    if x in bases {
      var i :| 0 <= i < |bases| && bases[i] == x;
      BaseInherits(h, cls, i, x);
    } else if x in introduced {
      ReachedUnder(h, abcs, x, x);
    } else if InSome(x, m) {
      var i :| 0 <= i < |m| && x in m[i];
      MroHoldsOnly(h, sub, bases[i], left, x);
      if x in h.mro(bases[i]) { BaseInherits(h, cls, i, x); } else { UnderFewer(h, left, abcs, x); }
    } else if InSome(x, a) {
      var i :| 0 <= i < |a| && x in a[i];
      assert introduced[i] in introduced;
      MroHoldsOnly(h, sub, introduced[i], left, x);
      if x in h.mro(introduced[i]) { ReachedUnder(h, abcs, introduced[i], x); } else { UnderFewer(h, left, abcs, x); }
    }
  }

  /** It holds all the ancestors of the class. */
  lemma {:induction false} MroHoldsOwn(h: Classes, sub: Relation, cls: Cls, abcs: seq<Cls>, x: Cls)
    requires Acyclic(h) && Inherits(h) && C3Mro(h, sub, cls, abcs).Some? && x in h.mro(cls)
    ensures x in C3Mro(h, sub, cls, abcs).value
    decreases |abcs|, h.rank(cls)
  {
    var m, a := MroParts(h, sub, cls, abcs);
    assert Ancestor(h, cls, x);
    if x != cls {
      var i :| 0 <= i < |h.bases(cls)| && x in h.mro(h.bases(cls)[i]);
      MroHoldsOwn(h, sub, h.bases(cls)[i], NotIntroduced(h, sub, cls, abcs), x);
      assert x in m[i];
    }
  }

  lemma IntroducedHolds(h: Classes, sub: Relation, introduced: seq<Cls>, left: seq<Cls>, a: seq<seq<Cls>>, i: nat,
                        x: Cls)
    requires Acyclic(h) && Inherits(h) && AreMros(h, sub, introduced, left, a) && i < |introduced|
    requires x in h.mro(introduced[i])
    ensures InSome(x, a)
  {
    MroHoldsOwn(h, sub, introduced[i], left, x);
    assert x in a[i];
  }

  lemma InheritedFrom(h: Classes, sub: Relation, cls: Cls, t: Cls) returns (i: nat)
    requires sub(cls, t) && !Introduces(h, sub, cls, t)
    ensures i < |h.bases(cls)| && sub(h.bases(cls)[i], t)
  {
    i :| i < |h.bases(cls)| && sub(h.bases(cls)[i], t);
  }

  /** And all those of the abstract classes it implements. */
  lemma {:induction false} MroHoldsAbc(h: Classes, sub: Relation, cls: Cls, abcs: seq<Cls>, t: Cls, x: Cls)
    requires Acyclic(h) && Inherits(h) && C3Mro(h, sub, cls, abcs).Some?
    requires t in abcs && sub(cls, t) && x in h.mro(t)
    ensures x in C3Mro(h, sub, cls, abcs).value
    decreases |abcs|, h.rank(cls)
  {
    var m, a := MroParts(h, sub, cls, abcs);
    var introduced, left := Introduced(h, sub, cls, abcs), NotIntroduced(h, sub, cls, abcs);
    if Introduces(h, sub, cls, t) {
      var i :| 0 <= i < |introduced| && introduced[i] == t;
      IntroducedHolds(h, sub, introduced, left, a, i, x);
    } else {
      var i := InheritedFrom(h, sub, cls, t);
      MroHoldsAbc(h, sub, h.bases(cls)[i], left, t, x);
      assert x in m[i];
    }
  }

  // ----- _compose_mro

  /** A class whose subclass is listed is a base of it. */
  ghost predicate Families(h: Classes, v: View) { forall t, s :: s in v.subclasses(t) ==> t in h.bases(s) }

  function MaxRank(h: Classes, types: seq<Cls>): (n: nat)
    ensures forall t :: t in types ==> h.rank(t) <= n
  {
    if types == [] then 0
    else
      var n := MaxRank(h, types[1..]);
      if h.rank(types[0]) > n then h.rank(types[0]) else n
  }

  /** Leaving out the strict bases leaves a class under which they are. */
  lemma {:induction false} Topmost(h: Classes, types: seq<Cls>, t: Cls) returns (top: Cls)
    requires Acyclic(h) && Inherits(h) && t in types
    ensures top in WithoutStrictBases(h, types) && t in h.mro(top)
    decreases MaxRank(h, types) - h.rank(t)
  {
    if StrictBase(h, t, types) {
      var i :| 0 <= i < |types| && types[i] != t && t in h.mro(types[i]);
      AncestorRank(h, types[i], t);
      top := Topmost(h, types, types[i]);
      MroTransitive(h, top, types[i], t);
    } else {
      OwnOrder(h, t);
      top := t;
    }
  }

  lemma {:induction false} InsertMembers(s: seq<Cls>, sorted: seq<seq<Cls>>, x: seq<Cls>)
    ensures x in InsertByLength(s, sorted) <==> x == s || x in sorted
  {
    if sorted != [] && |s| < |sorted[0]| { InsertMembers(s, sorted[1..], x); }
  }

  lemma {:induction false} SortMembers(found: seq<seq<Cls>>, x: seq<Cls>)
    ensures x in SortByLength(found) <==> x in found
  {
    if found != [] {
      SortMembers(found[1..], x);
      InsertMembers(found[0], SortByLength(found[1..]), x);
    }
  }

  lemma {:induction false} AppendMembers(mro: seq<Cls>, list: seq<Cls>, x: Cls)
    ensures x in AppendNew(mro, list) <==> x in mro || x in list
    decreases |list|
  {
    if list != [] { AppendMembers(if list[0] in mro then mro else mro + [list[0]], list[1..], x); }
  }

  lemma {:induction false} AppendAllMembers(mro: seq<Cls>, lists: seq<seq<Cls>>, x: Cls)
    ensures x in AppendAllNew(mro, lists) <==> x in mro || InSome(x, lists)
    decreases |lists|
  {
    if lists != [] {
      AppendAllMembers(AppendNew(mro, lists[0]), lists[1..], x);
      AppendMembers(mro, lists[0], x);
      assert InSome(x, lists) <==> x in lists[0] || InSome(x, lists[1..]) by {
        if i :| 0 <= i < |lists[1..]| && x in lists[1..][i] { assert x in lists[i + 1]; }
        if i :| 0 < i < |lists| && x in lists[i] { assert x in lists[1..][i - 1]; }
      }
    }
  }

  /** One type's contribution: itself, or what its useful subclasses list. */
  function AddType(h: Classes, v: View, cls: Cls, t: Cls, types: seq<Cls>, mro: seq<Cls>): seq<Cls> {
    var found := FoundSubs(h, v.sub, cls, v.subclasses(t), types);
    if found == [] then mro + [t] else AppendAllNew(mro, SortByLength(found))
  }

  lemma SortInSome(found: seq<seq<Cls>>, x: Cls)
    ensures InSome(x, SortByLength(found)) <==> InSome(x, found)
  {
    var sorted := SortByLength(found);
    if i :| 0 <= i < |sorted| && x in sorted[i] {
      SortMembers(found, sorted[i]);
      assert sorted[i] in found;
    }
    if i :| 0 <= i < |found| && x in found[i] {
      SortMembers(found, found[i]);
      assert found[i] in sorted;
    }
  }

  lemma FoundMembers(h: Classes, v: View, cls: Cls, t: Cls, types: seq<Cls>, x: Cls)
    requires Families(h, v) && Inherits(h) && t in types
    ensures var found := FoundSubs(h, v.sub, cls, v.subclasses(t), types);
      (InSome(x, found) ==> x in types) && (found != [] ==> InSome(t, found))
  {
    var found := FoundSubs(h, v.sub, cls, v.subclasses(t), types);
    if found != [] {
      var used := Filter(v.subclasses(t), (s: Cls) => s !in h.mro(cls) && v.sub(cls, s));
      var s := used[0];
      assert s in used;
      var i :| 0 <= i < |h.bases(s)| && h.bases(s)[i] == t;
      OwnOrder(h, t);
      BaseInherits(h, s, i, t);
      assert found[0] == Keep(h.mro(s), types) && t in found[0];
    }
  }

  lemma AddTypeMembers(h: Classes, v: View, cls: Cls, t: Cls, types: seq<Cls>, mro: seq<Cls>, x: Cls)
    requires Families(h, v) && Inherits(h) && t in types
    ensures x in AddType(h, v, cls, t, types, mro) ==> x in mro || x in types
    ensures x in mro || x == t ==> x in AddType(h, v, cls, t, types, mro)
  {
    var found := FoundSubs(h, v.sub, cls, v.subclasses(t), types);
    FoundMembers(h, v, cls, t, types, x);
    SortInSome(found, x);
    AppendAllMembers(mro, SortByLength(found), x);
  }

  lemma {:induction false} OrderMembers(h: Classes, v: View, cls: Cls, list: seq<Cls>, types: seq<Cls>,
                                        mro: seq<Cls>, x: Cls)
    requires Families(h, v) && Inherits(h) && forall t :: t in list ==> t in types
    ensures x in OrderAbcs(h, v, cls, list, types, mro) ==> x in mro || x in types
    ensures x in mro || x in list ==> x in OrderAbcs(h, v, cls, list, types, mro)
    decreases |list|
  {
    if list != [] {
      AddTypeMembers(h, v, cls, list[0], types, mro, x);
      OrderMembers(h, v, cls, list[1..], types, AddType(h, v, cls, list[0], types, mro), x);
    }
  }

  /** x is the class, an ancestor of it, or an ancestor of a registered class that
      issubclass says it is a subclass of. */
  ghost predicate Serves(h: Classes, sub: Relation, cls: Cls, registry: Registry, x: Cls) {
    x in h.mro(cls) || exists t :: Registered(registry, t) && sub(cls, t) && x in h.mro(t)
  }

  lemma RelatedMembers(h: Classes, sub: Relation, cls: Cls, registry: Registry, t: Cls)
    ensures t in Related(h, sub, cls, registry) <==> Registered(registry, t) && t !in h.mro(cls) && sub(cls, t)
  {
    var keys := Keys(registry);
    assert forall i :: 0 <= i < |keys| ==> keys[i] == registry[i].0;
    if t in keys {
      var i :| 0 <= i < |keys| && keys[i] == t;
      assert registry[i].0 == t;
    }
    if i :| 0 <= i < |registry| && registry[i].0 == t { assert keys[i] == t; }
  }

  /** t is registered, and a virtual base of cls outside its method resolution order. */
  ghost predicate VirtualBase(h: Classes, sub: Relation, cls: Cls, registry: Registry, t: Cls) {
    Registered(registry, t) && sub(cls, t) && t !in h.mro(cls)
  }

  /** What is given to _c3_mro are the registered virtual bases that are no base of
      another one. */
  lemma AbcsMembers(h: Classes, v: View, cls: Cls, registry: Registry, x: Cls)
    requires Families(h, v) && Inherits(h)
    ensures var types := WithoutStrictBases(h, Related(h, v.sub, cls, registry));
      x in OrderAbcs(h, v, cls, types, types, []) <==>
        VirtualBase(h, v.sub, cls, registry, x) &&
        !exists t :: VirtualBase(h, v.sub, cls, registry, t) && t != x && x in h.mro(t)
  {
    var related := Related(h, v.sub, cls, registry);
    var types := WithoutStrictBases(h, related);
    OrderMembers(h, v, cls, types, types, [], x);
    forall t ensures t in related <==> VirtualBase(h, v.sub, cls, registry, t) {
      RelatedMembers(h, v.sub, cls, registry, t);
    }
    if t :| VirtualBase(h, v.sub, cls, registry, t) && t != x && x in h.mro(t) {
      var i :| 0 <= i < |related| && related[i] == t;
      assert StrictBase(h, x, related);
    }
    if StrictBase(h, x, related) {
      var i :| 0 <= i < |related| && related[i] != x && x in h.mro(related[i]);
      assert VirtualBase(h, v.sub, cls, registry, related[i]);
    }
  }

  /** The order a class is dispatched along holds exactly what serves it: a registered
      class is in it whenever issubclass says so. */
  lemma ComposedMembers(h: Classes, v: View, cls: Cls, registry: Registry, x: Cls)
    requires Acyclic(h) && Inherits(h) && Families(h, v) && ComposeMro(h, v, cls, registry).Some?
    ensures x in ComposeMro(h, v, cls, registry).value <==> Serves(h, v.sub, cls, registry, x)
  {
    var related := Related(h, v.sub, cls, registry);
    var types := WithoutStrictBases(h, related);
    var abcs, r := OrderAbcs(h, v, cls, types, types, []), ComposeMro(h, v, cls, registry).value;
    if x in r {
      MroHoldsOnly(h, v.sub, cls, abcs, x);
      if x !in h.mro(cls) {
        var i :| 0 <= i < |abcs| && x in h.mro(abcs[i]);
        AbcsMembers(h, v, cls, registry, abcs[i]);
        RelatedMembers(h, v.sub, cls, registry, abcs[i]);
      }
    }
    if x in h.mro(cls) { MroHoldsOwn(h, v.sub, cls, abcs, x); }
    if t :| Registered(registry, t) && v.sub(cls, t) && x in h.mro(t) && x !in h.mro(cls) {
      VirtualInOrder(h, v, cls, registry, t, x);
    }
  }

  lemma VirtualInOrder(h: Classes, v: View, cls: Cls, registry: Registry, t: Cls, x: Cls)
    requires Acyclic(h) && Inherits(h) && Families(h, v) && ComposeMro(h, v, cls, registry).Some?
    requires Registered(registry, t) && v.sub(cls, t) && x in h.mro(t) && x !in h.mro(cls)
    ensures x in ComposeMro(h, v, cls, registry).value
  {
    var related := Related(h, v.sub, cls, registry);
    var types := WithoutStrictBases(h, related);
    if t in h.mro(cls) { MroTransitive(h, cls, t, x); }
    RelatedMembers(h, v.sub, cls, registry, t);
    var top := Topmost(h, related, t);
    MroTransitive(h, top, t, x);
    OrderMembers(h, v, cls, types, types, [], top);
    RelatedMembers(h, v.sub, cls, registry, top);
    MroHoldsAbc(h, v.sub, cls, OrderAbcs(h, v, cls, types, types, []), top, x);
  }

  // ----- how the abstract classes are ordered

  function OfLength(lists: seq<seq<Cls>>, n: nat): seq<seq<Cls>> {
    if lists == [] then [] else (if |lists[0]| == n then [lists[0]] else []) + OfLength(lists[1..], n)
  }

  ghost predicate LongestFirst(lists: seq<seq<Cls>>) {
    forall i, j :: 0 <= i < j < |lists| ==> |lists[i]| >= |lists[j]|
  }

  lemma {:induction false} InsertSorts(s: seq<Cls>, sorted: seq<seq<Cls>>)
    requires LongestFirst(sorted)
    ensures LongestFirst(InsertByLength(s, sorted))
  {
    if sorted != [] && |s| < |sorted[0]| {
      var more := InsertByLength(s, sorted[1..]);
      InsertSorts(s, sorted[1..]);
      forall i | 0 <= i < |more| ensures |sorted[0]| >= |more[i]| {
        InsertMembers(s, sorted[1..], more[i]);
        assert more[i] in more;
      }
      ConsLongest(sorted[0], more);
    }
  }

  lemma ConsLongest(s: seq<Cls>, more: seq<seq<Cls>>)
    requires LongestFirst(more) && forall i :: 0 <= i < |more| ==> |s| >= |more[i]|
    ensures LongestFirst([s] + more)
  {}

  lemma ConsOfLength(s: seq<Cls>, more: seq<seq<Cls>>, n: nat)
    ensures OfLength([s] + more, n) == (if |s| == n then [s] else []) + OfLength(more, n)
  {
    assert ([s] + more)[1..] == more;
  }

  lemma {:induction false} InsertOfLength(s: seq<Cls>, sorted: seq<seq<Cls>>, n: nat)
    ensures OfLength(InsertByLength(s, sorted), n) == (if |s| == n then [s] else []) + OfLength(sorted, n)
  {
    ConsOfLength(s, sorted, n);
    if sorted != [] && |s| < |sorted[0]| {
      ConsOfLength(sorted[0], InsertByLength(s, sorted[1..]), n);
      InsertOfLength(s, sorted[1..], n);
    }
  }

  /** The sort puts longer lists first and keeps the order of lists of one length. */
  lemma {:induction false} SortsStably(found: seq<seq<Cls>>, n: nat)
    ensures LongestFirst(SortByLength(found))
    ensures OfLength(SortByLength(found), n) == OfLength(found, n)
  {
    if found != [] {
      SortsStably(found[1..], n);
      InsertSorts(found[0], SortByLength(found[1..]));
      InsertOfLength(found[0], SortByLength(found[1..]), n);
    }
  }

  function Flatten(lists: seq<seq<Cls>>): seq<Cls> { if lists == [] then [] else lists[0] + Flatten(lists[1..]) }

  /** Where x comes first. */
  function First(s: seq<Cls>, x: Cls): (k: nat)
    ensures k <= |s| && x !in s[..k] && (k < |s| ==> s[k] == x)
  {
    if s == [] || s[0] == x then 0
    else
      var k := First(s[1..], x);
      assert s[..k + 1] == [s[0]] + s[1..][..k];
      k + 1
  }

  lemma {:induction false} AppendNewAppends(mro: seq<Cls>, list: seq<Cls>, more: seq<Cls>)
    ensures AppendNew(mro, list + more) == AppendNew(AppendNew(mro, list), more)
    decreases |list|
  {
    if list == [] {
      assert list + more == more;
    } else {
      assert (list + more)[1..] == list[1..] + more;
      AppendNewAppends(if list[0] in mro then mro else mro + [list[0]], list[1..], more);
    }
  }

  lemma {:induction false} AppendAllFlat(mro: seq<Cls>, lists: seq<seq<Cls>>)
    ensures AppendAllNew(mro, lists) == AppendNew(mro, Flatten(lists))
    decreases |lists|
  {
    if lists != [] {
      AppendNewAppends(mro, lists[0], Flatten(lists[1..]));
      AppendAllFlat(AppendNew(mro, lists[0]), lists[1..]);
    }
  }

  /** r is mro followed by what of the list is not in mro, each class once and in the
      order in which the list first shows them. */
  ghost predicate Appended(mro: seq<Cls>, list: seq<Cls>, r: seq<Cls>) {
    && mro <= r && (forall x :: x in r <==> x in mro || x in list)
    && (forall i :: |mro| <= i < |r| ==> r[i] !in mro)
    && forall i, j :: |mro| <= i < j < |r| ==> First(list, r[i]) < First(list, r[j])
  }

  lemma FirstInTail(list: seq<Cls>, x: Cls)
    requires list != [] && x != list[0]
    ensures First(list, x) == First(list[1..], x) + 1
  {}

  /** Appending what is new appends just that. */
  lemma {:induction false} AppendedNew(mro: seq<Cls>, list: seq<Cls>)
    ensures Appended(mro, list, AppendNew(mro, list))
    decreases |list|
  {
    var r := AppendNew(mro, list);
    if list != [] {
      var c := list[0];
      var mid := if c in mro then mro else mro + [c];
      AppendedNew(mid, list[1..]);
      forall x ensures x in r <==> x in mro || x in list { AppendMembers(mro, list, x); }
      assert forall i :: |mid| <= i < |r| ==> r[i] != c && r[i] !in mid;
      assert mro <= mid <= r;
      forall i | |mid| <= i < |r| ensures First(list, r[i]) == First(list[1..], r[i]) + 1 { FirstInTail(list, r[i]); }
    }
  }

  /** The step of type k. */
  ghost predicate AddedAt(h: Classes, v: View, cls: Cls, list: seq<Cls>, types: seq<Cls>, stages: seq<seq<Cls>>, k: nat)
    requires k < |list| && |stages| == |list| + 1
  {
    stages[k + 1] == AddType(h, v, cls, list[k], types, stages[k])
  }

  /** The abstract classes after the first 0, 1, 2 and so on of the listed types. */
  ghost predicate Staged(h: Classes, v: View, cls: Cls, list: seq<Cls>, types: seq<Cls>, stages: seq<seq<Cls>>) {
    |stages| == |list| + 1 && forall k :: 0 <= k < |list| ==> AddedAt(h, v, cls, list, types, stages, k)
  }

  lemma {:induction false} StagesFrom(h: Classes, v: View, cls: Cls, list: seq<Cls>, types: seq<Cls>, mro: seq<Cls>)
      returns (stages: seq<seq<Cls>>)
    ensures Staged(h, v, cls, list, types, stages) && stages[0] == mro
    ensures stages[|list|] == OrderAbcs(h, v, cls, list, types, mro)
    decreases |list|
  {
    if list == [] {
      stages := [mro];
    } else {
      var next := OrderNext(h, v, cls, list, types, mro);
      var more := StagesFrom(h, v, cls, list[1..], types, next);
      StagesCons(h, v, cls, list, types, mro, more);
      stages := [mro] + more;
    }
  }

  lemma OrderNext(h: Classes, v: View, cls: Cls, list: seq<Cls>, types: seq<Cls>, mro: seq<Cls>)
      returns (next: seq<Cls>)
    requires list != []
    ensures next == AddType(h, v, cls, list[0], types, mro)
    ensures OrderAbcs(h, v, cls, list, types, mro) == OrderAbcs(h, v, cls, list[1..], types, next)
  {
    next := AddType(h, v, cls, list[0], types, mro);
  }

  lemma StagesCons(h: Classes, v: View, cls: Cls, list: seq<Cls>, types: seq<Cls>, mro: seq<Cls>, more: seq<seq<Cls>>)
    requires list != [] && Staged(h, v, cls, list[1..], types, more)
    requires more[0] == AddType(h, v, cls, list[0], types, mro)
    ensures Staged(h, v, cls, list, types, [mro] + more) && ([mro] + more)[|list|] == more[|list| - 1]
  {
    var stages := [mro] + more;
    forall k | 0 <= k < |list| ensures AddedAt(h, v, cls, list, types, stages, k) {
      assert stages[k + 1] == more[k];
      if k > 0 {
        assert AddedAt(h, v, cls, list[1..], types, more, k - 1);
        assert stages[k] == more[k - 1] && list[k] == list[1..][k - 1];
      }
    }
  }

  /** The useful subclasses of a type, each with the types it inherits from, in its
      own order. */
  function Useful(h: Classes, v: View, cls: Cls, t: Cls, types: seq<Cls>): seq<seq<Cls>> {
    FoundSubs(h, v.sub, cls, v.subclasses(t), types)
  }

  /** A type without useful subclasses is put last; otherwise what its useful
      subclasses list is appended, longest list first, lists of one length in the order
      of the subclasses, leaving out what is there. */
  ghost predicate Adds(h: Classes, v: View, cls: Cls, t: Cls, types: seq<Cls>, before: seq<Cls>, after: seq<Cls>,
                       sorted: seq<seq<Cls>>) {
    var found := Useful(h, v, cls, t, types);
    if found == [] then after == before + [t]
    else
      && LongestFirst(sorted) && (forall n: nat :: OfLength(sorted, n) == OfLength(found, n))
      && Appended(before, Flatten(sorted), after)
  }

  lemma TypeAdds(h: Classes, v: View, cls: Cls, t: Cls, types: seq<Cls>, before: seq<Cls>)
      returns (sorted: seq<seq<Cls>>)
    ensures Adds(h, v, cls, t, types, before, AddType(h, v, cls, t, types, before), sorted)
  {
    var found := Useful(h, v, cls, t, types);
    sorted := SortByLength(found);
    forall n: nat { SortsStably(found, n); }
    SortsStably(found, 0);
    AppendAllFlat(before, sorted);
    AppendedNew(before, Flatten(sorted));
  }

  ghost predicate AddsSome(h: Classes, v: View, cls: Cls, t: Cls, types: seq<Cls>, before: seq<Cls>, after: seq<Cls>) {
    exists sorted :: Adds(h, v, cls, t, types, before, after, sorted)
  }

  lemma StageAdds(h: Classes, v: View, cls: Cls, types: seq<Cls>, stages: seq<seq<Cls>>, k: nat)
    requires k < |types| && |stages| == |types| + 1 && AddedAt(h, v, cls, types, types, stages, k)
    ensures AddsSome(h, v, cls, types[k], types, stages[k], stages[k + 1])
  {
    var sorted := TypeAdds(h, v, cls, types[k], types, stages[k]);
  }

  /** The order of the abstract classes is built type by type in this way. */
  lemma OrderBuilt(h: Classes, v: View, cls: Cls, types: seq<Cls>) returns (stages: seq<seq<Cls>>)
    ensures |stages| == |types| + 1 && stages[0] == [] && stages[|types|] == OrderAbcs(h, v, cls, types, types, [])
    ensures forall k :: 0 <= k < |types| ==> AddsSome(h, v, cls, types[k], types, stages[k], stages[k + 1])
  {
    stages := StagesFrom(h, v, cls, types, types, []);
    forall k | 0 <= k < |types| ensures AddsSome(h, v, cls, types[k], types, stages[k], stages[k + 1]) {
      StageAdds(h, v, cls, types, stages, k);
    }
  }

  lemma FirstInjective(list: seq<Cls>, x: Cls, y: Cls)
    requires First(list, x) != First(list, y)
    ensures x != y
  {}

  lemma AppendedOnce(mro: seq<Cls>, list: seq<Cls>, r: seq<Cls>)
    requires Appended(mro, list, r) && NoDuplicates(mro)
    ensures NoDuplicates(r)
  {
    forall i, j | 0 <= i < j < |r| ensures r[i] != r[j] {
      if j < |mro| {
        assert r[i] == mro[i] && r[j] == mro[j];
      } else if i < |mro| {
        assert r[i] == mro[i] && r[i] in mro;
      } else {
        FirstInjective(list, r[i], r[j]);
      }
    }
  }

  /** Type i brings x in. */
  ghost predicate Brings(h: Classes, v: View, cls: Cls, types: seq<Cls>, i: nat, x: Cls) {
    i < |types| && (x == types[i] || InSome(x, Useful(h, v, cls, types[i], types)))
  }

  ghost predicate BroughtBy(h: Classes, v: View, cls: Cls, types: seq<Cls>, k: nat, x: Cls) {
    exists i :: 0 <= i < k && Brings(h, v, cls, types, i, x)
  }

  lemma BroughtNext(h: Classes, v: View, cls: Cls, types: seq<Cls>, k: nat, x: Cls)
    ensures BroughtBy(h, v, cls, types, k + 1, x) <==>
      BroughtBy(h, v, cls, types, k, x) || Brings(h, v, cls, types, k, x)
  {
    if i :| 0 <= i < k + 1 && Brings(h, v, cls, types, i, x) { assert i < k || i == k; }
  }

  lemma TypeMembers(h: Classes, v: View, cls: Cls, types: seq<Cls>, i: nat, before: seq<Cls>, x: Cls)
    requires Families(h, v) && Inherits(h) && i < |types|
    ensures x in AddType(h, v, cls, types[i], types, before) <==> x in before || Brings(h, v, cls, types, i, x)
  {
    var found := Useful(h, v, cls, types[i], types);
    FoundMembers(h, v, cls, types[i], types, x);
    FoundMembers(h, v, cls, types[i], types, types[i]);
    SortInSome(found, x);
    AppendAllMembers(before, SortByLength(found), x);
  }

  lemma {:induction false} StageMembers(h: Classes, v: View, cls: Cls, types: seq<Cls>, stages: seq<seq<Cls>>,
                                        k: nat, x: Cls)
    requires Families(h, v) && Inherits(h) && k <= |types|
    requires Staged(h, v, cls, types, types, stages) && stages[0] == []
    ensures x in stages[k] <==> BroughtBy(h, v, cls, types, k, x)
  {
    if k > 0 {
      StageMembers(h, v, cls, types, stages, k - 1, x);
      assert AddedAt(h, v, cls, types, types, stages, k - 1);
      TypeMembers(h, v, cls, types, k - 1, stages[k - 1], x);
      BroughtNext(h, v, cls, types, k - 1, x);
    }
  }

  /** Type j, which has no useful subclass, is listed under one of an earlier type. */
  ghost predicate Repeated(h: Classes, v: View, cls: Cls, types: seq<Cls>, j: nat)
    requires j < |types|
  {
    && Useful(h, v, cls, types[j], types) == []
    && exists i :: 0 <= i < j && InSome(types[j], Useful(h, v, cls, types[i], types))
  }

  lemma OnceAppend(s: seq<Cls>, c: Cls)
    ensures NoDuplicates(s + [c]) <==> NoDuplicates(s) && c !in s
  {
    if NoDuplicates(s + [c]) {
      forall i, j | 0 <= i < j < |s| ensures s[i] != s[j] { assert (s + [c])[i] != (s + [c])[j]; }
      forall i | 0 <= i < |s| ensures s[i] != c { assert (s + [c])[i] != (s + [c])[|s|]; }
    }
  }

  lemma OncePrefix(s: seq<Cls>, r: seq<Cls>)
    requires s <= r && NoDuplicates(r)
    ensures NoDuplicates(s)
  {
    forall i, j | 0 <= i < j < |s| ensures s[i] != s[j] { assert r[i] != r[j] && s[i] == r[i] && s[j] == r[j]; }
  }

  lemma TypeOnce(h: Classes, v: View, cls: Cls, types: seq<Cls>, stages: seq<seq<Cls>>, k: nat)
    requires Families(h, v) && Inherits(h) && NoDuplicates(types) && k < |types|
    requires Staged(h, v, cls, types, types, stages) && stages[0] == []
    ensures NoDuplicates(stages[k + 1]) <==> NoDuplicates(stages[k]) && !Repeated(h, v, cls, types, k)
  {
    var before, after := stages[k], stages[k + 1];
    assert AddedAt(h, v, cls, types, types, stages, k);
    if Useful(h, v, cls, types[k], types) == [] {
      StageMembers(h, v, cls, types, stages, k, types[k]);
      OnceAppend(before, types[k]);
      BroughtAgain(h, v, cls, types, k);
    } else {
      var sorted := TypeAdds(h, v, cls, types[k], types, before);
      if NoDuplicates(before) { AppendedOnce(before, Flatten(sorted), after); }
      if NoDuplicates(after) { OncePrefix(before, after); }
    }
  }

  /** None of the first k types is. */
  ghost predicate NoRepeats(h: Classes, v: View, cls: Cls, types: seq<Cls>, k: nat)
    requires k <= |types|
  {
    k == 0 || (NoRepeats(h, v, cls, types, k - 1) && !Repeated(h, v, cls, types, k - 1))
  }

  lemma {:induction false} StageOnce(h: Classes, v: View, cls: Cls, types: seq<Cls>, stages: seq<seq<Cls>>, k: nat)
    requires Families(h, v) && Inherits(h) && NoDuplicates(types) && k <= |types|
    requires Staged(h, v, cls, types, types, stages) && stages[0] == []
    ensures NoDuplicates(stages[k]) <==> NoRepeats(h, v, cls, types, k)
  {
    if k > 0 {
      StageOnce(h, v, cls, types, stages, k - 1);
      TypeOnce(h, v, cls, types, stages, k - 1);
    }
  }

  lemma BroughtAgain(h: Classes, v: View, cls: Cls, types: seq<Cls>, j: nat)
    requires NoDuplicates(types) && j < |types| && Useful(h, v, cls, types[j], types) == []
    ensures BroughtBy(h, v, cls, types, j, types[j]) <==> Repeated(h, v, cls, types, j)
  {
    if i :| 0 <= i < j && Brings(h, v, cls, types, i, types[j]) { assert types[i] != types[j]; }
    if i :| 0 <= i < j && InSome(types[j], Useful(h, v, cls, types[i], types)) {
      assert Brings(h, v, cls, types, i, types[j]);
    }
  }

  /** The abstract classes are listed once each exactly when no type without useful
      subclasses is listed under an earlier type's. */
  lemma OrderedOnce(h: Classes, v: View, cls: Cls, types: seq<Cls>)
    requires Families(h, v) && Inherits(h) && NoDuplicates(types)
    ensures NoDuplicates(OrderAbcs(h, v, cls, types, types, [])) <==> NoRepeats(h, v, cls, types, |types|)
  {
    var stages := StagesFrom(h, v, cls, types, types, []);
    StageOnce(h, v, cls, types, stages, |types|);
  }

  ghost predicate Twice(s: seq<Cls>, x: Cls) { exists i, j :: 0 <= i < j < |s| && s[i] == x == s[j] }

  lemma ConsTwice(c: Cls, s: seq<Cls>, x: Cls)
    ensures Twice([c] + s, x) <==> Twice(s, x) || (c == x && x in s)
  {
    var r := [c] + s;
    if i, j :| 0 <= i < j < |r| && r[i] == x == r[j] { assert s[j - 1] == x && (i > 0 ==> s[i - 1] == x); }
    if i, j :| 0 <= i < j < |s| && s[i] == x == s[j] { assert r[i + 1] == x == r[j + 1]; }
    if c == x && x in s {
      var j :| 0 <= j < |s| && s[j] == x;
      assert r[0] == x == r[j + 1];
    }
  }

  lemma {:induction false} FilterTwice(s: seq<Cls>, p: Cls -> bool, x: Cls)
    requires p(x)
    ensures Twice(s, x) <==> Twice(Filter(s, p), x)
  {
    if s != [] {
      FilterTwice(s[1..], p, x);
      assert s == [s[0]] + s[1..];
      ConsTwice(s[0], s[1..], x);
      ConsTwice(s[0], Filter(s[1..], p), x);
      assert [] + Filter(s[1..], p) == Filter(s[1..], p);
    }
  }

  lemma {:induction false} SubsequenceTwice(s: seq<Cls>, r: seq<Cls>, x: Cls)
    requires Subsequence(s, r) && Twice(s, x)
    ensures Twice(r, x)
    decreases |r|
  {
    assert s == [s[0]] + s[1..] && r == [r[0]] + r[1..];
    ConsTwice(r[0], r[1..], x);
    if s[0] == r[0] {
      ConsTwice(s[0], s[1..], x);
      if Twice(s[1..], x) { SubsequenceTwice(s[1..], r[1..], x); } else { SubsequenceMembers(s[1..], r[1..], x); }
    } else {
      SubsequenceTwice(s, r[1..], x);
    }
  }

  /** An abstract class that cls implements is given twice to no successful merge. */
  lemma {:induction false} GivenOnce(h: Classes, sub: Relation, cls: Cls, abcs: seq<Cls>, t: Cls)
    requires Acyclic(h) && C3Mro(h, sub, cls, abcs).Some? && sub(cls, t) && Twice(abcs, t)
    ensures false
    decreases |abcs|, h.rank(cls)
  {
    if Introduces(h, sub, cls, t) {
      MroSound(h, sub, cls, abcs);
      FilterTwice(abcs, (c: Cls) => Introduces(h, sub, cls, c), t);
      SubsequenceTwice(Introduced(h, sub, cls, abcs), C3Mro(h, sub, cls, abcs).value, t);
    } else {
      var i := InheritedFrom(h, sub, cls, t);
      var m, a := MroParts(h, sub, cls, abcs);
      FilterTwice(abcs, (c: Cls) => !Introduces(h, sub, cls, c), t);
      GivenOnce(h, sub, h.bases(cls)[i], NotIntroduced(h, sub, cls, abcs), t);
    }
  }

  lemma {:induction false} FilterOnce(s: seq<Cls>, p: Cls -> bool)
    requires NoDuplicates(s)
    ensures NoDuplicates(Filter(s, p))
  {
    if s != [] {
      assert forall i :: 0 < i < |s| ==> s[i] != s[0] && s[1..][i - 1] == s[i];
      assert NoDuplicates(s[1..]) && s[0] !in s[1..];
      FilterOnce(s[1..], p);
      ConsOnce(s[0], Filter(s[1..], p));
    }
  }

  lemma ConsOnce(c: Cls, s: seq<Cls>)
    requires NoDuplicates(s) && c !in s
    ensures NoDuplicates([c] + s) && [] + s == s
  {}

  /** If one is, no order is found and the lookup raises: with distinct registered
      classes, an order is found only when the abstract classes are listed once each. */
  lemma RepeatRefused(h: Classes, v: View, cls: Cls, registry: Registry)
    requires Acyclic(h) && Inherits(h) && Families(h, v) && NoDuplicates(Keys(registry))
    requires ComposeMro(h, v, cls, registry).Some?
    ensures var types := WithoutStrictBases(h, Related(h, v.sub, cls, registry));
      NoDuplicates(types) && NoRepeats(h, v, cls, types, |types|)
  {
    var related := Related(h, v.sub, cls, registry);
    var types := WithoutStrictBases(h, related);
    var abcs := OrderAbcs(h, v, cls, types, types, []);
    FilterOnce(Keys(registry), (t: Cls) => t !in h.mro(cls) && v.sub(cls, t));
    FilterOnce(related, (t: Cls) => !StrictBase(h, t, related));
    forall i, j | 0 <= i < j < |abcs| ensures abcs[i] != abcs[j] {
      OrderMembers(h, v, cls, types, types, [], abcs[i]);
      if Twice(abcs, abcs[i]) { GivenOnce(h, v.sub, cls, abcs, abcs[i]); }
    }
    OrderedOnce(h, v, cls, types);
  }

  // ----- _find_impl

  /** Place i of the order holds its first registered class. */
  ghost predicate FirstRegistered(registry: Registry, r: seq<Cls>, i: nat) {
    i < |r| && Registered(registry, r[i]) && forall j :: 0 <= j < i ==> !Registered(registry, r[j])
  }

  /** The class after it is registered too, neither is in the own order of cls, and
      the first is no subclass of the second. */
  ghost predicate Ambiguous(h: Classes, sub: Relation, cls: Cls, registry: Registry, r: seq<Cls>, i: nat) {
    && FirstRegistered(registry, r, i) && i + 1 < |r| && Registered(registry, r[i + 1])
    && r[i] !in h.mro(cls) && r[i + 1] !in h.mro(cls) && !sub(r[i], r[i + 1])
  }

  lemma {:induction false} MatchExact(h: Classes, sub: Relation, cls: Cls, registry: Registry, r: seq<Cls>)
    ensures Match(h, sub, cls, registry, r) == RuntimeError <==> exists i: nat :: Ambiguous(h, sub, cls, registry, r, i)
    ensures Match(h, sub, cls, registry, r) == Ok(None) <==> forall c :: c in r ==> !Registered(registry, c)
    ensures forall t :: Match(h, sub, cls, registry, r) == Ok(Some(t)) <==>
      exists i: nat :: FirstRegistered(registry, r, i) && r[i] == t && !Ambiguous(h, sub, cls, registry, r, i)
  {
    if i: nat :| FirstRegistered(registry, r, i) {
      MatchAt(h, sub, cls, registry, r, i);
      OneFirst(h, sub, cls, registry, r, i);
    } else {
      NoneRegistered(h, sub, cls, registry, r);
    }
  }

  lemma {:induction false} MatchAt(h: Classes, sub: Relation, cls: Cls, registry: Registry, r: seq<Cls>, i: nat)
    requires FirstRegistered(registry, r, i)
    ensures Match(h, sub, cls, registry, r) ==
      if Ambiguous(h, sub, cls, registry, r, i) then RuntimeError else Ok(Some(r[i]))
  {
    if i > 0 {
      assert FirstRegistered(registry, r[1..], i - 1);
      MatchAt(h, sub, cls, registry, r[1..], i - 1);
    }
  }

  lemma OneFirst(h: Classes, sub: Relation, cls: Cls, registry: Registry, r: seq<Cls>, i: nat)
    requires FirstRegistered(registry, r, i)
    ensures r[i] in r && forall j: nat :: FirstRegistered(registry, r, j) ==> j == i
  {}

  lemma {:induction false} NoneRegistered(h: Classes, sub: Relation, cls: Cls, registry: Registry, r: seq<Cls>)
    requires forall i: nat :: !FirstRegistered(registry, r, i)
    ensures Match(h, sub, cls, registry, r) == Ok(None) && forall c :: c in r ==> !Registered(registry, c)
  {
    if r != [] {
      assert !FirstRegistered(registry, r, 0);
      forall i: nat ensures !FirstRegistered(registry, r[1..], i) {
        assert !FirstRegistered(registry, r, i + 1);
      }
      NoneRegistered(h, sub, cls, registry, r[1..]);
      assert r == [r[0]] + r[1..];
    }
  }

  /** The first entry for c maps it to f. */
  ghost predicate Entry(registry: Registry, c: Cls, f: Impl) {
    exists e :: 0 <= e < |registry| && registry[e] == (c, f) && forall j :: 0 <= j < e ==> registry[j].0 != c
  }

  lemma {:induction false} FindExact(registry: Registry, c: Cls, f: Impl)
    ensures Find(registry, c) == Some(f) <==> Entry(registry, c, f)
    ensures Find(registry, c).None? <==> !Registered(registry, c)
  {
    if registry != [] && registry[0].0 != c {
      var more := registry[1..];
      FindExact(more, c, f);
      if e :| 0 <= e < |more| && more[e] == (c, f) && forall j :: 0 <= j < e ==> more[j].0 != c {
        assert registry[e + 1] == (c, f);
      }
      if e :| 0 <= e < |registry| && registry[e] == (c, f) && forall j :: 0 <= j < e ==> registry[j].0 != c {
        assert more[e - 1] == (c, f);
      }
      if i :| 0 <= i < |more| && more[i].0 == c { assert registry[i + 1].0 == c; }
      if i :| 0 <= i < |registry| && registry[i].0 == c { assert more[i - 1].0 == c; }
    } else if registry != [] {
      assert Registered(registry, c);
      if f == registry[0].1 { assert registry[0] == (c, f); }
    }
  }

  /** f is registered for the first registered class of the order, which is no case
      of doubt. */
  ghost predicate FoundAlong(h: Classes, sub: Relation, cls: Cls, registry: Registry, r: seq<Cls>, f: Impl) {
    exists i: nat ::
      FirstRegistered(registry, r, i) && !Ambiguous(h, sub, cls, registry, r, i) && Entry(registry, r[i], f)
  }

  /** What is found along an order. */
  lemma BestExact(h: Classes, sub: Relation, cls: Cls, registry: Registry, r: seq<Cls>, f: Impl)
    ensures Best(h, sub, cls, registry, Some(r)) == RuntimeError <==>
      exists i: nat :: Ambiguous(h, sub, cls, registry, r, i)
    ensures Best(h, sub, cls, registry, Some(r)) == Ok(Some(f)) <==> FoundAlong(h, sub, cls, registry, r, f)
    ensures Best(h, sub, cls, registry, Some(r)) == Ok(None) <==> forall c :: c in r ==> !Registered(registry, c)
  {
    MatchExact(h, sub, cls, registry, r);
    if i: nat :| FirstRegistered(registry, r, i) {
      MatchAt(h, sub, cls, registry, r, i);
      OneFirst(h, sub, cls, registry, r, i);
      FindExact(registry, r[i], f);
    }
  }

  /** The lookup without the cache: the implementation registered for the class
      itself, or else what is found along its order; RuntimeError exactly when there is
      no order or a case of doubt in it. */
  lemma LookupExact(h: Classes, v: View, cls: Cls, registry: Registry, f: Impl)
    requires Acyclic(h)
    ensures Registered(registry, cls) ==> (Lookup(h, v, cls, registry) == Ok(Some(f)) <==> Entry(registry, cls, f))
    ensures !Registered(registry, cls) ==> match ComposeMro(h, v, cls, registry)
      case None => Lookup(h, v, cls, registry) == RuntimeError
      case Some(r) =>
        && (Lookup(h, v, cls, registry) == RuntimeError <==> exists i: nat :: Ambiguous(h, v.sub, cls, registry, r, i))
        && (Lookup(h, v, cls, registry) == Ok(Some(f)) <==> FoundAlong(h, v.sub, cls, registry, r, f))
        && (Lookup(h, v, cls, registry) == Ok(None) <==> forall c :: c in r ==> !Registered(registry, c))
  {
    FindExact(registry, cls, f);
    match ComposeMro(h, v, cls, registry)
    case None =>
    case Some(r) => BestExact(h, v.sub, cls, registry, r, f);
  }

  /** With an implementation for an ancestor of the class, as there is one for the
      root class, a lookup never comes back with nothing. */
  lemma RootFound(h: Classes, v: View, cls: Cls, registry: Registry, root: Cls)
    requires Acyclic(h) && Inherits(h) && Registered(registry, root) && root in h.mro(cls)
    ensures Lookup(h, v, cls, registry) != Ok(None)
  {
    FindExact(registry, cls, 0);
    var types := WithoutStrictBases(h, Related(h, v.sub, cls, registry));
    match ComposeMro(h, v, cls, registry)
    case None =>
    case Some(r) =>
      MroHoldsOwn(h, v.sub, cls, OrderAbcs(h, v, cls, types, types, []), root);
      BestExact(h, v.sub, cls, registry, r, 0);
  }
}
