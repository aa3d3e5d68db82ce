/** Which of the linear extensions the C3 merge returns: in every round the head of
    the earliest list that has a head appearing in no tail. */
module C3Order {
  import opened Wrappers
  import opened C3

  /** s without the elements of `gone`. */
  function Kept<T(==)>(s: seq<T>, gone: seq<T>): seq<T> {
    if s == [] then [] else (if s[0] in gone then [] else [s[0]]) + Kept(s[1..], gone)
  }

  /** What is left of the lists, in their order, when some elements are gone. */
  function Rest<T(==)>(seqs: seq<seq<T>>, gone: seq<T>): seq<seq<T>> {
    if seqs == [] then []
    else (if Kept(seqs[0], gone) == [] then [] else [Kept(seqs[0], gone)]) + Rest(seqs[1..], gone)
  }

  /** List i is headed by c, which appears in no tail, and the heads of all earlier
      lists appear in one. */
  ghost predicate HeadsFirst<T>(lists: seq<seq<T>>, c: T, i: nat) {
    && i < |lists| && (forall j :: 0 <= j < |lists| ==> lists[j] != [])
    && lists[i][0] == c && !InATail(c, lists)
    && forall j :: 0 <= j < i ==> InATail(lists[j][0], lists)
  }

  ghost predicate EarliestGood<T>(lists: seq<seq<T>>, c: T) { exists i :: HeadsFirst(lists, c, i) }

  /** Each element of r is the earliest good head of what the ones before it leave,
      and r leaves nothing. */
  ghost predicate Chosen<T>(r: seq<T>, seqs: seq<seq<T>>) {
    Rest(seqs, r) == [] && forall k :: 0 <= k < |r| ==> EarliestGood(Rest(seqs, r[..k]), r[k])
  }

  // ----- the merge chooses so

  lemma {:induction false} KeptAll<T>(s: seq<T>)
    ensures Kept(s, []) == s
  {
    if s != [] {
      KeptAll(s[1..]);
      assert s == [s[0]] + s[1..];
    }
  }

  lemma {:induction false} RestAll<T>(seqs: seq<seq<T>>)
    ensures Rest(seqs, []) == Purge(seqs)
  {
    if seqs != [] {
      KeptAll(seqs[0]);
      RestAll(seqs[1..]);
    }
  }

  lemma {:induction false} KeptWithout<T>(s: seq<T>, c: T, gone: seq<T>)
    requires c !in s
    ensures Kept(s, [c] + gone) == Kept(s, gone)
  {
    if s != [] { KeptWithout(s[1..], c, gone); }
  }

  /** A head removed by hand or by being gone. */
  lemma KeptAfter<T>(s: seq<T>, c: T, gone: seq<T>)
    requires s != [] && c !in s[1..]
    ensures Kept(s, [c] + gone) == Kept(if s[0] == c then s[1..] else s, gone)
  {
    KeptWithout(s[1..], c, gone);
  }

  lemma {:induction false} RestAfter<T(!new)>(seqs: seq<seq<T>>, c: T, gone: seq<T>)
    requires forall i :: 0 <= i < |seqs| && seqs[i] != [] ==> c !in seqs[i][1..]
    ensures Rest(DropHead(Purge(seqs), c), gone) == Rest(seqs, [c] + gone)
  {
    if seqs != [] {
      var s, more := seqs[0], seqs[1..];
      RestAfter(more, c, gone);
      if s == [] {
        assert Purge(seqs) == Purge(more) && Kept(s, [c] + gone) == [];
      } else {
        KeptAfter(s, c, gone);
        DropFirst(s, Purge(more), c, gone);
        assert Purge(seqs) == [s] + Purge(more);
      }
    }
  }

  lemma DropFirst<T>(s: seq<T>, more: seq<seq<T>>, c: T, gone: seq<T>)
    requires s != []
    ensures var t := if s[0] == c then s[1..] else s;
      Rest(DropHead([s] + more, c), gone) ==
        (if Kept(t, gone) == [] then [] else [Kept(t, gone)]) + Rest(DropHead(more, c), gone)
  {
    var t := if s[0] == c then s[1..] else s;
    assert ([s] + more)[1..] == more;
    assert DropHead([s] + more, c) == [t] + DropHead(more, c);
    assert ([t] + DropHead(more, c))[1..] == DropHead(more, c);
  }

  lemma {:induction false} PurgedTails<T(!new)>(seqs: seq<seq<T>>, c: T)
    requires forall s :: s in Purge(seqs) ==> s != [] && c !in s[1..]
    ensures forall i :: 0 <= i < |seqs| && seqs[i] != [] ==> c !in seqs[i][1..]
  {
    if seqs != [] {
      var first, more := seqs[0], Purge(seqs[1..]);
      assert Purge(seqs) == (if first == [] then [] else [first]) + more;
      assert first != [] ==> first in Purge(seqs);
      assert forall s :: s in more ==> s in Purge(seqs);
      PurgedTails(seqs[1..], c);
      assert forall i :: 0 < i < |seqs| ==> seqs[i] == seqs[1..][i - 1];
    }
  }

  lemma NoTail<T(!new)>(p: seq<seq<T>>, c: T)
    requires !InATail(c, p) && forall i :: 0 <= i < |p| ==> p[i] != []
    ensures forall s :: s in p ==> s != [] && c !in s[1..]
  {
    forall s | s in p ensures c !in s[1..] {
      var i :| 0 <= i < |p| && p[i] == s;
      assert |p[i]| > 0;
    }
  }

  lemma FirstRound<T(!new)>(seqs: seq<seq<T>>, c: T)
    requires (forall i :: 0 <= i < |Purge(seqs)| ==> Purge(seqs)[i] != []) && CandidateFrom(Purge(seqs), 0) == Some(c)
    ensures EarliestGood(Rest(seqs, []), c)
  {
    RestAll(seqs);
    var p := Purge(seqs);
    var i :| 0 <= i < |p| && p[i][0] == c && forall j :: 0 <= j < i ==> InATail(p[j][0], p);
    assert HeadsFirst(p, c, i);
  }

  /** The merge returns the order so chosen. */
  lemma {:induction false} MergeChooses<T(!new)>(seqs: seq<seq<T>>, truthy: T -> bool)
    requires Merge(seqs, truthy).Some?
    ensures Chosen(Merge(seqs, truthy).value, seqs)
    decreases TotalLength(seqs)
  {
    RestAll(seqs);
    if Purge(seqs) != [] {
      var p, c, rest := MergeRound(seqs, truthy);
      MergeChooses(DropHead(p, c), truthy);
      FirstRound(seqs, c);
      NoTail(p, c);
      PurgedTails(seqs, c);
      ChosenFirst(seqs, c, rest);
    }
  }

  lemma ChosenFirst<T(!new)>(seqs: seq<seq<T>>, c: T, rest: seq<T>)
    requires EarliestGood(Rest(seqs, []), c) && Chosen(rest, DropHead(Purge(seqs), c))
    requires forall i :: 0 <= i < |seqs| && seqs[i] != [] ==> c !in seqs[i][1..]
    ensures Chosen([c] + rest, seqs)
  {
    var r := [c] + rest;
    RestAfter(seqs, c, rest);
    forall k | 0 <= k < |r| ensures EarliestGood(Rest(seqs, r[..k]), r[k]) {
      if k == 0 {
        assert r[..k] == [];
      } else {
        RestAfter(seqs, c, rest[..k - 1]);
        ShiftedPrefix(c, rest, r, k);
      }
    }
  }

  lemma ShiftedPrefix<T>(c: T, rest: seq<T>, r: seq<T>, k: nat)
    requires r == [c] + rest && 0 < k < |r|
    ensures r[..k] == [c] + rest[..k - 1] && r[k] == rest[k - 1]
  {}

  // ----- and there is only one

  lemma OneEarliest<T>(lists: seq<seq<T>>, c: T, d: T)
    requires EarliestGood(lists, c) && EarliestGood(lists, d)
    ensures c == d
  {
    var i: nat :| HeadsFirst(lists, c, i);
    var j: nat :| HeadsFirst(lists, d, j);
    assert i < j ==> InATail(c, lists);
    assert j < i ==> InATail(d, lists);
  }

  /** The search finds the earliest good head. */
  lemma GoodIsCandidate<T(!new)>(lists: seq<seq<T>>, c: T)
    requires (forall i :: 0 <= i < |lists| ==> lists[i] != []) && EarliestGood(lists, c)
    ensures CandidateFrom(lists, 0) == Some(c)
  {
    var found := CandidateFrom(lists, 0);
    var i: nat :| HeadsFirst(lists, c, i);
    assert found.Some?;
    var k :| 0 <= k < |lists| && lists[k][0] == found.value && forall j :: 0 <= j < k ==> InATail(lists[j][0], lists);
    assert HeadsFirst(lists, found.value, k);
    OneEarliest(lists, c, found.value);
  }

  lemma ChosenRest<T(!new)>(seqs: seq<seq<T>>, c: T, rest: seq<T>, left: seq<seq<T>>)
    requires Chosen([c] + rest, seqs) && left == DropHead(Purge(seqs), c)
    requires forall i :: 0 <= i < |seqs| && seqs[i] != [] ==> c !in seqs[i][1..]
    ensures Chosen(rest, left)
  {
    var r := [c] + rest;
    RestAfter(seqs, c, rest);
    forall k | 0 <= k < |rest| ensures EarliestGood(Rest(left, rest[..k]), rest[k]) {
      var before := rest[..k];
      RestAfter(seqs, c, before);
      ShiftedPrefix(c, rest, r, k + 1);
    }
  }

  /** The first round of an order so chosen. */
  lemma ChosenRound<T(!new)>(seqs: seq<seq<T>>, c: T, rest: seq<T>, p: seq<seq<T>>)
    requires Chosen([c] + rest, seqs) && p == Purge(seqs)
    ensures p != [] && (forall i :: 0 <= i < |p| ==> p[i] != []) && CandidateFrom(p, 0) == Some(c)
    ensures Chosen(rest, DropHead(p, c))
  {
    RestAll(seqs);
    RoundShrinks(seqs);
    var r := [c] + rest;
    assert r[..0] == [] && r[0] == c;
    assert EarliestGood(Rest(seqs, r[..0]), r[0]);
    GoodIsCandidate(p, c);
    NoTail(p, c);
    PurgedTails(seqs, c);
    ChosenRest(seqs, c, rest, DropHead(p, c));
  }

  lemma TrueTail<T>(r: seq<T>, truthy: T -> bool)
    requires AllTrue(r, truthy) && r != []
    ensures r == [r[0]] + r[1..] && truthy(r[0]) && AllTrue(r[1..], truthy)
  {}

  lemma MergeUnfolds<T(!new)>(seqs: seq<seq<T>>, truthy: T -> bool, p: seq<seq<T>>, c: T, rest: seq<T>)
    requires p == Purge(seqs) && p != [] && forall i :: 0 <= i < |p| ==> p[i] != []
    requires CandidateFrom(p, 0) == Some(c) && truthy(c) && Merge(DropHead(p, c), truthy) == Some(rest)
    ensures Merge(seqs, truthy) == Some([c] + rest)
  {}

  lemma {:induction false} ChosenMerges<T(!new)>(seqs: seq<seq<T>>, truthy: T -> bool, r: seq<T>)
    requires Chosen(r, seqs) && AllTrue(r, truthy)
    ensures Merge(seqs, truthy) == Some(r)
    decreases |r|
  {
    if r == [] {
      RestAll(seqs);
    } else {
      var p, c, rest := Purge(seqs), r[0], r[1..];
      TrueTail(r, truthy);
      ChosenRound(seqs, c, rest, p);
      ChosenMerges(DropHead(p, c), truthy, rest);
      MergeUnfolds(seqs, truthy, p, c, rest);
    }
  }

  /** Only one order is chosen so. */
  lemma ChosenUnique<T(!new)>(r: seq<T>, s: seq<T>, seqs: seq<seq<T>>)
    requires Chosen(r, seqs) && Chosen(s, seqs)
    ensures r == s
  {
    ChosenMerges(seqs, _ => true, r);
    ChosenMerges(seqs, _ => true, s);
  }

  /** The merge returns r exactly when r is chosen so and all of it counts as true. */
  lemma MergeIsChosen<T(!new)>(seqs: seq<seq<T>>, truthy: T -> bool, r: seq<T>)
    ensures Merge(seqs, truthy) == Some(r) <==> Chosen(r, seqs) && AllTrue(r, truthy)
  {
    if Merge(seqs, truthy) == Some(r) {
      MergeChooses(seqs, truthy);
      MergeTrue(seqs, truthy);
    }
    if Chosen(r, seqs) && AllTrue(r, truthy) { ChosenMerges(seqs, truthy, r); }
  }
}
