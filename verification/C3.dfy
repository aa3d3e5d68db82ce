/** C3 linearisation: the merge of ordered lists, and the method resolution
    order extended by abstract base classes. */
module C3 {
  import opened Wrappers

  // ----- what a merge is for

  ghost predicate NoDuplicates<T(!new)>(s: seq<T>) {
    forall i, j :: 0 <= i < j < |s| ==> s[i] != s[j]
  }

  /** s can be obtained from r by leaving elements out. */
  predicate Subsequence<T(==)>(s: seq<T>, r: seq<T>)
    decreases |r|
  {
    s == [] || (r != [] && if s[0] == r[0] then Subsequence(s[1..], r[1..]) else Subsequence(s, r[1..]))
  }

  ghost predicate InSome<T>(x: T, seqs: seq<seq<T>>) {
    exists i :: 0 <= i < |seqs| && x in seqs[i]
  }

  /** A total order of all the elements that agrees with every list. */
  ghost predicate LinearExtension<T(!new)>(r: seq<T>, seqs: seq<seq<T>>) {
    && NoDuplicates(r)
    && (forall x :: x in r <==> InSome(x, seqs))
    && (forall i :: 0 <= i < |seqs| ==> Subsequence(seqs[i], r))
  }

  // ----- _c3_merge

  function Purge<T>(seqs: seq<seq<T>>): seq<seq<T>> {
    if seqs == [] then [] else (if seqs[0] == [] then [] else [seqs[0]]) + Purge(seqs[1..])
  }

  /** x appears later than the head of some list. */
  predicate InATail<T(==)>(x: T, seqs: seq<seq<T>>) {
    exists i :: 0 <= i < |seqs| && |seqs[i]| > 0 && x in seqs[i][1..]
  }

  /** The first head, from list k on, that appears in no tail. */
  function CandidateFrom<T(==)>(seqs: seq<seq<T>>, k: nat): (c: Option<T>)
    requires k <= |seqs| && forall i :: 0 <= i < |seqs| ==> seqs[i] != []
    ensures c.Some? ==> !InATail(c.value, seqs) && exists i ::
      k <= i < |seqs| && seqs[i][0] == c.value && forall j :: k <= j < i ==> InATail(seqs[j][0], seqs)
    ensures c.None? ==> forall i :: k <= i < |seqs| ==> InATail(seqs[i][0], seqs)
    decreases |seqs| - k
  {
    if k == |seqs| then None
    else if !InATail(seqs[k][0], seqs) then Some(seqs[k][0])
    else CandidateFrom(seqs, k + 1)
  }

  /** The lists with the chosen element removed from every head. */
  function DropHead<T(==)>(seqs: seq<seq<T>>, c: T): (r: seq<seq<T>>)
    ensures |r| == |seqs|
    ensures forall i :: 0 <= i < |r| ==> r[i] == if seqs[i] != [] && seqs[i][0] == c then seqs[i][1..] else seqs[i]
  {
    if seqs == [] then []
    else [if seqs[0] != [] && seqs[0][0] == c then seqs[0][1..] else seqs[0]] + DropHead(seqs[1..], c)
  }

  function TotalLength<T>(seqs: seq<seq<T>>): nat {
    if seqs == [] then 0 else |seqs[0]| + TotalLength(seqs[1..])
  }

  lemma {:induction false} PurgeKeeps<T(!new)>(seqs: seq<seq<T>>)
    ensures TotalLength(Purge(seqs)) == TotalLength(seqs)
    ensures forall i :: 0 <= i < |Purge(seqs)| ==> Purge(seqs)[i] != []
    ensures forall s :: s in Purge(seqs) <==> s in seqs && s != []
  {
    if seqs != [] {
      PurgeKeeps(seqs[1..]);
      var rest := Purge(seqs[1..]);
      assert seqs == [seqs[0]] + seqs[1..];
      assert [] + rest == rest && ([seqs[0]] + rest)[1..] == rest;
    }
  }

  lemma {:induction false} DropShrinks<T>(seqs: seq<seq<T>>, c: T, i: nat)
    requires i < |seqs| && seqs[i] != [] && seqs[i][0] == c
    ensures TotalLength(DropHead(seqs, c)) < TotalLength(seqs)
  {
    DropNeverGrows(seqs[1..], c);
    if i > 0 { DropShrinks(seqs[1..], c, i - 1); }
  }

  lemma {:induction false} DropNeverGrows<T>(seqs: seq<seq<T>>, c: T)
    ensures TotalLength(DropHead(seqs, c)) <= TotalLength(seqs)
  {
    if seqs != [] { DropNeverGrows(seqs[1..], c); }
  }

  /** One round: the candidate and the lists left after it. */
  lemma RoundShrinks<T(!new)>(seqs: seq<seq<T>>)
    ensures forall i :: 0 <= i < |Purge(seqs)| ==> Purge(seqs)[i] != []
    ensures var c := CandidateFrom(Purge(seqs), 0);
            c.Some? ==> TotalLength(DropHead(Purge(seqs), c.value)) < TotalLength(seqs)
  {
    PurgeKeeps(seqs);
    var p := Purge(seqs);
    var c := CandidateFrom(p, 0);
    if c.Some? {
      var i :| 0 <= i < |p| && p[i][0] == c.value;
      DropShrinks(p, c.value, i);
    }
  }

  /** None stands for the RuntimeError of an inconsistent hierarchy, which is also
      raised for a candidate that counts as false. */
  function Merge<T(==, !new)>(seqs: seq<seq<T>>, truthy: T -> bool): Option<seq<T>>
    decreases TotalLength(seqs)
  {
    RoundShrinks(seqs);
    var p := Purge(seqs);
    if p == [] then Some([])
    else
      match CandidateFrom(p, 0)
      case None => None
      case Some(c) =>
        if !truthy(c) then None
        else
          match Merge(DropHead(p, c), truthy)
          case None => None
          case Some(rest) => Some([c] + rest)
  }

  /** Whether x appears later in some list: the inner loop of the search. */
  method AppearsLater<T(==)>(seqs: seq<seq<T>>, x: T) returns (later: bool)
    requires forall i :: 0 <= i < |seqs| ==> seqs[i] != []
    ensures later == InATail(x, seqs)
  {
    for i := 0 to |seqs|
      invariant forall j :: 0 <= j < i ==> x !in seqs[j][1..]
    {
      if x in seqs[i][1..] { return true; }
    }
    return false;
  }

  /** The search for a candidate among the heads. */
  method FindCandidate<T(==, !new)>(seqs: seq<seq<T>>) returns (candidate: Option<T>)
    requires forall i :: 0 <= i < |seqs| ==> seqs[i] != []
    ensures candidate == CandidateFrom(seqs, 0)
  {
    for k := 0 to |seqs|
      invariant CandidateFrom(seqs, 0) == CandidateFrom(seqs, k)
    {
      var later := AppearsLater(seqs, seqs[k][0]);
      if !later { return Some(seqs[k][0]); }
    }
    return None;
  }

  /** The removal of the chosen candidate from the heads. */
  method RemoveHeads<T(==)>(seqs: seq<seq<T>>, c: T) returns (r: seq<seq<T>>)
    requires forall i :: 0 <= i < |seqs| ==> seqs[i] != []
    ensures r == DropHead(seqs, c)
  {
    r := [];
    ghost var dropped := DropHead(seqs, c);
    for i := 0 to |seqs|
      invariant r == dropped[..i]
    {
      var s := seqs[i];
      if s[0] == c { s := s[1..]; }
      PrefixStep(dropped, i, s);
      r := r + [s];
    }
  }

  lemma PrefixStep<T>(s: seq<T>, i: nat, x: T)
    requires i < |s| && s[i] == x
    ensures s[..i + 1] == s[..i] + [x]
  {}

  /** _c3_merge. */
  method C3Merge<T(==, !new)>(sequences: seq<seq<T>>, truthy: T -> bool) returns (r: Option<seq<T>>)
    ensures r == Merge(sequences, truthy)
  {
    var seqs, result := sequences, [];
    assert forall rest: seq<T> :: [] + rest == rest;
    while true
      invariant Merge(sequences, truthy) ==
        match Merge(seqs, truthy) case None => None case Some(rest) => Some(result + rest)
      decreases TotalLength(seqs)
    {
      RoundShrinks(seqs);
      var purged := Purge(seqs);
      if purged == [] {
        assert result + [] == result;
        return Some(result);
      }
      var candidate := FindCandidate(purged);
      if candidate.None? || !truthy(candidate.value) { return None; }
      seqs := RemoveHeads(purged, candidate.value);
      assert forall rest :: result + ([candidate.value] + rest) == result + [candidate.value] + rest;
      result := result + [candidate.value];
    }
  }

  // ----- soundness and completeness

  lemma {:induction false} SubsequenceMembers<T>(s: seq<T>, r: seq<T>, x: T)
    requires Subsequence(s, r) && x in s
    ensures x in r
    decreases |r|
  {
    if s[0] == r[0] {
      if x != s[0] { SubsequenceMembers(s[1..], r[1..], x); }
    } else {
      SubsequenceMembers(s, r[1..], x);
    }
  }

  lemma {:induction false} SubsequenceTail<T>(s: seq<T>, r: seq<T>)
    requires s != [] && Subsequence(s, r)
    ensures Subsequence(s[1..], r)
    decreases |r|, 1
  {
    if s[0] == r[0] {
      Weaken(s[1..], r);
    } else {
      SubsequenceTail(s, r[1..]);
      Weaken(s[1..], r);
    }
  }

  lemma {:induction false} Weaken<T>(s: seq<T>, r: seq<T>)
    requires r != [] && Subsequence(s, r[1..])
    ensures Subsequence(s, r)
    decreases |r|, 0
  {
    if s != [] && s[0] == r[0] { SubsequenceTail(s, r[1..]); }
  }

  function Without<T(==)>(r: seq<T>, c: T): seq<T> {
    if r == [] then [] else (if r[0] == c then [] else [r[0]]) + Without(r[1..], c)
  }

  lemma {:induction false} WithoutMembers<T(!new)>(r: seq<T>, c: T)
    ensures forall x :: x in Without(r, c) <==> x in r && x != c
    ensures NoDuplicates(r) ==> NoDuplicates(Without(r, c))
  {
    if r != [] {
      WithoutMembers(r[1..], c);
      assert r == [r[0]] + r[1..];
      if NoDuplicates(r) {
        assert forall i :: 0 <= i < |r| - 1 ==> r[1..][i] == r[i + 1];
        assert r[0] !in r[1..] && NoDuplicates(r[1..]);
      }
    }
  }

  lemma {:induction false} SubsequenceWithout<T>(s: seq<T>, r: seq<T>, c: T)
    requires Subsequence(s, r) && c !in s
    ensures Subsequence(s, Without(r, c))
    decreases |r|
  {
    if s != [] {
      if s[0] == r[0] {
        SubsequenceWithout(s[1..], r[1..], c);
        assert Without(r, c) == [r[0]] + Without(r[1..], c);
      } else {
        SubsequenceWithout(s, r[1..], c);
        if r[0] != c {
          assert Without(r, c) == [r[0]] + Without(r[1..], c);
          assert Without(r, c)[1..] == Without(r[1..], c);
        } else {
          assert Without(r, c) == Without(r[1..], c);
        }
      }
    }
  }

  /** The first element of a linear extension heads a list and is in no tail. */
  lemma FirstIsCandidate<T(!new)>(r: seq<T>, seqs: seq<seq<T>>)
    requires LinearExtension(r, seqs) && r != []
    requires forall i :: 0 <= i < |seqs| ==> seqs[i] != []
    ensures !InATail(r[0], seqs)
    ensures exists i :: 0 <= i < |seqs| && seqs[i][0] == r[0]
  {
    forall i | 0 <= i < |seqs| ensures r[0] !in seqs[i][1..] {
      var s := seqs[i];
      assert Subsequence(s, r);
      if r[0] in s[1..] {
        var t := if s[0] == r[0] then s[1..] else s;
        SubsequenceMembers(t, r[1..], r[0]);
      }
    }
    assert InSome(r[0], seqs);
    var i :| 0 <= i < |seqs| && r[0] in seqs[i];
    assert seqs[i] == [seqs[i][0]] + seqs[i][1..];
  }

  lemma PurgedExtension<T(!new)>(r: seq<T>, seqs: seq<seq<T>>)
    ensures LinearExtension(r, seqs) <==> LinearExtension(r, Purge(seqs))
  {
    PurgeKeeps(seqs);
    var p := Purge(seqs);
    forall x ensures InSome(x, seqs) <==> InSome(x, p) {
      if i :| 0 <= i < |seqs| && x in seqs[i] {
        assert seqs[i] in p;
      }
      if i :| 0 <= i < |p| && x in p[i] {
        assert p[i] in seqs;
      }
    }
    assert (forall i :: 0 <= i < |seqs| ==> Subsequence(seqs[i], r)) <==> forall s :: s in seqs ==> Subsequence(s, r);
    assert (forall i :: 0 <= i < |p| ==> Subsequence(p[i], r)) <==> forall s :: s in p ==> Subsequence(s, r);
  }

  lemma OneDropped<T(!new)>(s: seq<T>, c: T, x: T)
    requires s != [] && c !in s[1..]
    ensures x in (if s[0] == c then s[1..] else s) <==> x in s && x != c
  {
    assert s == [s[0]] + s[1..];
  }

  lemma DroppedMembers<T(!new)>(seqs: seq<seq<T>>, c: T, x: T)
    requires forall i :: 0 <= i < |seqs| ==> seqs[i] != []
    requires !InATail(c, seqs) && exists i :: 0 <= i < |seqs| && seqs[i][0] == c
    ensures InSome(x, DropHead(seqs, c)) <==> InSome(x, seqs) && x != c
    ensures InSome(c, seqs)
  {
    var d := DropHead(seqs, c);
    forall i | 0 <= i < |seqs| ensures x in d[i] <==> x in seqs[i] && x != c {
      OneDropped(seqs[i], c, x);
    }
    SameMembers(seqs, d, c, x);
    var i :| 0 <= i < |seqs| && seqs[i][0] == c;
    assert c in seqs[i];
  }

  lemma SameMembers<T(!new)>(seqs: seq<seq<T>>, d: seq<seq<T>>, c: T, x: T)
    requires |d| == |seqs| && forall i :: 0 <= i < |seqs| ==> (x in d[i] <==> x in seqs[i] && x != c)
    ensures InSome(x, d) <==> InSome(x, seqs) && x != c
  {
    if i :| 0 <= i < |seqs| && x in seqs[i] { assert x != c ==> x in d[i]; }
    if i :| 0 <= i < |d| && x in d[i] { assert x in seqs[i]; }
  }

  /** Putting the chosen element in front of an extension of the rest. */
  lemma ExtendFront<T(!new)>(seqs: seq<seq<T>>, c: T, rest: seq<T>)
    requires forall i :: 0 <= i < |seqs| ==> seqs[i] != []
    requires !InATail(c, seqs) && exists i :: 0 <= i < |seqs| && seqs[i][0] == c
    requires LinearExtension(rest, DropHead(seqs, c))
    ensures LinearExtension([c] + rest, seqs)
  {
    var r, d := [c] + rest, DropHead(seqs, c);
    forall x ensures x in r <==> InSome(x, seqs) { DroppedMembers(seqs, c, x); }
    DroppedMembers(seqs, c, c);
    assert c !in rest;
    forall i | 0 <= i < |seqs| ensures Subsequence(seqs[i], r) {
      assert Subsequence(d[i], rest);
      assert r[1..] == rest;
    }
  }

  /** Taking the chosen element out of an extension of the whole. */
  lemma RemoveChosen<T(!new)>(seqs: seq<seq<T>>, c: T, r: seq<T>)
    requires forall i :: 0 <= i < |seqs| ==> seqs[i] != []
    requires !InATail(c, seqs) && exists i :: 0 <= i < |seqs| && seqs[i][0] == c
    requires LinearExtension(r, seqs)
    ensures LinearExtension(Without(r, c), DropHead(seqs, c))
  {
    var d := DropHead(seqs, c);
    WithoutMembers(r, c);
    forall x ensures x in Without(r, c) <==> InSome(x, d) { DroppedMembers(seqs, c, x); }
    forall i | 0 <= i < |d| ensures Subsequence(d[i], Without(r, c)) {
      assert Subsequence(seqs[i], r) && c !in seqs[i][1..];
      OneRemoved(seqs[i], r, c);
    }
  }

  lemma OneRemoved<T(!new)>(s: seq<T>, r: seq<T>, c: T)
    requires s != [] && c !in s[1..] && Subsequence(s, r)
    ensures Subsequence(if s[0] == c then s[1..] else s, Without(r, c))
  {
    assert s == [s[0]] + s[1..];
    if s[0] == c {
      SubsequenceTail(s, r);
      SubsequenceWithout(s[1..], r, c);
    } else {
      SubsequenceWithout(s, r, c);
    }
  }

  predicate AllTrue<T>(r: seq<T>, truthy: T -> bool) { forall i :: 0 <= i < |r| ==> truthy(r[i]) }

  /** One round of a merge that succeeds. */
  lemma MergeRound<T(!new)>(seqs: seq<seq<T>>, truthy: T -> bool) returns (p: seq<seq<T>>, c: T, rest: seq<T>)
    requires Merge(seqs, truthy).Some? && Purge(seqs) != []
    ensures p == Purge(seqs) && (forall i :: 0 <= i < |p| ==> p[i] != [])
    ensures CandidateFrom(p, 0) == Some(c) && truthy(c) && TotalLength(DropHead(p, c)) < TotalLength(seqs)
    ensures Merge(DropHead(p, c), truthy) == Some(rest) && Merge(seqs, truthy) == Some([c] + rest)
  {
    RoundShrinks(seqs);
    p := Purge(seqs);
    c := CandidateFrom(p, 0).value;
    rest := Merge(DropHead(p, c), truthy).value;
  }

  lemma TrueCons<T>(c: T, rest: seq<T>, truthy: T -> bool)
    requires truthy(c) && AllTrue(rest, truthy)
    ensures AllTrue([c] + rest, truthy)
  {}

  lemma {:induction false} MergeTrue<T(!new)>(seqs: seq<seq<T>>, truthy: T -> bool)
    requires Merge(seqs, truthy).Some?
    ensures AllTrue(Merge(seqs, truthy).value, truthy)
    decreases TotalLength(seqs)
  {
    if Purge(seqs) != [] {
      var p, c, rest := MergeRound(seqs, truthy);
      MergeTrue(DropHead(p, c), truthy);
      TrueCons(c, rest, truthy);
    }
  }

  /** A returned merge is a linear extension of its inputs. */
  lemma {:induction false} MergeSound<T(!new)>(seqs: seq<seq<T>>, truthy: T -> bool)
    requires Merge(seqs, truthy).Some?
    ensures LinearExtension(Merge(seqs, truthy).value, seqs)
    decreases TotalLength(seqs)
  {
    if Purge(seqs) != [] {
      var p, c, rest := MergeRound(seqs, truthy);
      MergeSound(DropHead(p, c), truthy);
      ExtendFront(p, c, rest);
    }
    PurgedExtension(Merge(seqs, truthy).value, seqs);
  }

  lemma WithoutTrue<T(!new)>(r: seq<T>, c: T, truthy: T -> bool)
    requires AllTrue(r, truthy)
    ensures AllTrue(Without(r, c), truthy)
  {
    WithoutMembers(r, c);
    var w := Without(r, c);
    forall i | 0 <= i < |w| ensures truthy(w[i]) { assert w[i] in r; }
  }

  /** If any linear extension of true elements exists, the merge finds one. */
  lemma {:induction false} MergeComplete<T(!new)>(seqs: seq<seq<T>>, truthy: T -> bool, r: seq<T>)
    requires LinearExtension(r, seqs) && AllTrue(r, truthy)
    ensures Merge(seqs, truthy).Some?
    decreases TotalLength(seqs)
  {
    RoundShrinks(seqs);
    var p := Purge(seqs);
    PurgedExtension(r, seqs);
    if p != [] {
      HeadIn(p);
      FirstIsCandidate(r, p);
      var c := CandidateFrom(p, 0).value;
      CandidateIn(p, r, c);
      RemoveChosen(p, c, r);
      WithoutTrue(r, c, truthy);
      MergeComplete(DropHead(p, c), truthy, Without(r, c));
    }
  }

  lemma HeadIn<T(!new)>(p: seq<seq<T>>)
    requires p != [] && p[0] != []
    ensures InSome(p[0][0], p)
  {
    assert p[0][0] in p[0];
  }

  lemma CandidateIn<T(!new)>(p: seq<seq<T>>, r: seq<T>, c: T)
    requires LinearExtension(r, p) && exists i :: 0 <= i < |p| && p[i] != [] && p[i][0] == c
    ensures c in r
  {
    var i :| 0 <= i < |p| && p[i] != [] && p[i][0] == c;
    assert c in p[i];
    assert InSome(c, p);
  }

  /** _c3_merge raises exactly when no total order of true elements extends all its
      inputs; when every element is true, exactly when no total order does. */
  lemma MergeExact<T(!new)>(seqs: seq<seq<T>>, truthy: T -> bool)
    ensures Merge(seqs, truthy).Some? <==> exists r :: LinearExtension(r, seqs) && AllTrue(r, truthy)
    ensures Merge(seqs, truthy).Some? ==> LinearExtension(Merge(seqs, truthy).value, seqs)
  {
    if Merge(seqs, truthy).Some? {
      MergeSound(seqs, truthy);
      MergeTrue(seqs, truthy);
    }
    if r :| LinearExtension(r, seqs) && AllTrue(r, truthy) { MergeComplete(seqs, truthy, r); }
  }

  /** The test of the candidate's truth shows: of the numbers, a single list with
      only 0 has a linear extension and still raises. */
  lemma FalseHeadRaises(truthy: int -> bool)
    requires forall n :: truthy(n) <==> n != 0
    ensures LinearExtension([0], [[0]]) && Merge([[0]], truthy).None?
  {
    var seqs := [[0]];
    assert seqs[0] == [0] && InSome(0, seqs);
    assert seqs[1..] == [];
    assert Purge(seqs) == seqs;
    assert CandidateFrom(seqs, 0) == Some(0);
  }
}
