/** The canonical CIDR form of a set of addresses, and the greedy summary of an
    address range. */
module Summarize {
  import opened Bits
  import opened Cidr

  // ----- the canonical form of a set of addresses

  ghost predicate Within(w: nat, n: Net, u: iset<int>)
    requires n.plen <= w
  {
    forall x :: In(w, x, n) ==> x in u
  }

  /** n is a block of u that no larger block of u contains. */
  ghost predicate Maximal(w: nat, u: iset<int>, n: Net) {
    && ValidNet(w, n) && Within(w, n, u)
    && forall m :: ValidNet(w, m) && Within(w, m, u) && Inside(w, n, m) ==> m == n
  }

  ghost predicate Ascending(w: nat, nets: seq<Net>) {
    && (forall i :: 0 <= i < |nets| ==> ValidNet(w, nets[i]))
    && (forall i, j :: 0 <= i < j < |nets| ==> nets[i].addr + Size(w, nets[i]) <= nets[j].addr)
  }

  /** The networks of `nets`, in ascending order, are exactly the maximal blocks
      of u. */
  ghost predicate Canonical(w: nat, u: iset<int>, nets: seq<Net>) {
    && Ascending(w, nets)
    && forall n :: n in nets <==> Maximal(w, u, n)
  }

  /** A block of u grows into a maximal one. */
  lemma {:induction false} MaximalAbove(w: nat, u: iset<int>, m: Net) returns (q: Net)
    requires ValidNet(w, m) && Within(w, m, u)
    ensures Maximal(w, u, q) && Inside(w, m, q)
    decreases m.plen
  {
    if Maximal(w, u, m) {
      q := m;
    } else {
      var m' :| ValidNet(w, m') && Within(w, m', u) && Inside(w, m, m') && m' != m;
      InsidePrefix(w, m, m');
      q := MaximalAbove(w, u, m');
    }
  }

  /** Two maximal blocks sharing an address are the same. */
  lemma MaximalShare(w: nat, u: iset<int>, a: Net, b: Net, x: int)
    requires Maximal(w, u, a) && Maximal(w, u, b) && In(w, x, a) && In(w, x, b)
    ensures a == b
  {
    Nested(w, a, b, x);
  }

  ghost predicate Held(w: nat, nets: seq<Net>, m: Net) {
    m.plen <= w && exists q :: q in nets && q.plen <= w && Inside(w, m, q)
  }

  /** The networks are blocks of u and every block of u lies in one of them. */
  ghost predicate Absorbs(w: nat, u: iset<int>, nets: seq<Net>) {
    && (forall n :: n in nets ==> ValidNet(w, n) && Within(w, n, u))
    && (forall m {:trigger Held(w, nets, m)} :: ValidNet(w, m) && Within(w, m, u) ==> Held(w, nets, m))
  }

  lemma ListedNested(w: nat, nets: seq<Net>, n: Net, q: Net)
    requires Ascending(w, nets) && n in nets && q in nets && Inside(w, n, q)
    ensures n == q
  {
    var i, j :| 0 <= i < |nets| && 0 <= j < |nets| && nets[i] == n && nets[j] == q;
    assert i == j;
  }

  lemma AbsorbingIsMaximal(w: nat, u: iset<int>, nets: seq<Net>, n: Net, m: Net)
    requires Ascending(w, nets) && Absorbs(w, u, nets) && n in nets
    requires ValidNet(w, m) && Within(w, m, u) && Inside(w, n, m)
    ensures m == n
  {
    assert Held(w, nets, m);
    var q :| q in nets && q.plen <= w && Inside(w, m, q);
    ListedNested(w, nets, n, q);
    InsidePrefix(w, n, m);
    InsidePrefix(w, m, n);
  }

  /** Enough to be canonical: disjoint blocks of u such that every block of u
      lies in one of them. */
  lemma CanonicalIf(w: nat, u: iset<int>, nets: seq<Net>)
    requires Ascending(w, nets) && Absorbs(w, u, nets)
    ensures Canonical(w, u, nets)
  {
    forall n ensures n in nets <==> Maximal(w, u, n) {
      if n in nets {
        forall m | ValidNet(w, m) && Within(w, m, u) && Inside(w, n, m) ensures m == n {
          AbsorbingIsMaximal(w, u, nets, n, m);
        }
      }
      assert Maximal(w, u, n) ==> Held(w, nets, n);
    }
  }

  lemma TileOf(w: nat, u: iset<int>, nets: seq<Net>, x: nat) returns (q: Net)
    requires Canonical(w, u, nets) && x in u && x < Pow2(w)
    ensures q in nets && q.plen <= w && In(w, x, q)
  {
    assert In(w, x, Net(x, w));
    q := MaximalAbove(w, u, Net(x, w));
  }

  lemma TileHolds(w: nat, u: iset<int>, nets: seq<Net>, n: Net, x: int)
    requires Canonical(w, u, nets) && n in nets && n.plen <= w && In(w, x, n)
    ensures x in u && 0 <= x < Pow2(w)
  {
    MaximalHolds(w, u, n, x);
  }

  /** A canonical list covers exactly the addresses of u. */
  lemma CanonicalTiles(w: nat, u: iset<int>, nets: seq<Net>, x: int)
    requires Canonical(w, u, nets)
    ensures (x in u && 0 <= x < Pow2(w)) <==> exists n :: n in nets && In(w, x, n)
  {
    if x in u && 0 <= x < Pow2(w) { var q := TileOf(w, u, nets, x); }
    if n :| n in nets && In(w, x, n) { TileHolds(w, u, nets, n, x); }
  }

  lemma MaximalHolds(w: nat, u: iset<int>, n: Net, x: int)
    requires Maximal(w, u, n) && In(w, x, n)
    ensures x in u && 0 <= x < Pow2(w)
  {
    Fits(w, n);
  }

  /** There is only one canonical list for a set of addresses. */
  lemma CanonicalUnique(w: nat, u: iset<int>, a: seq<Net>, b: seq<Net>)
    requires Canonical(w, u, a) && Canonical(w, u, b)
    ensures a == b
  {
    SameAscending(w, a, b);
  }

  lemma {:induction false} SameAscending(w: nat, a: seq<Net>, b: seq<Net>)
    requires Ascending(w, a) && Ascending(w, b)
    requires forall n :: n in a <==> n in b
    ensures a == b
  {
    FirstIn(a);
    FirstIn(b);
    if a != [] {
      assert a[0] == b[0];
      forall n ensures n in a[1..] <==> n in b[1..] {
        if n in a[1..] { assert n in a && n != a[0]; }
        if n in b[1..] { assert n in b && n != b[0]; }
      }
      SameAscending(w, a[1..], b[1..]);
    }
  }

  lemma FirstIn(a: seq<Net>)
    ensures a == [] || a[0] in a
  {}

  /** cover is a set of blocks of u that reaches all of u. */
  ghost predicate Covers(w: nat, u: iset<int>, cover: set<Net>) {
    && (forall c :: c in cover ==> ValidNet(w, c) && Within(w, c, u))
    && (forall x :: x in u && 0 <= x < Pow2(w) ==> exists c :: c in cover && In(w, x, c))
  }

  /** No CIDR cover of u has fewer blocks than the canonical list. */
  lemma CanonicalFewest(w: nat, u: iset<int>, nets: seq<Net>, cover: set<Net>)
    requires Canonical(w, u, nets) && Covers(w, u, cover)
    ensures |nets| <= |cover|
  {
    var s := Representatives(w, u, nets, cover, |nets|);
    SubsetSize(s, cover);
  }

  lemma {:induction false} Representatives(w: nat, u: iset<int>, nets: seq<Net>, cover: set<Net>, k: nat)
      returns (s: set<Net>)
    requires Canonical(w, u, nets) && Covers(w, u, cover) && k <= |nets|
    ensures s <= cover && |s| == k
    ensures forall c :: c in s ==> exists i :: 0 <= i < k && Inside(w, c, nets[i])
  {
    if k == 0 {
      s := {};
    } else {
      var t := Representatives(w, u, nets, cover, k - 1);
      var n := nets[k - 1];
      assert n in nets;
      assert In(w, n.addr, n);
      var c :| c in cover && In(w, n.addr, c);
      var q := MaximalAbove(w, u, c);
      MaximalShare(w, u, n, q, n.addr);
      assert forall i :: 0 <= i < k - 1 ==> !Inside(w, c, nets[i]);
      s := t + {c};
    }
  }

  lemma {:induction false} SubsetSize<T>(a: set<T>, b: set<T>)
    requires a <= b
    ensures |a| <= |b|
  {
    if a != {} {
      var x :| x in a;
      SubsetSize(a - {x}, b - {x});
    }
  }

  // ----- summarize_address_range

  ghost predicate Between(x: int, first: int, last: int) { first <= x <= last }

  ghost function Range(first: int, last: int): iset<int> { iset x | Between(x, first, last) }

  /** The bits of the largest aligned block starting at `first` that ends by
      `last`. */
  function GreedyBits(w: nat, first: nat, last: nat): nat
    requires first <= last < Pow2(w)
  {
    BitLengthBounds(last - first + 1);
    var zeros, len := CountRighthandZeroBits(first, w), BitLength(last - first + 1) - 1;
    if zeros <= len then zeros else len
  }

  lemma GreedyBitsLargest(w: nat, first: nat, last: nat, k: nat)
    requires first <= last < Pow2(w)
    ensures k <= GreedyBits(w, first, last) <==> k <= w && Aligned(first, k) && first + Pow2(k) - 1 <= last
  {
    CountsTrailingZeros(first, w, k);
    var l := last - first + 1;
    BitLengthBounds(l);
    Pow2Order(k, BitLength(l) - 1);
    Pow2Order(k, BitLength(l));
  }

  function Greedy(w: nat, first: nat, last: nat): seq<Net>
    requires last < Pow2(w)
    decreases last - first
  {
    if first > last then []
    else
      var nbits := GreedyBits(w, first, last);
      GreedyBitsLargest(w, first, last, nbits);
      [Net(first, w - nbits)] + Greedy(w, first + Pow2(nbits), last)
  }

  lemma GreedyStep(w: nat, first: nat, last: nat)
    requires first <= last < Pow2(w)
    ensures var nbits := GreedyBits(w, first, last);
            && nbits <= w && ValidNet(w, Net(first, w - nbits))
            && Shl(1, nbits) == Pow2(nbits) && first + Pow2(nbits) - 1 <= last
            && Greedy(w, first, last) == [Net(first, w - nbits)] + Greedy(w, first + Pow2(nbits), last)
  {
    var nbits := GreedyBits(w, first, last);
    GreedyBitsLargest(w, first, last, nbits);
    ShlLinear(0, 0, nbits);
  }

  lemma Shift<T>(a: seq<T>, x: T, b: seq<T>)
    ensures a + ([x] + b) == (a + [x]) + b
  {}

  /** summarize_address_range on two addresses of the same version. */
  method SummarizeAddressRange(w: nat, first: nat, last: nat) returns (r: Result<seq<Net>>)
    requires first < Pow2(w) && last < Pow2(w)
    ensures r == if first > last then Err(ValueError) else Ok(Greedy(w, first, last))
  {
    if first > last { return Err(ValueError); }
    var nets: seq<Net> := [];
    var firstInt := first;
    while firstInt <= last
      invariant Greedy(w, first, last) == nets + Greedy(w, firstInt, last)
      decreases last - firstInt
    {
      GreedyStep(w, firstInt, last);
      var nbits := GreedyBits(w, firstInt, last);
      var net := MakeNet(w, firstInt, w - nbits);
      assert net.Ok?;
      Shift(nets, net.value, Greedy(w, firstInt + Pow2(nbits), last));
      nets, firstInt := nets + [net.value], firstInt + Shl(1, nbits);
      if firstInt - 1 == AllOnes(w) { break; }
    }
    assert nets + [] == nets;
    return Ok(nets);
  }

  /** Every network of the list lies between the two addresses. */
  ghost predicate Confined(w: nat, nets: seq<Net>, first: int, last: int) {
    forall i :: 0 <= i < |nets| ==>
      nets[i].plen <= w && first <= nets[i].addr && nets[i].addr + Size(w, nets[i]) - 1 <= last
  }

  lemma AscendingCons(w: nat, n: Net, rest: seq<Net>, start: int, last: int)
    requires ValidNet(w, n) && Ascending(w, rest) && n.addr + Size(w, n) == start <= last + 1 &&
      Confined(w, rest, start, last)
    ensures Ascending(w, [n] + rest) && Confined(w, [n] + rest, n.addr, last)
  {}

  lemma {:induction false} GreedyAscending(w: nat, first: nat, last: nat)
    requires last < Pow2(w)
    ensures Ascending(w, Greedy(w, first, last)) && Confined(w, Greedy(w, first, last), first, last)
    decreases last - first
  {
    if first <= last {
      var nbits := GreedyBits(w, first, last);
      GreedyStep(w, first, last);
      var start := first + Pow2(nbits);
      GreedyAscending(w, start, last);
      AscendingCons(w, Net(first, w - nbits), Greedy(w, start, last), start, last);
    }
  }

  /** Every block of the range lies in one block of the greedy summary. */
  lemma {:induction false} GreedyHolds(w: nat, first: nat, last: nat, m: Net) returns (q: Net)
    requires last < Pow2(w) && ValidNet(w, m) && first <= m.addr && m.addr + Size(w, m) - 1 <= last
    ensures q in Greedy(w, first, last) && q.plen <= w && Inside(w, m, q)
    decreases last - first
  {
    var nbits := GreedyBits(w, first, last);
    GreedyStep(w, first, last);
    if m.addr < first + Pow2(nbits) {
      q := Net(first, w - nbits);
      HeldByFirst(w, first, last, m);
    } else {
      q := GreedyHolds(w, first + Pow2(nbits), last, m);
    }
  }

  lemma HeldByFirst(w: nat, first: nat, last: nat, m: Net)
    requires last < Pow2(w) && ValidNet(w, m) && first <= m.addr && m.addr + Size(w, m) - 1 <= last
    requires m.addr < first + Pow2(GreedyBits(w, first, last))
    ensures GreedyBits(w, first, last) <= w && Inside(w, m, Net(first, w - GreedyBits(w, first, last)))
  {
    var nbits := GreedyBits(w, first, last);
    GreedyBitsLargest(w, first, last, nbits);
    Nested(w, m, Net(first, w - nbits), m.addr);
    GreedyBitsLargest(w, first, last, w - m.plen);
  }

  /** The summary of a range is its canonical form. */
  lemma SummaryCanonical(w: nat, first: nat, last: nat)
    requires last < Pow2(w)
    ensures Canonical(w, Range(first, last), Greedy(w, first, last))
  {
    var u, nets := Range(first, last), Greedy(w, first, last);
    GreedyAscending(w, first, last);
    forall m | ValidNet(w, m) && Within(w, m, u) ensures Held(w, nets, m) {
      assert In(w, m.addr, m) && In(w, m.addr + Size(w, m) - 1, m);
      var q := GreedyHolds(w, first, last, m);
    }
    CanonicalIf(w, u, nets);
  }

  // ----- how many blocks a summary has

  /** Once the remaining length limits the block, block sizes strictly shrink. */
  lemma {:induction false} ShrinkingCount(w: nat, first: nat, last: nat, k: nat)
    requires last < Pow2(w) && k <= w && Aligned(first, k) && last < first + Pow2(k) - 1
    ensures |Greedy(w, first, last)| <= k
    decreases k
  {
    if first <= last {
      var nbits := GreedyBits(w, first, last);
      GreedyBitsLargest(w, first, last, nbits);
      GreedyBitsLargest(w, first, last, nbits + 1);
      GreedyBitsLargest(w, first, last, k);
      AlignedDown(first, k, nbits + 1);
      AlignedPow2(nbits, nbits);
      AlignedAdd(first, Pow2(nbits), nbits);
      ShrinkingCount(w, first + Pow2(nbits), last, nbits);
    }
  }

  /** While the alignment limits the block, alignments strictly grow. */
  lemma {:induction false} GrowingCount(w: nat, first: nat, last: nat, t: nat)
    requires 2 <= w && t < w && first <= last < Pow2(w) && first > 0 && Aligned(first, t)
    ensures |Greedy(w, first, last)| <= (w - 1 - t) + (w - 1)
    decreases w - t
  {
    if Aligned(first, t + 1) && t + 1 < w {
      GrowingCount(w, first, last, t + 1);
    } else {
      if t + 1 == w && Aligned(first, w) { AlignedPow2(w, w); AlignedGap(0, first, w) by { ZeroAligned(w); } }
      var nbits := GreedyBits(w, first, last);
      GreedyBitsLargest(w, first, last, nbits);
      GreedyBitsLargest(w, first, last, t);
      GreedyBitsLargest(w, first, last, t + 1);
      if nbits < t {
        ShrinkingCount(w, first, last, t);
      } else {
        assert nbits == t;
        AlignedNextBit(first, t);
        var next := first + Pow2(t);
        if next <= last {
          AlignedPow2(w, w);
          ZeroAligned(w);
          if Aligned(next, w) { AlignedGap(0, next, w); }
          GrowingCount(w, next, last, t + 1);
        }
      }
    }
  }

  /** A summary never has more than 2w - 2 blocks. */
  lemma SummaryCount(w: nat, first: nat, last: nat)
    requires 2 <= w && first <= last < Pow2(w)
    ensures |Greedy(w, first, last)| <= 2 * w - 2
  {
    if first > 0 {
      GrowingCount(w, first, last, 0);
    } else {
      ZeroAligned(w);
      if last < Pow2(w) - 1 {
        ShrinkingCount(w, 0, last, w);
      } else {
        GreedyBitsLargest(w, 0, last, w);
        GreedyBitsLargest(w, 0, last, w + 1);
      }
    }
  }

  // ----- the bound is attained

  /** One step of the greedy summary, when the largest block that fits is known. */
  lemma GreedyTakes(w: nat, first: nat, last: nat, k: nat)
    requires first <= last < Pow2(w) && k <= w && Aligned(first, k) && first + Pow2(k) - 1 <= last
    requires !Aligned(first, k + 1) || last < first + Pow2(k + 1) - 1
    ensures |Greedy(w, first, last)| == 1 + |Greedy(w, first + Pow2(k), last)|
  {
    var nbits := GreedyBits(w, first, last);
    GreedyBitsLargest(w, first, last, nbits);
    GreedyBitsLargest(w, first, last, k);
    GreedyBitsLargest(w, first, last, k + 1);
    assert nbits == k;
  }

  /** A range one short of a block takes a block of every smaller size. */
  lemma {:induction false} ShortOfBlock(w: nat, first: nat, last: nat, k: nat)
    requires k <= w && Aligned(first, k) && first + Pow2(k) <= Pow2(w) && last + 2 == first + Pow2(k)
    ensures |Greedy(w, first, last)| == k
    decreases k
  {
    if k > 0 {
      var half := Pow2(k - 1);
      AlignedDown(first, k, k - 1);
      AlignedPow2(k - 1, k - 1);
      AlignedAdd(first, half, k - 1);
      GreedyTakes(w, first, last, k - 1);
      ShortOfBlock(w, first + half, last, k - 1);
    }
  }

  lemma {:induction false} PowerExactly(t: nat)
    ensures Aligned(Pow2(t), t) && !Aligned(Pow2(t), t + 1)
  {
    if t == 0 {
      assert Pow2(0) == 1;
    } else {
      PowerExactly(t - 1);
      AlignedTwice(Pow2(t - 1), t - 1);
      AlignedTwice(Pow2(t - 1), t);
    }
  }

  lemma MiddleBounds(w: nat, t: nat)
    requires t + 1 < w
    ensures Pow2(t + 1) == 2 * Pow2(t) && Pow2(t + 1) <= Pow2(w) - 2
  {
    Pow2Order(t + 1, w - 1);
    Pow2Order(1, w - 1);
    assert Pow2(1) == 2 && Pow2(w) == 2 * Pow2(w - 1);
  }

  lemma GrowsOnce(w: nat, t: nat, last: nat)
    requires t + 1 < w && last == Pow2(w) - 2
    ensures |Greedy(w, Pow2(t), last)| == 1 + |Greedy(w, Pow2(t + 1), last)|
  {
    PowerExactly(t);
    MiddleBounds(w, t);
    GreedyTakes(w, Pow2(t), last, t);
  }

  /** From 2^t on, blocks grow up to the middle and then shrink. */
  lemma {:induction false} GrowsThenShrinks(w: nat, t: nat, last: nat)
    requires t + 1 <= w && last + 2 == Pow2(w)
    ensures |Greedy(w, Pow2(t), last)| == 2 * (w - 1) - t
    decreases w - t
  {
    if t == w - 1 {
      PowerExactly(t);
      ShortOfBlock(w, Pow2(t), last, t);
    } else {
      GrowsOnce(w, t, last);
      GrowsThenShrinks(w, t + 1, last);
    }
  }

  /** At every width the range without its first and last address needs as many
      blocks as the bound allows. */
  lemma SummaryCountAttained(w: nat)
    requires w >= 2
    ensures 1 <= Pow2(w) - 2 && |Greedy(w, 1, Pow2(w) - 2)| == 2 * w - 2
  {
    MiddleBounds(w, 0);
    GrowsThenShrinks(w, 0, Pow2(w) - 2);
  }
}
