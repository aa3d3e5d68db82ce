/** CIDR blocks over addresses of `w` bits (32 for IPv4, 128 for IPv6): masks,
    supernets, subnets and exclusion. */
module Cidr {
  import opened Wrappers
  import opened Bits

  /** UnpackError is the ValueError of `s1, s2 = ...` on a sequence that does
      not hold two elements. */
  datatype Error = ValueError | UnpackError | AssertionError

  datatype Result<+T> = Ok(value: T) | Err(error: Error)

  /** A network object: its network address and its prefix length. */
  datatype Net = Net(addr: nat, plen: nat)

  function Size(w: nat, n: Net): (s: nat)
    requires n.plen <= w
    ensures s >= 1
  {
    Pow2(w - n.plen)
  }

  /** What the constructor lets through: no host bits set, within the space. */
  predicate ValidNet(w: nat, n: Net) {
    n.plen <= w && Aligned(n.addr, w - n.plen) && n.addr < Pow2(w)
  }

  /** Address x lies in block n. */
  predicate In(w: nat, x: int, n: Net)
    requires n.plen <= w
  {
    n.addr <= x < n.addr + Size(w, n)
  }

  /** Block a lies in block b. */
  predicate Inside(w: nat, a: Net, b: Net)
    requires a.plen <= w && b.plen <= w
  {
    b.addr <= a.addr && a.addr + Size(w, a) <= b.addr + Size(w, b)
  }

  predicate Disjoint(w: nat, a: Net, b: Net)
    requires a.plen <= w && b.plen <= w
  {
    a.addr + Size(w, a) <= b.addr || b.addr + Size(w, b) <= a.addr
  }

  // ----- the geometry of aligned blocks

  lemma Fits(w: nat, n: Net)
    requires ValidNet(w, n)
    ensures n.addr + Size(w, n) <= Pow2(w)
  {
    AlignedPow2(w, w - n.plen);
    AlignedGap(n.addr, Pow2(w), w - n.plen);
  }

  /** Laminarity: two blocks are disjoint, or the longer prefix lies inside. */
  lemma Laminar(w: nat, a: Net, b: Net)
    requires ValidNet(w, a) && ValidNet(w, b) && b.plen <= a.plen
    ensures Inside(w, a, b) || Disjoint(w, a, b)
  {
    var h := w - a.plen;
    AlignedDown(b.addr, w - b.plen, h);
    AlignedPow2(w - b.plen, h);
    AlignedAdd(b.addr, Size(w, b), h);
    if a.addr < b.addr {
      AlignedGap(a.addr, b.addr, h);
    } else if a.addr < b.addr + Size(w, b) {
      AlignedGap(a.addr, b.addr + Size(w, b), h);
    }
  }

  /** A block inside another has the longer prefix, and the same only if equal. */
  lemma InsidePrefix(w: nat, a: Net, b: Net)
    requires a.plen <= w && b.plen <= w && Inside(w, a, b)
    ensures b.plen <= a.plen
    ensures a.plen == b.plen ==> a == b
  {
    Pow2Order(w - a.plen, w - b.plen);
  }

  /** Blocks sharing an address are nested. */
  lemma Nested(w: nat, a: Net, b: Net, x: int)
    requires ValidNet(w, a) && ValidNet(w, b) && In(w, x, a) && In(w, x, b)
    ensures b.plen <= a.plen ==> Inside(w, a, b)
    ensures a.plen <= b.plen ==> Inside(w, b, a)
  {
    if b.plen <= a.plen { Laminar(w, a, b); }
    if a.plen <= b.plen { Laminar(w, b, a); }
  }

  // ----- masks

  function AllOnes(w: nat): nat { Pow2(w) - 1 }

  function Netmask(w: nat, plen: nat): (m: nat)
    requires plen <= w
    ensures Pow2(w - plen) <= Pow2(w) && m == Pow2(w) - Pow2(w - plen)
  {
    ShrOnes(w, plen);
    Pow2Order(w - plen, w);
    XorOnes(w, w - plen);
    Xor(AllOnes(w), Shr(AllOnes(w), plen))
  }

  function Hostmask(w: nat, plen: nat): (m: nat)
    requires plen <= w
    ensures m == Pow2(w - plen) - 1
  {
    XorOnes(w, w - plen);
    Xor(Netmask(w, plen), AllOnes(w))
  }

  function Broadcast(w: nat, n: Net): (b: nat)
    requires ValidNet(w, n)
    ensures b == n.addr + Size(w, n) - 1
    ensures b <= AllOnes(w)
  {
    OrHostBits(n.addr, w - n.plen);
    Fits(w, n);
    Or(n.addr, Hostmask(w, n.plen))
  }

  lemma MaskRoundsDown(w: nat, plen: nat, d: nat, a: nat)
    requires plen <= w && a < Pow2(w)
    ensures And(a, Shl(Netmask(w, plen), d)) == RoundDown(a, w - plen + d)
  {
    AndShiftedMask(w, w - plen, d, a);
  }

  lemma RoundDownAligned(a: nat, k: nat)
    ensures RoundDown(a, k) == a <==> Aligned(a, k)
  {
    if Aligned(a, k) && RoundDown(a, k) < a { AlignedGap(RoundDown(a, k), a, k); }
  }

  /** The constructor from an (address, prefix length) pair. It accepts exactly
      the aligned addresses of the space. */
  function MakeNet(w: nat, addr: int, plen: nat): (r: Result<Net>)
    requires plen <= w
    ensures r.Ok? <==> addr >= 0 && ValidNet(w, Net(addr, plen))
    ensures r.Ok? ==> r.value == Net(addr, plen)
    ensures r.Err? ==> r.error == ValueError
  {
    if addr < 0 || addr > AllOnes(w) then Err(ValueError)
    else
      MaskRoundsDown(w, plen, 0, addr);
      RoundDownAligned(addr, w - plen);
      if And(addr, Netmask(w, plen)) != addr then Err(ValueError) else Ok(Net(addr, plen))
  }

  // ----- subnet_of

  function SubnetOf(w: nat, a: Net, b: Net): (r: bool)
    requires ValidNet(w, a) && ValidNet(w, b)
    ensures r <==> forall x :: In(w, x, a) ==> In(w, x, b)
    ensures r <==> Inside(w, a, b)
  {
    assert In(w, a.addr, a) && In(w, a.addr + Size(w, a) - 1, a);
    b.addr <= a.addr && Broadcast(w, b) >= Broadcast(w, a)
  }

  // ----- supernet

  /** The block of prefix length `plen` holding address x. */
  function BlockAt(w: nat, x: nat, plen: nat): (n: Net)
    requires plen <= w && x < Pow2(w)
    ensures ValidNet(w, n) && n.plen == plen && In(w, x, n)
  {
    Net(RoundDown(x, w - plen), plen)
  }

  lemma BlockAtUnique(w: nat, x: nat, n: Net)
    requires ValidNet(w, n) && x < Pow2(w) && In(w, x, n)
    ensures BlockAt(w, x, n.plen) == n
  {
    Nested(w, n, BlockAt(w, x, n.plen), x);
    InsidePrefix(w, n, BlockAt(w, x, n.plen));
  }

  /** The prefix difference a supernet request asks for: None when the request
      itself is refused. */
  function UpBy(n: Net, diff: int, newPrefix: Option<int>): Option<int> {
    match newPrefix
    case None => Some(diff)
    case Some(np) => if np > n.plen || diff != 1 then None else Some(n.plen - np)
  }

  /** supernet. A negative difference reaches a shift by a negative count,
      which Python refuses with a ValueError. */
  function Supernet(w: nat, n: Net, diff: int := 1, newPrefix: Option<int> := None): (r: Result<Net>)
    requires ValidNet(w, n)
    ensures n.plen == 0 ==> r == Ok(n)
    ensures n.plen > 0 ==> (r.Ok? <==> UpBy(n, diff, newPrefix).Some? && 0 <= UpBy(n, diff, newPrefix).value <= n.plen)
    ensures n.plen > 0 && r.Ok? ==> r.value.plen == n.plen - UpBy(n, diff, newPrefix).value
    ensures r.Ok? ==> ValidNet(w, r.value) && Inside(w, n, r.value)
    ensures r.Err? ==> r.error == ValueError
  {
    if n.plen == 0 then Ok(n)
    else
      match UpBy(n, diff, newPrefix)
      case None => Err(ValueError)
      case Some(d) =>
        var newLen := n.plen - d;
        if newLen < 0 then Err(ValueError)
        else if d < 0 then Err(ValueError)
        else
          MaskRoundsDown(w, n.plen, d, n.addr);
          var up := BlockAt(w, n.addr, newLen);
          Nested(w, n, up, n.addr);
          MakeNet(w, And(n.addr, Shl(Netmask(w, n.plen), d)), newLen)
  }

  /** The supernet is the one block of its length around the network. */
  lemma SupernetUnique(w: nat, n: Net, d: nat, up: Net)
    requires ValidNet(w, n) && ValidNet(w, up) && Inside(w, n, up) && up.plen == n.plen - d
    ensures Supernet(w, n, d) == Ok(up)
  {
    if n.plen > 0 {
      BlockAtUnique(w, n.addr, up);
      var r := Supernet(w, n, d).value;
      BlockAtUnique(w, n.addr, r);
    } else {
      InsidePrefix(w, n, up);
    }
  }

  // ----- subnets

  function DownBy(n: Net, diff: int, newPrefix: Option<int>): Option<int> {
    match newPrefix
    case None => Some(diff)
    case Some(np) => if np < n.plen || diff != 1 then None else Some(np - n.plen)
  }

  /** The i-th block of prefix length `plen` inside n. */
  function Child(w: nat, n: Net, plen: nat, i: nat): Net
    requires n.plen <= plen <= w
  {
    Net(n.addr + Shl(i, w - plen), plen)
  }

  /** How many subnets the generator produces: its range stops before the
      broadcast address, so with steps of one the last block is left out. */
  function ChildCount(w: nat, n: Net, plen: nat): nat
    requires n.plen <= plen <= w
  {
    if plen == w then Pow2(plen - n.plen) - 1 else Pow2(plen - n.plen)
  }

  lemma ChildInside(w: nat, n: Net, plen: nat, i: nat)
    requires ValidNet(w, n) && n.plen <= plen <= w && i < Pow2(plen - n.plen)
    ensures ValidNet(w, Child(w, n, plen, i)) && Inside(w, Child(w, n, plen, i), n)
  {
    ShlPow2(plen - n.plen, w - plen);
    ShlLinear(i, Pow2(plen - n.plen), w - plen);
    AlignedDown(n.addr, w - n.plen, w - plen);
    ShlAligned(i, w - plen);
    AlignedAdd(n.addr, Shl(i, w - plen), w - plen);
    Fits(w, n);
  }

  /** All subnets of prefix length `plen` that the generator produces. */
  function Children(w: nat, n: Net, plen: nat): (c: seq<Net>)
    requires n.plen <= plen <= w
    ensures |c| == ChildCount(w, n, plen)
    ensures forall i :: 0 <= i < |c| ==> c[i] == Child(w, n, plen, i)
  {
    seq(ChildCount(w, n, plen), i requires 0 <= i => Child(w, n, plen, i))
  }

  /** The range's k-th address is before the broadcast address exactly when
      there is a k-th subnet. */
  lemma RangeStep(w: nat, n: Net, plen: nat, k: nat)
    requires ValidNet(w, n) && n.plen < w && n.plen <= plen <= w
    ensures k < ChildCount(w, n, plen) <==> Child(w, n, plen, k).addr < n.addr + Size(w, n) - 1
    ensures k < ChildCount(w, n, plen) ==> ValidNet(w, Child(w, n, plen, k))
    ensures Child(w, n, plen, k + 1).addr == Child(w, n, plen, k).addr + Pow2(w - plen)
  {
    var d, h := plen - n.plen, w - plen;
    ShlPow2(d, h);
    ShlLinear(k, 1, h);
    ShlLinear(k, Pow2(d), h);
    ShlLinear(k, Pow2(d) - 1, h);
    ShlLinear(Pow2(d) - 1, 1, h);
    ShlLinear(Pow2(d), k, h);
    if k < ChildCount(w, n, plen) { ChildInside(w, n, plen, k); }
  }

  /** subnets. Out of range requests are refused, except on a single address,
      which yields itself whatever was asked. */
  method Subnets(w: nat, n: Net, diff: int := 1, newPrefix: Option<int> := None) returns (r: Result<seq<Net>>)
    requires ValidNet(w, n)
    ensures n.plen == w ==> r == Ok([n])
    ensures n.plen < w ==>
      (r.Ok? <==> DownBy(n, diff, newPrefix).Some? && 0 <= DownBy(n, diff, newPrefix).value <= w - n.plen)
    ensures r.Err? ==> r.error == ValueError
    ensures n.plen < w && r.Ok? ==> r.value == Children(w, n, n.plen + DownBy(n, diff, newPrefix).value)
  {
    if n.plen == w { return Ok([n]); }
    var d := diff;
    if newPrefix.Some? {
      if newPrefix.value < n.plen { return Err(ValueError); }
      if diff != 1 { return Err(ValueError); }
      d := newPrefix.value - n.plen;
    }
    if d < 0 { return Err(ValueError); }
    var newLen := n.plen + d;
    if newLen > w { return Err(ValueError); }
    var addr: int, end: int := n.addr, Broadcast(w, n);
    var step := Shr(Hostmask(w, n.plen) + 1, d);
    ShlPow2(w - newLen, d);
    ShlLinear(0, 0, w - newLen);
    var nets: seq<Net> := [];
    ghost var all := Children(w, n, newLen);
    while addr < end
      invariant |nets| <= |all| && nets == all[..|nets|]
      invariant addr == Child(w, n, newLen, |nets|).addr
      decreases end - addr
    {
      RangeStep(w, n, newLen, |nets|);
      var net := MakeNet(w, addr, newLen);
      assert net == Ok(all[|nets|]);
      nets, addr := nets + [net.value], addr + step;
    }
    RangeStep(w, n, newLen, |nets|);
    return Ok(nets);
  }

  /** Every subnet's supernet is the network it came from. */
  lemma SupernetOfChild(w: nat, n: Net, plen: nat, i: nat)
    requires ValidNet(w, n) && n.plen <= plen <= w && i < Pow2(plen - n.plen)
    ensures ValidNet(w, Child(w, n, plen, i))
    ensures Supernet(w, Child(w, n, plen, i), plen - n.plen) == Ok(n)
  {
    ChildInside(w, n, plen, i);
    SupernetUnique(w, Child(w, n, plen, i), plen - n.plen, n);
  }

  /** The subnets in order are adjacent blocks starting at the network, and they
      reach every address of it if and only if they are not single addresses. */
  lemma SubnetsTile(w: nat, n: Net, plen: nat)
    requires ValidNet(w, n) && n.plen <= plen <= w && n.plen < w
    ensures forall i, j :: 0 <= i < j < ChildCount(w, n, plen) ==>
      Disjoint(w, Child(w, n, plen, i), Child(w, n, plen, j))
    ensures (forall x :: In(w, x, n) ==> exists i :: 0 <= i < ChildCount(w, n, plen) && In(w, x, Child(w, n, plen, i)))
      <==> plen < w
  {
    var d, h := plen - n.plen, w - plen;
    forall i, j | 0 <= i < j < ChildCount(w, n, plen)
      ensures Disjoint(w, Child(w, n, plen, i), Child(w, n, plen, j))
    {
      ShlLinear(i, j, h);
    }
    ShlPow2(d, h);
    if plen < w {
      forall x | In(w, x, n)
        ensures exists i :: 0 <= i < ChildCount(w, n, plen) && In(w, x, Child(w, n, plen, i))
      {
        var i := Quotient(RoundDown(x - n.addr, h), h);
        ShlLinear(Pow2(d), i, h);
        assert In(w, x, Child(w, n, plen, i));
      }
    } else {
      var x := n.addr + Pow2(d) - 1;
      assert In(w, x, n);
    }
  }

  // ----- address_exclude

  function LowHalf(n: Net): Net { Net(n.addr, n.plen + 1) }

  function HighHalf(w: nat, n: Net): Net
    requires n.plen < w
  {
    Net(n.addr + Pow2(w - n.plen - 1), n.plen + 1)
  }

  lemma Halves(w: nat, n: Net)
    requires ValidNet(w, n) && n.plen < w
    ensures ValidNet(w, LowHalf(n)) && ValidNet(w, HighHalf(w, n))
    ensures Size(w, n) == 2 * Pow2(w - n.plen - 1)
    ensures Children(w, n, n.plen + 1) == if n.plen + 1 == w then [LowHalf(n)] else [LowHalf(n), HighHalf(w, n)]
  {
    assert Pow2(1) == 2;
    ChildInside(w, n, n.plen + 1, 0);
    ChildInside(w, n, n.plen + 1, 1);
    ShlLinear(0, 1, w - n.plen - 1);
    var c := Children(w, n, n.plen + 1);
    assert n.plen + 1 < w ==> |c| == 2 && c[0] == LowHalf(n) && c[1] == HighHalf(w, n);
    assert n.plen + 1 == w ==> |c| == 1 && c[0] == LowHalf(n);
  }

  /** `s1, s2 = n.subnets()`. */
  method Unpack(w: nat, n: Net) returns (r: Result<(Net, Net)>)
    requires ValidNet(w, n)
    ensures r == if n.plen + 1 < w then Ok((LowHalf(n), HighHalf(w, n))) else Err(UnpackError)
    ensures r.Ok? ==> ValidNet(w, r.value.0) && ValidNet(w, r.value.1)
  {
    var halves := Subnets(w, n);
    assert halves.Ok?;
    if n.plen < w { Halves(w, n); }
    if |halves.value| != 2 { return Err(UnpackError); }
    return Ok((halves.value[0], halves.value[1]));
  }

  /** The excluded remainder: blocks[i] has prefix length top.plen + 1 + i, the
      blocks are disjoint from each other and from `rest`, and with `rest` they
      make up `top`. */
  ghost predicate Peels(w: nat, top: Net, blocks: seq<Net>, rest: Net)
    requires top.plen <= w && rest.plen <= w
  {
    && top.plen + |blocks| <= w
    && (forall i :: 0 <= i < |blocks| ==> blocks[i].plen == top.plen + 1 + i && ValidNet(w, blocks[i]))
    && (forall i :: 0 <= i < |blocks| ==> Disjoint(w, blocks[i], rest) && Inside(w, blocks[i], top))
    && (forall i, j :: 0 <= i < j < |blocks| ==> Disjoint(w, blocks[i], blocks[j]))
    && (forall x :: In(w, x, top) ==> In(w, x, rest) || exists i :: 0 <= i < |blocks| && In(w, x, blocks[i]))
  }

  lemma PeelCovers(w: nat, top: Net, blocks: seq<Net>, rest: Net, keep: Net, drop: Net, x: int)
    requires top.plen <= w && rest.plen <= w && keep.plen <= w && drop.plen <= w && Peels(w, top, blocks, rest)
    requires (In(w, x, rest) ==> In(w, x, keep) || In(w, x, drop)) && In(w, x, top) && !In(w, x, keep)
    requires forall i :: 0 <= i < |blocks| ==> blocks[i].plen <= w
    ensures exists i :: 0 <= i < |blocks + [drop]| && (blocks + [drop])[i].plen <= w && In(w, x, (blocks + [drop])[i])
  {
    var bs := blocks + [drop];
    if In(w, x, rest) {
      assert bs[|blocks|] == drop;
    } else {
      var i :| 0 <= i < |blocks| && In(w, x, blocks[i]);
      assert bs[i] == blocks[i];
    }
  }

  lemma PeelHalf(w: nat, top: Net, blocks: seq<Net>, rest: Net, keep: Net, drop: Net)
    requires ValidNet(w, top) && ValidNet(w, rest) && rest.plen < w && Inside(w, rest, top)
    requires rest.plen == top.plen + |blocks|
    requires Peels(w, top, blocks, rest)
    requires (keep == LowHalf(rest) && drop == HighHalf(w, rest)) ||
      (drop == LowHalf(rest) && keep == HighHalf(w, rest))
    ensures Peels(w, top, blocks + [drop], keep)
    ensures Inside(w, keep, top)
  {
    Halves(w, rest);
    var bs := blocks + [drop];
    assert bs[|blocks|] == drop;
    forall x | In(w, x, top) && !In(w, x, keep) ensures exists i :: 0 <= i < |bs| && In(w, x, bs[i]) {
      PeelCovers(w, top, blocks, rest, keep, drop, x);
    }
  }

  lemma InAHalf(w: nat, n: Net, other: Net)
    requires ValidNet(w, n) && ValidNet(w, other) && Inside(w, other, n) && other != n
    ensures n.plen < w && other.plen > n.plen
    ensures ValidNet(w, LowHalf(n)) && ValidNet(w, HighHalf(w, n))
    ensures Inside(w, other, LowHalf(n)) || Inside(w, other, HighHalf(w, n))
  {
    InsidePrefix(w, other, n);
    Halves(w, n);
    Laminar(w, other, LowHalf(n));
    Laminar(w, other, HighHalf(w, n));
  }

  /** The loop's state: `rest` is the part of `top` around `other` that is not
      yet split off into `blocks`. */
  ghost predicate Excluding(w: nat, top: Net, other: Net, blocks: seq<Net>, rest: Net) {
    && ValidNet(w, top) && ValidNet(w, other) && ValidNet(w, rest)
    && Inside(w, rest, top) && Inside(w, other, rest)
    && rest.plen == top.plen + |blocks|
    && Peels(w, top, blocks, rest)
  }

  lemma ExcludeStep(w: nat, top: Net, other: Net, blocks: seq<Net>, rest: Net)
    requires Excluding(w, top, other, blocks, rest) && other != rest
    ensures rest.plen < w && ValidNet(w, LowHalf(rest)) && ValidNet(w, HighHalf(w, rest))
    ensures Inside(w, other, LowHalf(rest)) ==> Excluding(w, top, other, blocks + [HighHalf(w, rest)], LowHalf(rest))
    ensures Inside(w, other, HighHalf(w, rest)) ==>
      Excluding(w, top, other, blocks + [LowHalf(rest)], HighHalf(w, rest))
    ensures Inside(w, other, LowHalf(rest)) || Inside(w, other, HighHalf(w, rest))
  {
    InAHalf(w, rest, other);
    PeelHalf(w, top, blocks, rest, LowHalf(rest), HighHalf(w, rest));
    PeelHalf(w, top, blocks, rest, HighHalf(w, rest), LowHalf(rest));
  }

  /** The generator's outcome once `other` is known to lie strictly inside. */
  ghost predicate Excluded(w: nat, self: Net, other: Net, yielded: seq<Net>, error: Option<Error>) {
    if other.plen < w then error == None && Excluding(w, self, other, yielded, other)
    else error == Some(UnpackError) && w > 0 && other.addr < Pow2(w)
         && Excluding(w, self, other, yielded, BlockAt(w, other.addr, w - 1))
  }

  /** A block around a single address that cannot be unpacked is the pair. */
  lemma StuckAtPair(w: nat, top: Net, other: Net, blocks: seq<Net>, rest: Net)
    requires Excluding(w, top, other, blocks, rest) && other != rest && rest.plen + 1 >= w
    ensures Excluded(w, top, other, blocks, Some(UnpackError))
  {
    InsidePrefix(w, other, rest);
    BlockAtUnique(w, other.addr, rest);
  }

  /** address_exclude, as the networks it yields and the exception that ends it,
      if any. It succeeds exactly when `other` is inside and is either the
      network itself or more than a single address; for a single address it
      fails at the last split, after the blocks down to the pair around it. The
      two AssertionErrors are never raised. */
  method AddressExclude(w: nat, self: Net, other: Net) returns (yielded: seq<Net>, error: Option<Error>)
    requires ValidNet(w, self) && ValidNet(w, other)
    ensures !Inside(w, other, self) ==> yielded == [] && error == Some(ValueError)
    ensures other == self ==> yielded == [] && error == None
    ensures Inside(w, other, self) && other != self ==> Excluded(w, self, other, yielded, error)
  {
    yielded := [];
    if !SubnetOf(w, other, self) { return [], Some(ValueError); }
    if other == self { return [], None; }
    ExcludeStep(w, self, other, [], self);
    var halves := Unpack(w, self);
    if halves.Err? {
      StuckAtPair(w, self, other, [], self);
      return [], Some(halves.error);
    }
    var (s1, s2) := halves.value;
    ghost var rest := self;
    while s1 != other && s2 != other
      invariant Excluding(w, self, other, yielded, rest) && other != rest
      invariant rest.plen + 1 < w && s1 == LowHalf(rest) && s2 == HighHalf(w, rest)
      decreases w - rest.plen
    {
      ExcludeStep(w, self, other, yielded, rest);
      if SubnetOf(w, other, s1) {
        yielded, rest := yielded + [s2], s1;
        halves := Unpack(w, s1);
      } else if SubnetOf(w, other, s2) {
        yielded, rest := yielded + [s1], s2;
        halves := Unpack(w, s2);
      } else {
        return yielded, Some(AssertionError);
      }
      if halves.Err? {
        StuckAtPair(w, self, other, yielded, rest);
        return yielded, Some(halves.error);
      }
      s1, s2 := halves.value.0, halves.value.1;
    }
    ExcludeStep(w, self, other, yielded, rest);
    if s1 == other {
      return yielded + [s2], None;
    } else if s2 == other {
      return yielded + [s1], None;
    } else {
      return yielded, Some(AssertionError);
    }
  }

  /** What a successful exclusion gives: one block per prefix length between the
      two, disjoint, and together with `other` exactly the network. */
  lemma ExcludeExact(w: nat, self: Net, other: Net, yielded: seq<Net>, error: Option<Error>)
    requires ValidNet(w, self) && ValidNet(w, other) && Inside(w, other, self) && other != self
    requires Excluded(w, self, other, yielded, error)
    ensures error == None <==> other.plen < w
    ensures error != Some(AssertionError)
    ensures error == None ==>
      && |yielded| == other.plen - self.plen
      && (forall i :: 0 <= i < |yielded| ==> ValidNet(w, yielded[i]) && yielded[i].plen == self.plen + 1 + i)
      && (forall i, j :: 0 <= i < j < |yielded| ==> Disjoint(w, yielded[i], yielded[j]))
      && (forall x :: In(w, x, self) && !In(w, x, other) <==> exists i :: 0 <= i < |yielded| && In(w, x, yielded[i]))
  {
    if error == None {
      forall x | exists i :: 0 <= i < |yielded| && In(w, x, yielded[i])
        ensures In(w, x, self) && !In(w, x, other)
      {
        var i :| 0 <= i < |yielded| && In(w, x, yielded[i]);
        assert Disjoint(w, yielded[i], other) && Inside(w, yielded[i], self);
      }
    }
  }

  /** A concrete refusal, at every width: excluding the first address of 0/(w - 2),
      for IPv4 0.0.0.0/32 from 0.0.0.0/30, yields the upper pair and then fails. */
  lemma FirstAddressRefused(w: nat, yielded: seq<Net>, error: Option<Error>)
    requires w >= 2 && Excluded(w, Net(0, w - 2), Net(0, w), yielded, error)
    ensures ValidNet(w, Net(0, w - 2)) && ValidNet(w, Net(0, w)) && Inside(w, Net(0, w), Net(0, w - 2))
    ensures error == Some(UnpackError) && yielded == [Net(2, w - 1)]
  {
    var pair, n := BlockAt(w, 0, w - 1), yielded[0];
    assert Pow2(1) == 2 && Pow2(2) == 4 && Pow2(0) == 1;
    assert Aligned(n.addr, 1) && n.addr < 4 && pair.addr == 0;
    assert n.addr == 2 by { assert n.addr % 2 == 0 && Disjoint(w, n, pair); }
  }
}
