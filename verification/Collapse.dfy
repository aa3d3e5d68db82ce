/** Collapsing a list of addresses and networks: the merge of siblings through a
    dictionary keyed by supernet, and the sweep over the sorted survivors. */
module Collapse {
  import opened Wrappers
  import opened Bits
  import opened Cidr

  import opened Summarize

  datatype Item = Address(ip: nat) | Network(net: Net)

  predicate ValidItem(w: nat, i: Item) {
    match i
    case Address(ip) => ip < Pow2(w)
    case Network(n) => ValidNet(w, n)
  }

  predicate Holds(w: nat, i: Item, x: int) {
    match i
    case Address(ip) => x == ip
    case Network(n) => n.plen <= w && In(w, x, n)
  }

  /** The addresses of a list of items. */
  ghost function Union(w: nat, items: seq<Item>): iset<int> {
    iset x | InItems(w, items, x)
  }

  ghost predicate InItems(w: nat, items: seq<Item>, x: int) {
    exists i :: i in items && Holds(w, i, x)
  }

  ghost predicate InSome(w: nat, nets: seq<Net>, x: int) {
    exists n :: n in nets && n.plen <= w && In(w, x, n)
  }

  ghost function NetUnion(w: nat, nets: seq<Net>): iset<int> {
    iset x | InSome(w, nets, x)
  }

  // ----- the merge

  /** The dictionary: each network is stored under its supernet. */
  ghost predicate Keyed(w: nat, subnets: map<Net, Net>) {
    forall k :: k in subnets ==> ValidNet(w, subnets[k]) && Supernet(w, subnets[k]) == Ok(k)
  }

  ghost predicate InDict(w: nat, subnets: map<Net, Net>, x: int)
    requires Keyed(w, subnets)
  {
    exists k :: k in subnets && In(w, x, subnets[k])
  }

  /** A network one level below another is one of its halves. */
  lemma IsHalf(w: nat, up: Net, n: Net)
    requires ValidNet(w, up) && ValidNet(w, n) && Inside(w, n, up) && n.plen == up.plen + 1
    ensures n == LowHalf(up) || n == HighHalf(w, up)
  {
    InAHalf(w, up, n);
    if Inside(w, n, LowHalf(up)) { InsidePrefix(w, n, LowHalf(up)); } else { InsidePrefix(w, n, HighHalf(w, up)); }
  }

  lemma HalvesCover(w: nat, up: Net, x: int)
    requires ValidNet(w, up) && up.plen < w
    ensures ValidNet(w, LowHalf(up)) && ValidNet(w, HighHalf(w, up))
    ensures In(w, x, up) <==> In(w, x, LowHalf(up)) || In(w, x, HighHalf(w, up))
  {
    Halves(w, up);
  }

  /** Two different networks with the same supernet make it up. */
  lemma SiblingsMerge(w: nat, a: Net, b: Net, up: Net, x: int)
    requires ValidNet(w, a) && ValidNet(w, b) && a != b
    requires Supernet(w, a) == Ok(up) && Supernet(w, b) == Ok(up)
    ensures ValidNet(w, up) && (In(w, x, up) <==> In(w, x, a) || In(w, x, b))
  {
    if a.plen > 0 && b.plen > 0 {
      IsHalf(w, up, a);
      IsHalf(w, up, b);
      HalvesCover(w, up, x);
    }
  }

  lemma InSomeSplit(w: nat, nets: seq<Net>, last: Net, x: int)
    ensures InSome(w, nets + [last], x) <==> InSome(w, nets, x) || (last.plen <= w && In(w, x, last))
  {
    if InSome(w, nets, x) {
      var n :| n in nets && n.plen <= w && In(w, x, n);
      assert n in nets + [last];
    }
    assert last in nets + [last];
  }

  lemma KeyedAdd(w: nat, subnets: map<Net, Net>, k: Net, net: Net)
    requires Keyed(w, subnets) && ValidNet(w, net) && Supernet(w, net) == Ok(k)
    ensures Keyed(w, subnets[k := net])
  {}

  lemma InDictAdd(w: nat, subnets: map<Net, Net>, k: Net, net: Net, x: int)
    requires Keyed(w, subnets) && k !in subnets && ValidNet(w, net) && Supernet(w, net) == Ok(k)
    ensures Keyed(w, subnets[k := net])
    ensures InDict(w, subnets[k := net], x) <==> InDict(w, subnets, x) || In(w, x, net)
  {
    KeyedAdd(w, subnets, k, net);
    var s := subnets[k := net];
    if InDict(w, subnets, x) {
      var j :| j in subnets && In(w, x, subnets[j]);
      assert j in s && s[j] == subnets[j];
    }
    assert k in s && s[k] == net;
  }

  /** The addresses of the dictionary and of the list still to merge, together,
      are those of `addresses`. */
  ghost predicate Merging(w: nat, addresses: seq<Net>, toMerge: seq<Net>, subnets: map<Net, Net>) {
    && (forall n :: n in toMerge ==> ValidNet(w, n))
    && Keyed(w, subnets)
    && (forall x :: InDict(w, subnets, x) || InSome(w, toMerge, x) <==> InSome(w, addresses, x))
  }

  lemma StoreNet(w: nat, addresses: seq<Net>, toMerge: seq<Net>, subnets: map<Net, Net>, net: Net, up: Net)
    requires Merging(w, addresses, toMerge + [net], subnets) && ValidNet(w, net) && Supernet(w, net) == Ok(up)
    requires up !in subnets
    ensures Merging(w, addresses, toMerge, subnets[up := net])
  {
    forall n | n in toMerge ensures ValidNet(w, n) { assert n in toMerge + [net]; }
    InDictAdd(w, subnets, up, net, 0);
    forall x ensures InDict(w, subnets[up := net], x) || InSome(w, toMerge, x) <==> InSome(w, addresses, x) {
      InSomeSplit(w, toMerge, net, x);
      InDictAdd(w, subnets, up, net, x);
    }
  }

  lemma JoinNet(w: nat, addresses: seq<Net>, toMerge: seq<Net>, subnets: map<Net, Net>, net: Net, up: Net, other: Net)
    requires Merging(w, addresses, toMerge + [net], subnets[up := other]) && up !in subnets
    requires ValidNet(w, net) && Supernet(w, net) == Ok(up) && other != net
    ensures Merging(w, addresses, toMerge + [up], subnets)
  {
    var d := subnets[up := other];
    assert ValidNet(w, other) && Supernet(w, other) == Ok(up) by { assert up in d && d[up] == other; }
    forall k | k in subnets ensures ValidNet(w, subnets[k]) && Supernet(w, subnets[k]) == Ok(k) {
      assert d[k] == subnets[k];
    }
    forall n | n in toMerge + [up] ensures ValidNet(w, n) { assert n in toMerge ==> n in toMerge + [net]; }
    forall x ensures InDict(w, subnets, x) || InSome(w, toMerge + [up], x) <==> InSome(w, addresses, x) {
      InSomeSplit(w, toMerge, net, x);
      InSomeSplit(w, toMerge, up, x);
      InDictAdd(w, subnets, up, other, x);
      SiblingsMerge(w, net, other, up, x);
    }
  }

  lemma TakeOut(subnets: map<Net, Net>, k: Net)
    requires k in subnets
    ensures (subnets - {k})[k := subnets[k]] == subnets && |subnets - {k}| == |subnets| - 1
  {
    var rest := subnets - {k};
    assert rest[k := subnets[k]] == subnets;
    assert rest.Keys == subnets.Keys - {k};
  }

  lemma DropNet(w: nat, addresses: seq<Net>, toMerge: seq<Net>, subnets: map<Net, Net>, net: Net, up: Net)
    requires Merging(w, addresses, toMerge + [net], subnets) && up in subnets && subnets[up] == net
    ensures Merging(w, addresses, toMerge, subnets)
  {
    forall n | n in toMerge ensures ValidNet(w, n) { assert n in toMerge + [net]; }
    forall x ensures InDict(w, subnets, x) || InSome(w, toMerge, x) <==> InSome(w, addresses, x) {
      InSomeSplit(w, toMerge, net, x);
      assert In(w, x, net) ==> InDict(w, subnets, x);
    }
  }

  /** The first phase. It keeps the addresses covered and leaves at most one
      network under each supernet. */
  method Merge(w: nat, addresses: seq<Net>) returns (subnets: map<Net, Net>)
    requires forall n :: n in addresses ==> ValidNet(w, n)
    ensures Merging(w, addresses, [], subnets)
  {
    var toMerge := addresses;
    subnets := map[];
    while toMerge != []
      invariant Merging(w, addresses, toMerge, subnets)
      decreases 2 * |toMerge| + |subnets|
    {
      var net := toMerge[|toMerge| - 1];
      assert toMerge == toMerge[..|toMerge| - 1] + [net];
      toMerge := toMerge[..|toMerge| - 1];
      assert ValidNet(w, net);
      var supernet := Supernet(w, net).value;
      if supernet !in subnets {
        StoreNet(w, addresses, toMerge, subnets, net, supernet);
        subnets := subnets[supernet := net];
      } else if subnets[supernet] != net {
        ghost var other := subnets[supernet];
        TakeOut(subnets, supernet);
        subnets := subnets - {supernet};
        JoinNet(w, addresses, toMerge, subnets, net, supernet, other);
        toMerge := toMerge + [supernet];
      } else {
        DropNet(w, addresses, toMerge, subnets, net, supernet);
      }
    }
  }

  /** After the merge, every block of covered addresses lies in one of the
      surviving networks: otherwise its halves would both be there as siblings. */
  lemma {:induction false} MergedHolds(w: nat, subnets: map<Net, Net>, m: Net) returns (k: Net)
    requires Keyed(w, subnets) && ValidNet(w, m)
    requires forall x :: In(w, x, m) ==> InDict(w, subnets, x)
    ensures k in subnets && Inside(w, m, subnets[k])
    decreases w - m.plen
  {
    assert In(w, m.addr, m);
    if m.plen == w {
      k :| k in subnets && In(w, m.addr, subnets[k]);
    } else {
      Halves(w, m);
      var lo, hi := LowHalf(m), HighHalf(w, m);
      assert forall x :: In(w, x, lo) || In(w, x, hi) ==> In(w, x, m);
      var k1 := MergedHolds(w, subnets, lo);
      var k2 := MergedHolds(w, subnets, hi);
      var v1, v2 := subnets[k1], subnets[k2];
      InsidePrefix(w, lo, v1);
      InsidePrefix(w, hi, v2);
      if v1.plen <= m.plen {
        Nested(w, m, v1, lo.addr);
        k := k1;
      } else {
        SupernetUnique(w, lo, 1, m);
        SupernetUnique(w, hi, 1, m);
        Nested(w, m, v2, hi.addr);
        k := k2;
      }
    }
  }

  // ----- sorted()

  /** The order of network objects: by address, then by netmask. */
  predicate Less(w: nat, a: Net, b: Net)
    requires a.plen <= w && b.plen <= w
  {
    if a.addr != b.addr then a.addr < b.addr else Netmask(w, a.plen) < Netmask(w, b.plen)
  }

  lemma LessMeans(w: nat, a: Net, b: Net)
    requires a.plen <= w && b.plen <= w
    ensures Less(w, a, b) <==> a.addr < b.addr || (a.addr == b.addr && a.plen < b.plen)
  {
    Pow2Order(w - a.plen, w - b.plen);
  }

  predicate Before(a: Net, b: Net) {
    a.addr < b.addr || (a.addr == b.addr && a.plen < b.plen)
  }

  ghost predicate Sorted(nets: seq<Net>) {
    forall i, j :: 0 <= i < j < |nets| ==> Before(nets[i], nets[j])
  }

  /** sorted() on distinct networks. */
  method SortNets(w: nat, nets: set<Net>) returns (r: seq<Net>)
    requires forall n :: n in nets ==> n.plen <= w
    ensures Sorted(r) && forall n :: n in r <==> n in nets
  {
    r := [];
    var left := nets;
    while left != {}
      invariant left <= nets && Sorted(r)
      invariant forall n :: n in r <==> n in nets && n !in left
      decreases left
    {
      var n :| n in left;
      r := InsertNet(w, r, n);
      left := left - {n};
    }
  }

  method InsertNet(w: nat, nets: seq<Net>, n: Net) returns (r: seq<Net>)
    requires n.plen <= w && n !in nets && Sorted(nets) && forall m :: m in nets ==> m.plen <= w
    ensures Sorted(r) && forall m :: m in r <==> m == n || m in nets
  {
    var i := 0;
    while i < |nets| && Less(w, nets[i], n)
      invariant 0 <= i <= |nets|
      invariant forall j :: 0 <= j < i ==> Before(nets[j], n)
    {
      LessMeans(w, nets[i], n);
      i := i + 1;
    }
    if i < |nets| { LessMeans(w, nets[i], n); }
    r := nets[..i] + [n] + nets[i..];
  }

  // ----- the sweep

  lemma KeepsAscending(w: nat, last: Net, net: Net)
    requires ValidNet(w, last) && ValidNet(w, net) && Before(last, net)
    requires Broadcast(w, last) < Broadcast(w, net)
    ensures last.addr + Size(w, last) <= net.addr
  {
    if net.addr < last.addr + Size(w, last) {
      assert In(w, net.addr, last) && In(w, net.addr, net);
      Nested(w, last, net, net.addr);
    }
  }

  ghost predicate AllHeld(w: nat, r: seq<Net>, nets: seq<Net>) {
    forall n {:trigger Held(w, r, n)} :: n in nets ==> Held(w, r, n)
  }

  lemma KeepNet(w: nat, r: seq<Net>, nets: seq<Net>, net: Net)
    requires AllHeld(w, r, nets) && net.plen <= w
    ensures AllHeld(w, r + [net], nets + [net])
  {
    forall n | n in nets + [net] ensures Held(w, r + [net], n) {
      if n in nets {
        assert Held(w, r, n);
        var q :| q in r && q.plen <= w && Inside(w, n, q);
        assert q in r + [net];
      } else {
        assert net in r + [net] && Inside(w, n, net);
      }
    }
  }

  lemma SkipNet(w: nat, r: seq<Net>, nets: seq<Net>, net: Net, q: Net)
    requires AllHeld(w, r, nets) && net.plen <= w && q in r && q.plen <= w && Inside(w, net, q)
    ensures AllHeld(w, r, nets + [net])
  {
    assert Held(w, r, net);
  }

  /** The second phase: networks inside an earlier one are skipped. */
  method Sweep(w: nat, nets: seq<Net>) returns (r: seq<Net>)
    requires Sorted(nets) && forall n :: n in nets ==> ValidNet(w, n)
    ensures Ascending(w, r)
    ensures forall n :: n in r ==> n in nets
    ensures AllHeld(w, r, nets)
  {
    r := [];
    var last: Option<Net> := None;
    for i := 0 to |nets|
      invariant Ascending(w, r)
      invariant forall n :: n in r ==> n in nets[..i]
      invariant last == if r == [] then None else Some(r[|r| - 1])
      invariant last.Some? ==> ValidNet(w, last.value) && last.value in nets[..i]
      invariant AllHeld(w, r, nets[..i])
    {
      var net := nets[i];
      assert nets[..i + 1] == nets[..i] + [net];
      assert ValidNet(w, net);
      if last.Some? && Broadcast(w, last.value) >= Broadcast(w, net) {
        assert Before(last.value, net);
        SkipNet(w, r, nets[..i], net, last.value);
      } else {
        if last.Some? { KeepsAscending(w, last.value, net); }
        KeepNet(w, r, nets[..i], net);
        r := r + [net];
        last := Some(net);
      }
    }
    assert nets[..|nets|] == nets;
  }

  /** _collapse_addresses_internal returns the canonical form of its input. */
  method CollapseInternal(w: nat, addresses: seq<Net>) returns (r: seq<Net>)
    requires forall n :: n in addresses ==> ValidNet(w, n)
    ensures Canonical(w, NetUnion(w, addresses), r)
  {
    var subnets := Merge(w, addresses);
    var values := SortNets(w, subnets.Values);
    r := Sweep(w, values);
    SweptIsCanonical(w, addresses, subnets, values, r);
  }

  lemma SweptIsCanonical(w: nat, addresses: seq<Net>, subnets: map<Net, Net>, values: seq<Net>, r: seq<Net>)
    requires Merging(w, addresses, [], subnets)
    requires forall n :: n in values <==> n in subnets.Values
    requires Ascending(w, r) && forall n :: n in r ==> n in values
    requires AllHeld(w, r, values)
    ensures Canonical(w, NetUnion(w, addresses), r)
  {
    var u := NetUnion(w, addresses);
    assert forall x :: !InSome(w, [], x);
    forall n | n in r ensures ValidNet(w, n) && Within(w, n, u) {
      assert n in subnets.Values;
      forall x | In(w, x, n) ensures x in u { assert InDict(w, subnets, x); }
    }
    forall m | ValidNet(w, m) && Within(w, m, u) ensures Held(w, r, m) {
      forall x | In(w, x, m) ensures InDict(w, subnets, x) { assert x in u; }
      var k := MergedHolds(w, subnets, m);
      var v := subnets[k];
      assert v in subnets.Values;
      assert Held(w, r, v);
      var q :| q in r && q.plen <= w && Inside(w, v, q);
      assert Inside(w, m, q);
    }
    CanonicalIf(w, u, r);
  }

  // ----- collapse_addresses

  ghost predicate Increasing(s: seq<nat>) { forall i, j :: 0 <= i < j < |s| ==> s[i] < s[j] }

  /** `sorted(set(ips))`. */
  method SortedSet(ips: seq<nat>) returns (r: seq<nat>)
    ensures Increasing(r) && forall x :: x in r <==> x in ips
  {
    r := [];
    for k := 0 to |ips|
      invariant Increasing(r) && forall x :: x in r <==> x in ips[..k]
    {
      assert ips[..k + 1] == ips[..k] + [ips[k]];
      if ips[k] !in r {
        var i := 0;
        while i < |r| && r[i] < ips[k]
          invariant 0 <= i <= |r| && forall j :: 0 <= j < i ==> r[j] < ips[k]
        {
          i := i + 1;
        }
        r := r[..i] + [ips[k]] + r[i..];
      }
    }
  }

  /** The runs of consecutive addresses: they hold exactly the addresses, in
      order, and no two could be joined. */
  ghost predicate Runs(ips: seq<nat>, runs: seq<(nat, nat)>) {
    && (forall i :: 0 <= i < |runs| ==> runs[i].0 <= runs[i].1)
    && (forall i, j :: 0 <= i < j < |runs| ==> runs[i].1 + 1 < runs[j].0)
    && (forall x: nat :: x in ips <==> InRuns(runs, x))
  }

  ghost predicate InRuns(runs: seq<(nat, nat)>, x: int) {
    exists i :: 0 <= i < |runs| && runs[i].0 <= x <= runs[i].1
  }

  lemma InRunsAppend(runs: seq<(nat, nat)>, r: (nat, nat), x: int)
    ensures InRuns(runs + [r], x) <==> InRuns(runs, x) || r.0 <= x <= r.1
  {
    var a := runs + [r];
    if InRuns(runs, x) {
      var i :| 0 <= i < |runs| && runs[i].0 <= x <= runs[i].1;
      assert a[i].0 <= x <= a[i].1;
    }
    assert a[|runs|] == r;
  }

  lemma ExtendRun(ips: seq<nat>, runs: seq<(nat, nat)>, first: nat, last: nat)
    requires Runs(ips, runs + [(first, last)])
    ensures Runs(ips + [last + 1], runs + [(first, last + 1)])
  {
    var from, to := runs + [(first, last)], runs + [(first, last + 1)];
    var more := ips + [last + 1];
    forall x: nat ensures x in more <==> InRuns(to, x) {
      InRunsAppend(runs, (first, last), x);
      InRunsAppend(runs, (first, last + 1), x);
    }
    assert from[|runs|] == (first, last);
    forall i | 0 <= i < |runs| ensures from[i] == to[i] {}
  }

  lemma AddRun(ips: seq<nat>, runs: seq<(nat, nat)>, ip: nat)
    requires Runs(ips, runs) && (|runs| > 0 ==> runs[|runs| - 1].1 + 1 < ip)
    ensures Runs(ips + [ip], runs + [(ip, ip)])
  {
    forall x: nat ensures x in ips + [ip] <==> InRuns(runs + [(ip, ip)], x) {
      InRunsAppend(runs, (ip, ip), x);
    }
  }

  /** _find_address_range on a sorted list without duplicates. */
  method FindAddressRange(ips: seq<nat>) returns (runs: seq<(nat, nat)>)
    requires ips != [] && Increasing(ips)
    ensures Runs(ips, runs)
  {
    runs := [];
    var first, last := ips[0], ips[0];
    AddRun([], [], ips[0]);
    assert ips[..1] == [ips[0]];
    for k := 1 to |ips|
      invariant last == ips[k - 1] && Runs(ips[..k], runs + [(first, last)])
    {
      var ip := ips[k];
      assert ips[..k + 1] == ips[..k] + [ip];
      if ip != last + 1 {
        AddRun(ips[..k], runs + [(first, last)], ip);
        runs := runs + [(first, last)];
        first := ip;
      } else {
        ExtendRun(ips[..k], runs, first, last);
      }
      last := ip;
    }
    assert ips[..|ips|] == ips;
    runs := runs + [(first, last)];
  }

  lemma GreedyUnion(w: nat, first: nat, last: nat, x: int)
    requires first <= last < Pow2(w)
    ensures InSome(w, Greedy(w, first, last), x) <==> first <= x <= last
  {
    SummaryCanonical(w, first, last);
    CanonicalTiles(w, Range(first, last), Greedy(w, first, last), x);
    assert x in Range(first, last) <==> Between(x, first, last);
    GreedyAscending(w, first, last);
  }

  /** The summaries of all runs of a list of addresses. */
  method SummarizeRuns(w: nat, ips: seq<nat>) returns (addrs: seq<Net>)
    requires Increasing(ips) && forall x :: x in ips ==> x < Pow2(w)
    ensures forall n :: n in addrs ==> ValidNet(w, n)
    ensures forall x: int :: InSome(w, addrs, x) <==> x >= 0 && x in ips
  {
    addrs := [];
    if ips == [] { return; }
    var runs := FindAddressRange(ips);
    for k := 0 to |runs|
      invariant forall n :: n in addrs ==> ValidNet(w, n)
      invariant forall x: int :: InSome(w, addrs, x) <==> InRuns(runs[..k], x)
    {
      var (first, last) := runs[k];
      assert InRuns(runs, last);
      assert runs[..k + 1] == runs[..k] + [runs[k]];
      var nets := SummarizeAddressRange(w, first, last);
      ghost var before := addrs;
      addrs := addrs + nets.value;
      GreedyAscending(w, first, last);
      assert forall n :: n in nets.value ==> ValidNet(w, n);
      forall x: int ensures InSome(w, addrs, x) <==> InRuns(runs[..k + 1], x) {
        GreedyUnion(w, first, last, x);
        InSomeConcat(w, before, nets.value, x);
        InRunsAppend(runs[..k], runs[k], x);
      }
    }
    assert runs[..|runs|] == runs;
  }

  lemma InSomeConcat(w: nat, a: seq<Net>, b: seq<Net>, x: int)
    ensures InSome(w, a + b, x) <==> InSome(w, a, x) || InSome(w, b, x)
  {
    if InSome(w, a, x) {
      var n :| n in a && n.plen <= w && In(w, x, n);
      assert n in a + b;
    }
    if InSome(w, b, x) {
      var n :| n in b && n.plen <= w && In(w, x, n);
      assert n in a + b;
    }
  }

  /** The union of a list split into single addresses and networks. */
  ghost predicate Splits(w: nat, items: seq<Item>, ips: seq<nat>, nets: seq<Net>) {
    && (forall n :: n in nets ==> ValidNet(w, n))
    && (forall x :: x in ips ==> x < Pow2(w))
    && (forall x: int :: (x >= 0 && x in ips) || InSome(w, nets, x) <==> x in Union(w, items))
  }

  lemma SplitAddress(w: nat, items: seq<Item>, ips: seq<nat>, nets: seq<Net>, i: Item, ip: nat)
    requires Splits(w, items, ips, nets) && ip < Pow2(w) && forall x: int :: Holds(w, i, x) <==> x == ip
    ensures Splits(w, items + [i], ips + [ip], nets)
  {
    forall x: int ensures (x >= 0 && x in ips + [ip]) || InSome(w, nets, x) <==> x in Union(w, items + [i]) {
      UnionAdd(w, items, i, x);
    }
  }

  lemma SplitNetwork(w: nat, items: seq<Item>, ips: seq<nat>, nets: seq<Net>, n: Net)
    requires Splits(w, items, ips, nets) && ValidNet(w, n)
    ensures Splits(w, items + [Network(n)], ips, nets + [n])
  {
    forall x: int ensures (x >= 0 && x in ips) || InSome(w, nets + [n], x) <==> x in Union(w, items + [Network(n)]) {
      UnionAdd(w, items, Network(n), x);
      InSomeSplit(w, nets, n, x);
    }
  }

  lemma UnionAdd(w: nat, items: seq<Item>, i: Item, x: int)
    ensures x in Union(w, items + [i]) <==> x in Union(w, items) || Holds(w, i, x)
  {
    if x in Union(w, items) {
      var j :| j in items && Holds(w, j, x);
      assert j in items + [i];
    }
    assert i in items + [i];
  }

  /** collapse_addresses on addresses and networks of one version: the canonical
      form of their union. */
  method CollapseAddresses(w: nat, items: seq<Item>) returns (r: seq<Net>)
    requires forall i :: i in items ==> ValidItem(w, i)
    ensures Canonical(w, Union(w, items), r)
  {
    var ips: seq<nat>, nets: seq<Net> := [], [];
    for k := 0 to |items|
      invariant Splits(w, items[..k], ips, nets)
    {
      assert items[..k + 1] == items[..k] + [items[k]];
      assert ValidItem(w, items[k]);
      match items[k]
      case Address(ip) =>
        SplitAddress(w, items[..k], ips, nets, items[k], ip);
        ips := ips + [ip];
      case Network(n) =>
        if n.plen == w {
          SplitAddress(w, items[..k], ips, nets, items[k], n.addr);
          ips := ips + [n.addr];
        } else {
          SplitNetwork(w, items[..k], ips, nets, n);
          nets := nets + [n];
        }
    }
    assert items[..|items|] == items;
    ips := SortedSet(ips);
    var addrs := SummarizeRuns(w, ips);
    r := CollapseInternal(w, addrs + nets);
    forall x: int ensures x in NetUnion(w, addrs + nets) <==> x in Union(w, items) {
      InSomeConcat(w, addrs, nets, x);
    }
    assert NetUnion(w, addrs + nets) == Union(w, items);
  }

  // ----- what follows for every result of collapse_addresses

  /** The result depends on the union of the inputs only: not on their order, on
      duplicates or on how the union is cut up. */
  lemma CollapseByUnion(w: nat, a: seq<Item>, ra: seq<Net>, b: seq<Item>, rb: seq<Net>)
    requires Canonical(w, Union(w, a), ra) && Canonical(w, Union(w, b), rb)
    requires forall x :: 0 <= x < Pow2(w) ==> (x in Union(w, a) <==> x in Union(w, b))
    ensures ra == rb
  {
    forall n | ValidNet(w, n) ensures Within(w, n, Union(w, a)) <==> Within(w, n, Union(w, b)) {
      Fits(w, n);
      assert forall x :: In(w, x, n) ==> 0 <= x < Pow2(w);
    }
    forall n ensures Maximal(w, Union(w, a), n) <==> Maximal(w, Union(w, b), n) {}
    CanonicalUnique(w, Union(w, a), ra, rb);
  }

  /** Collapsing a result again returns it unchanged. */
  lemma CollapseIdempotent(w: nat, items: seq<Item>, r: seq<Net>, again: seq<Net>)
    requires Canonical(w, Union(w, items), r)
    requires Canonical(w, Union(w, seq(|r|, i requires 0 <= i < |r| => Network(r[i]))), again)
    ensures again == r
  {
    var wrapped := seq(|r|, i requires 0 <= i < |r| => Network(r[i]));
    forall x | 0 <= x < Pow2(w) ensures x in Union(w, items) <==> x in Union(w, wrapped) {
      CanonicalTiles(w, Union(w, items), r, x);
      if n :| n in r && n.plen <= w && In(w, x, n) {
        var i :| 0 <= i < |r| && r[i] == n;
        assert wrapped[i] in wrapped && Holds(w, wrapped[i], x);
      }
      if i :| i in wrapped && Holds(w, i, x) { assert i.net in r; }
    }
    CollapseByUnion(w, items, r, wrapped, again);
  }

  /** No two networks of the result are siblings. */
  lemma NoSiblings(w: nat, u: iset<int>, r: seq<Net>, a: Net, b: Net)
    requires Canonical(w, u, r) && a in r && b in r && a != b
    ensures Supernet(w, a) != Supernet(w, b)
  {
    if Supernet(w, a) == Supernet(w, b) {
      var up := Supernet(w, a).value;
      forall x | In(w, x, up) ensures x in u { SiblingsMerge(w, a, b, up, x); }
    }
  }

  /** Collapsing the single addresses of a range gives its greedy summary. */
  lemma CollapseAgreesWithSummary(w: nat, first: nat, last: nat, items: seq<Item>, r: seq<Net>)
    requires last < Pow2(w) && Union(w, items) == Range(first, last)
    requires Canonical(w, Union(w, items), r)
    ensures r == Greedy(w, first, last)
  {
    SummaryCanonical(w, first, last);
    CanonicalUnique(w, Range(first, last), r, Greedy(w, first, last));
  }
}
