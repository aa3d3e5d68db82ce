/** The text form of IPv6 addresses: printing with the longest run of zero
    groups compressed, parsing with an optional dotted IPv4 tail, and the round
    trip between them. */
module Ipv6Text {
  import opened Wrappers
  import opened Bits
  import opened Text
  import opened Ipv4Text

  datatype Result<+T> = Ok(value: T) | AddressValueError | ValueError

  const ALL_ONES: nat := 0xFFFF_FFFF_FFFF_FFFF_FFFF_FFFF_FFFF_FFFF

  // ----- groups of sixteen bits

  function Groups(n: nat, k: nat): (g: seq<nat>)
    ensures |g| == k && forall x :: x in g ==> x < 65536
  {
    if k == 0 then [] else Groups(n / 65536, k - 1) + [n % 65536]
  }

  function Value(g: seq<nat>): nat {
    if g == [] then 0 else 65536 * Value(g[..|g| - 1]) + g[|g| - 1]
  }

  lemma ValueAppend(g: seq<nat>, x: nat)
    ensures Value(g + [x]) == 65536 * Value(g) + x
  {
    assert (g + [x])[..|g|] == g;
  }

  function Limit(k: nat): nat {
    if k == 0 then 1 else 65536 * Limit(k - 1)
  }

  lemma {:induction false} GroupsValue(n: nat, k: nat)
    requires n < Limit(k)
    ensures Value(Groups(n, k)) == n
  {
    if k > 0 {
      GroupsValue(n / 65536, k - 1);
      ValueAppend(Groups(n / 65536, k - 1), n % 65536);
    }
  }

  lemma Limit8()
    ensures Limit(8) == ALL_ONES + 1
  {
    assert Limit(2) == 65536 * Limit(1);
    assert Limit(4) == 65536 * (65536 * Limit(2));
    assert Limit(6) == 65536 * (65536 * Limit(4));
    assert Limit(8) == 65536 * (65536 * Limit(6));
  }

  function Zeros(k: nat): (z: seq<nat>)
    ensures |z| == k && forall x :: x in z ==> x == 0
  {
    if k == 0 then [] else Zeros(k - 1) + [0]
  }

  // ----- hextets

  /** _parse_hextet. */
  function ParseHextet(s: string): Option<nat> {
    if !AllDigits(s, Hex) then None
    else if |s| > 4 then None
    else if s == "" then None
    else Some(ParseNumeral(s, Hex))
  }

  predicate IsHextet(s: string) { ParseHextet(s).Some? }

  predicate AllHextets(hs: seq<string>) {
    forall i :: 0 <= i < |hs| ==> IsHextet(hs[i])
  }

  function HextetValues(hs: seq<string>): (g: seq<nat>)
    requires AllHextets(hs)
    ensures |g| == |hs| && forall i :: 0 <= i < |hs| ==> g[i] == ParseHextet(hs[i]).value
  {
    seq(|hs|, i requires 0 <= i < |hs| && IsHextet(hs[i]) => ParseHextet(hs[i]).value)
  }

  lemma {:induction false} HextetBound(s: string)
    requires AllDigits(s, Hex)
    ensures ParseNumeral(s, Hex) < Power(Hex, |s|)
  {
    if s != "" { HextetBound(s[..|s| - 1]); }
  }

  lemma PowerHex4()
    ensures Power(Hex, 1) == 16 && Power(Hex, 2) == 256 && Power(Hex, 3) == 4096 && Power(Hex, 4) == 65536
  {
    assert Power(Hex, 0) == 1;
    assert Power(Hex, 1) == 16;
    assert Power(Hex, 2) == 256;
    assert Power(Hex, 3) == 4096;
  }

  lemma HextetRange(s: string)
    requires IsHextet(s)
    ensures ParseHextet(s).value < 65536
  {
    HextetBound(s);
    PowerHex4();
    assert |s| == 1 || |s| == 2 || |s| == 3 || |s| == 4;
  }

  /** A printed group is a hextet that reads back; only zero prints as "0". */
  lemma PrintedHextet(x: nat)
    requires x < 65536
    ensures ParseHextet(Numeral(x, Hex)) == Some(x)
    ensures Numeral(x, Hex) == "0" <==> x == 0
    ensures Numeral(x, Hex)[0] == '0' ==> x == 0
  {
    NumeralRoundTrip(x, Hex);
    PowerHex4();
    NumeralLength(x, Hex, 4);
  }

  lemma HextetPlain(s: string)
    requires IsHextet(s)
    ensures s != "" && ':' !in s && '.' !in s
  {
    assert forall i :: 0 <= i < |s| ==> IsDigit(s[i], Hex) && s[i] != ':' && s[i] != '.';
  }

  // ----- printing

  function Repeat(c: char, k: nat): (s: string)
    ensures |s| == k && forall i :: 0 <= i < k ==> s[i] == c
  {
    if k == 0 then "" else [c] + Repeat(c, k - 1)
  }

  function Padded(s: string, width: nat): string {
    if |s| >= width then s else Repeat('0', width - |s|) + s
  }

  /** '%0{width}x' % n. */
  function PadHex(n: nat, width: nat): string { Padded(Numeral(n, Hex), width) }

  lemma {:induction false} LeadingZeros(k: nat, s: string)
    requires AllDigits(s, Hex)
    ensures AllDigits(Repeat('0', k) + s, Hex)
    ensures ParseNumeral(Repeat('0', k) + s, Hex) == ParseNumeral(s, Hex)
  {
    var z := Repeat('0', k);
    if s == "" {
      assert z + s == z;
      ZerosParse(z);
    } else {
      LeadingZeros(k, s[..|s| - 1]);
      assert (z + s)[..|z + s| - 1] == z + s[..|s| - 1];
    }
  }

  lemma {:induction false} ZerosParse(z: string)
    requires forall i :: 0 <= i < |z| ==> z[i] == '0'
    ensures AllDigits(z, Hex) && ParseNumeral(z, Hex) == 0
  {
    if z != "" { ZerosParse(z[..|z| - 1]); }
  }

  lemma PaddedReads(s: string, width: nat)
    requires |s| <= width && AllDigits(s, Hex)
    ensures |Padded(s, width)| == width && AllDigits(Padded(s, width), Hex)
    ensures ParseNumeral(Padded(s, width), Hex) == ParseNumeral(s, Hex)
  {
    if |s| < width { LeadingZeros(width - |s|, s); }
  }

  /** k groups are written with four times k digits. */
  lemma PadHexReads(n: nat, k: nat)
    requires k > 0 && n < Limit(k)
    ensures |PadHex(n, 4 * k)| == 4 * k && AllDigits(PadHex(n, 4 * k), Hex)
    ensures ParseNumeral(PadHex(n, 4 * k), Hex) == n
  {
    var width := 4 * k;
    NumeralRoundTrip(n, Hex);
    PowerIsLimit(k);
    NumeralLength(n, Hex, width);
    PaddedReads(Numeral(n, Hex), width);
  }

  lemma {:induction false} PowerIsLimit(k: nat)
    ensures Power(Hex, 4 * k) == Limit(k)
  {
    if k > 0 {
      PowerIsLimit(k - 1);
      PowerFour(4 * (k - 1));
    }
  }

  lemma PowerFour(k: nat)
    ensures Power(Hex, k + 4) == 65536 * Power(Hex, k)
  {
    assert Power(Hex, k + 4) == 16 * Power(Hex, k + 3);
    assert Power(Hex, k + 3) == 16 * Power(Hex, k + 2);
    assert Power(Hex, k + 2) == 16 * Power(Hex, k + 1);
  }

  lemma LastDigit(s: string)
    requires s != "" && AllDigits(s, Hex)
    ensures AllDigits(s[..|s| - 1], Hex) && DigitValue(s[|s| - 1]).Some?
    ensures ParseNumeral(s, Hex) == 16 * ParseNumeral(s[..|s| - 1], Hex) + DigitValue(s[|s| - 1]).value
  {}

  function Digit(c: char): nat { if DigitValue(c).Some? then DigitValue(c).value else 0 }

  lemma FourDigits(s: string)
    requires |s| >= 4 && AllDigits(s, Hex)
    ensures var k := |s|;
      && AllDigits(s[..k - 4], Hex)
      && ParseNumeral(s, Hex) == 65536 * ParseNumeral(s[..k - 4], Hex)
         + 4096 * Digit(s[k - 4]) + 256 * Digit(s[k - 3]) + 16 * Digit(s[k - 2]) + Digit(s[k - 1])
  {
    var k := |s|;
    var s3, s2, s1 := s[..k - 1], s[..k - 2], s[..k - 3];
    assert s3[..k - 2] == s2 && s2[..k - 3] == s1 && s1[..k - 4] == s[..k - 4];
    LastDigit(s);
    LastDigit(s3);
    LastDigit(s2);
    LastDigit(s1);
  }

  lemma LastFour(s: string)
    requires |s| >= 4 && AllDigits(s, Hex)
    ensures AllDigits(s[..|s| - 4], Hex) && AllDigits(s[|s| - 4..], Hex)
    ensures ParseNumeral(s, Hex) == 65536 * ParseNumeral(s[..|s| - 4], Hex) + ParseNumeral(s[|s| - 4..], Hex)
    ensures ParseNumeral(s[|s| - 4..], Hex) < 65536
  {
    var t := s[|s| - 4..];
    HextetBound(t);
    PowerHex4();
    FourDigits(s);
    FourDigits(t);
    assert t[..0] == "";
  }

  lemma SliceOfPrefix(s: string, m: nat, a: nat, b: nat)
    requires a <= b <= m <= |s|
    ensures s[..m][a..b] == s[a..b]
  {}

  lemma GroupsAt(n: nat, k: nat, i: nat)
    requires i < k
    ensures Groups(n, k)[i] == if i == k - 1 then n % 65536 else Groups(n / 65536, k - 1)[i]
  {}

  lemma QuotientOf(n: nat, q: nat, r: nat)
    requires n == 65536 * q + r && r < 65536
    ensures n / 65536 == q && n % 65536 == r
  {}

  /** Reading a padded numeral four digits at a time gives its groups. */
  lemma {:induction false} SlicesAreGroups(s: string, k: nat, i: nat)
    requires |s| == 4 * k && AllDigits(s, Hex) && i < k
    ensures AllDigits(s[4 * i..4 * i + 4], Hex)
    ensures ParseNumeral(s[4 * i..4 * i + 4], Hex) == Groups(ParseNumeral(s, Hex), k)[i]
  {
    var m, n := |s| - 4, ParseNumeral(s, Hex);
    LastFour(s);
    QuotientOf(n, ParseNumeral(s[..m], Hex), ParseNumeral(s[m..], Hex));
    GroupsAt(n, k, i);
    if i < k - 1 {
      SlicesAreGroups(s[..m], k - 1, i);
      SliceOfPrefix(s, m, 4 * i, 4 * i + 4);
    } else {
      assert s[4 * i..4 * i + 4] == s[m..];
    }
  }

  /** The eight printed groups. */
  function Hextets(n: nat): (h: seq<string>)
    ensures |h| == 8
  {
    var g := Groups(n, 8);
    seq(8, i requires 0 <= i < 8 => Numeral(g[i], Hex))
  }

  ghost predicate ZeroRun(h: seq<string>, s: int, l: int) {
    0 <= s && 0 < l && s + l <= |h| && forall i :: s <= i < s + l ==> h[i] == "0"
  }

  /** (start, len) is the leftmost of the longest runs of "0" among the first k
      hextets, or (-1, 0) if there is none. */
  ghost predicate BestRun(h: seq<string>, k: int, start: int, len: int) {
    && 0 <= k <= |h|
    && (len == 0 ==> start == -1)
    && (len != 0 ==> ZeroRun(h, start, len) && start + len <= k)
    && (forall s, l :: ZeroRun(h, s, l) && s + l <= k ==> l < len || (l == len && start <= s))
  }

  /** The list whose join is the text: the run, if longer than one, becomes an
      empty part, with one more at either end it touches. */
  ghost predicate Compressed(h: seq<string>, c: seq<string>) {
    exists start: int, len: int :: BestRun(h, |h|, start, len) && c == Cut(h, start, len)
  }

  function Cut(h: seq<string>, start: int, len: int): seq<string>
    requires len > 1 ==> 0 <= start && start + len <= |h|
  {
    if len <= 1 then h
    else
      (if start == 0 then [""] else []) + h[..start] + [""] + h[start + len..]
      + (if start + len == |h| then [""] else [])
  }

  lemma BestStep(h: seq<string>, k: int, start: int, len: int, bestStart: int, bestLen: int)
    requires 0 <= k < |h| && h[k] == "0" && BestRun(h, k, bestStart, bestLen)
    requires len > 0 && start == k + 1 - len && ZeroRun(h, start, len) && (start > 0 ==> h[start - 1] != "0")
    ensures len > bestLen ==> BestRun(h, k + 1, start, len)
    ensures len <= bestLen ==> BestRun(h, k + 1, bestStart, bestLen)
  {
    assert start > 0 ==> h[start - 1] != "0";
    forall s, l | ZeroRun(h, s, l) && s + l == k + 1 ensures s >= start {}
    forall s, l | ZeroRun(h, s, l) && s + l <= k + 1
      ensures len > bestLen ==> l < len || (l == len && start <= s)
      ensures len <= bestLen ==> l < bestLen || (l == bestLen && bestStart <= s)
    {
      if s + l <= k {
      } else {
        assert s >= start;
        if len <= bestLen { assert ZeroRun(h, bestStart, bestLen) && bestStart + bestLen <= k; }
      }
    }
  }

  /** _compress_hextets. */
  method CompressHextets(hextets: seq<string>) returns (r: seq<string>)
    ensures Compressed(hextets, r)
  {
    var bestStart, bestLen := -1, 0;
    var start, len := -1, 0;
    for index := 0 to |hextets|
      invariant BestRun(hextets, index, bestStart, bestLen) && bestLen >= 0
      invariant len >= 0 && (len == 0 ==> start == -1 && (index > 0 ==> hextets[index - 1] != "0"))
      invariant len > 0 ==> start == index - len && ZeroRun(hextets, start, len)
      invariant len > 0 && start > 0 ==> hextets[start - 1] != "0"
    {
      if hextets[index] == "0" {
        len := len + 1;
        if start == -1 { start := index; }
        BestStep(hextets, index, start, len, bestStart, bestLen);
        if len > bestLen {
          bestLen := len;
          bestStart := start;
        }
      } else {
        assert hextets[index] != "0";
        forall s, l | ZeroRun(hextets, s, l) && s + l <= index + 1 ensures s + l <= index {}
        len := 0;
        start := -1;
      }
    }
    r := ReplaceRun(hextets, bestStart, bestLen);
  }

  lemma CutBySteps(h: seq<string>, start: nat, end: nat)
    requires start + 1 < end <= |h|
    ensures var longer := if end == |h| then h + [""] else h;
      var cut := longer[..start] + [""] + longer[end..];
      Cut(h, start, end - start) == if start == 0 then [""] + cut else cut
  {
    var tail := if end == |h| then [""] else [];
    var longer := if end == |h| then h + [""] else h;
    assert longer[..start] == h[..start] && longer[end..] == h[end..] + tail;
    Regroup(if start == 0 then [""] else [], h[..start], [""], h[end..], tail);
  }

  lemma Regroup<T>(a: seq<T>, b: seq<T>, c: seq<T>, d: seq<T>, e: seq<T>)
    ensures a + b + c + d + e == a + (b + c + (d + e))
    ensures [] + (b + c + (d + e)) == b + c + (d + e)
  {}

  /** The list edits at the end of _compress_hextets. */
  method ReplaceRun(hextets: seq<string>, bestStart: int, bestLen: int) returns (r: seq<string>)
    requires bestLen > 1 ==> 0 <= bestStart && bestStart + bestLen <= |hextets|
    ensures r == Cut(hextets, bestStart, bestLen)
  {
    r := hextets;
    if bestLen > 1 {
      var end := bestStart + bestLen;
      CutBySteps(hextets, bestStart, end);
      if end == |r| { r := r + [""]; }
      r := r[..bestStart] + [""] + r[end..];
      if bestStart == 0 { r := [""] + r; }
    }
  }

  /** The text of an address: RFC 5952, sections 4.1 to 4.3. */
  ghost predicate IsText(n: nat, s: string) {
    exists c :: Compressed(Hextets(n), c) && s == Join(c, ':')
  }

  /** _string_from_ip_int. */
  method StringFromIpInt(n: nat) returns (r: Result<string>)
    ensures r.Ok? <==> n <= ALL_ONES
    ensures r.Ok? ==> IsText(n, r.value)
  {
    if n > ALL_ONES { return ValueError; }
    Limit8();
    var hextets := HextetsOf(n);
    hextets := CompressHextets(hextets);
    return Ok(Join(hextets, ':'));
  }

  /** The hexadecimal string cut into hextets. */
  method HextetsOf(n: nat) returns (hextets: seq<string>)
    requires n < Limit(8)
    ensures hextets == Hextets(n)
  {
    var hexStr := PadHex(n, 32);
    ghost var all := Hextets(n);
    PadHexReads(n, 8);
    hextets := [];
    for i := 0 to 8
      invariant hextets == all[..i]
    {
      SlicesAreGroups(hexStr, 8, i);
      hextets := hextets + [Numeral(ParseNumeral(hexStr[4 * i..4 * i + 4], Hex), Hex)];
    }
  }

  /** The leftmost longest run is unique, so an address has only one text. */
  lemma TextUnique(n: nat, s: string, t: string)
    requires IsText(n, s) && IsText(n, t)
    ensures s == t
  {
    var h := Hextets(n);
    var c :| Compressed(h, c) && s == Join(c, ':');
    var d :| Compressed(h, d) && t == Join(d, ':');
    var s1, l1 :| BestRun(h, |h|, s1, l1) && c == Cut(h, s1, l1);
    var s2, l2 :| BestRun(h, |h|, s2, l2) && d == Cut(h, s2, l2);
    BestRunUnique(h, s1, l1, s2, l2);
  }

  lemma BestRunUnique(h: seq<string>, s1: int, l1: int, s2: int, l2: int)
    requires BestRun(h, |h|, s1, l1) && BestRun(h, |h|, s2, l2)
    ensures s1 == s2 && l1 == l2
  {}

  // ----- parsing

  /** The parts with a dotted tail turned into two hexadecimal ones. */
  function ExpandTail(parts: seq<string>): Option<seq<string>>
    requires parts != []
  {
    var last := parts[|parts| - 1];
    if '.' !in last then Some(parts)
    else
      match ParseV4(last)
      case None => None
      case Some(ip) => Some(parts[..|parts| - 1] + [Numeral(ip / 65536 % 65536, Hex), Numeral(ip % 65536, Hex)])
  }

  /** The two hextets that an IPv4 tail becomes. */
  function TailHextets(n: nat): seq<string> { [Numeral(n / 65536, Hex), Numeral(n % 65536, Hex)] }

  lemma TailStep(init: seq<string>, last: string, n: nat)
    requires IsDotted(last, n) && '.' in last
    ensures ExpandTail(init + [last]) == Some(init + TailHextets(n))
  {
    V4Exact(last, n);
    DottedRange(last, n);
    TailHalves(n);
    TailParts(init, last);
  }

  lemma TailHalves(n: nat)
    requires n < 0x1_0000_0000
    ensures n / 65536 % 65536 == n / 65536
  {}

  lemma TailParts(init: seq<string>, last: string)
    ensures (init + [last])[..|init|] == init
  {}

  /** Parts without a dot in the last are left alone; a last part that spells an
      IPv4 address becomes the two hextets of its number; any other is refused. */
  lemma ExpandTailExact(init: seq<string>, last: string, r: seq<string>)
    ensures ExpandTail(init + [last]) == Some(r) <==>
      if '.' !in last then r == init + [last]
      else exists n: nat :: IsDotted(last, n) && r == init + TailHextets(n)
  {
    if '.' in last {
      forall n: nat | IsDotted(last, n) ensures ExpandTail(init + [last]) == Some(init + TailHextets(n)) {
        TailStep(init, last, n);
      }
      if ParseV4(last).Some? { V4Exact(last, ParseV4(last).value); }
    }
  }

  /** The parts of `hi :: lo`, where either side may be empty. */
  function Around(hi: seq<string>, lo: seq<string>): seq<string> {
    (if hi == [] then [""] else hi) + [""] + (if lo == [] then [""] else lo)
  }

  /** The parts denote n: eight hextets, or at most seven around one "::" that
      stands for the missing zeros (RFC 4291, section 2.2). */
  ghost predicate Denotes(parts: seq<string>, n: nat) {
    || (|parts| == 8 && AllHextets(parts) && n == Value(HextetValues(parts)))
    || (exists hi: seq<string>, lo: seq<string> :: DenotesGap(parts, hi, lo, n))
  }

  ghost predicate DenotesGap(parts: seq<string>, hi: seq<string>, lo: seq<string>, n: nat) {
    && parts == Around(hi, lo) && AllHextets(hi) && AllHextets(lo) && |hi| + |lo| <= 7
    && n == Value(HextetValues(hi) + Zeros(8 - |hi| - |lo|) + HextetValues(lo))
  }

  function GapIndex(hi: seq<string>): nat { if hi == [] then 1 else |hi| }

  /** The position of the gap and what surrounds it can be read off the parts. */
  lemma AroundShape(parts: seq<string>, hi: seq<string>, lo: seq<string>)
    requires parts == Around(hi, lo) && AllHextets(hi) && AllHextets(lo)
    ensures 1 <= GapIndex(hi) < |parts| - 1 && parts[GapIndex(hi)] == ""
    ensures |parts| == GapIndex(hi) + 1 + (if lo == [] then 1 else |lo|)
    ensures forall i :: 1 <= i < |parts| - 1 && parts[i] == "" ==> i == GapIndex(hi)
    ensures (parts[0] == "" <==> hi == []) && (parts[|parts| - 1] == "" <==> lo == [])
    ensures hi != [] ==> hi == parts[..GapIndex(hi)]
    ensures lo != [] ==> lo == parts[GapIndex(hi) + 1..]
  {
    assert !IsHextet("");
    var gap := GapIndex(hi);
    var left := if hi == [] then [""] else hi;
    var right := if lo == [] then [""] else lo;
    assert parts == left + [""] + right && |left| == gap;
    assert forall i :: 0 <= i < gap && hi != [] ==> parts[i] == hi[i];
    assert forall i :: gap < i < |parts| && lo != [] ==> parts[i] == lo[i - gap - 1];
    assert hi != [] ==> parts[0] == hi[0];
    assert lo != [] ==> parts[|parts| - 1] == lo[|lo| - 1];
    assert parts[..gap] == left && parts[gap + 1..] == right;
  }

  lemma GapUnique(parts: seq<string>, hi: seq<string>, lo: seq<string>, hi': seq<string>, lo': seq<string>)
    requires parts == Around(hi, lo) && AllHextets(hi) && AllHextets(lo)
    requires parts == Around(hi', lo') && AllHextets(hi') && AllHextets(lo')
    ensures hi == hi' && lo == lo'
  {
    AroundShape(parts, hi, lo);
    AroundShape(parts, hi', lo');
  }

  lemma GapExcludesPlain(parts: seq<string>, hi: seq<string>, lo: seq<string>)
    requires parts == Around(hi, lo) && AllHextets(hi) && AllHextets(lo)
    ensures !AllHextets(parts)
  {
    AroundShape(parts, hi, lo);
    assert !IsHextet(parts[GapIndex(hi)]);
  }

  /** No two readings of the same parts. */
  lemma DenotesUnique(parts: seq<string>, m: nat, n: nat)
    requires Denotes(parts, m) && Denotes(parts, n)
    ensures m == n
  {
    if hi: seq<string>, lo: seq<string> :| DenotesGap(parts, hi, lo, m) {
      GapOnce(parts, hi, lo, m, n);
    } else if hi: seq<string>, lo: seq<string> :| DenotesGap(parts, hi, lo, n) {
      GapOnce(parts, hi, lo, n, m);
    }
  }

  lemma GapOnce(parts: seq<string>, hi: seq<string>, lo: seq<string>, m: nat, n: nat)
    requires DenotesGap(parts, hi, lo, m) && Denotes(parts, n)
    ensures m == n
  {
    GapExcludesPlain(parts, hi, lo);
    var hi', lo' :| DenotesGap(parts, hi', lo', n);
    GapUnique(parts, hi, lo, hi', lo');
  }

  lemma NoGapNoDenote(parts: seq<string>, n: nat)
    requires forall i :: 1 <= i < |parts| - 1 ==> parts[i] != ""
    requires Denotes(parts, n)
    ensures |parts| == 8 && AllHextets(parts)
  {
    forall hi, lo ensures !DenotesGap(parts, hi, lo, n) {
      if parts == Around(hi, lo) && AllHextets(hi) && AllHextets(lo) { AroundShape(parts, hi, lo); }
    }
  }

  function HiOf(parts: seq<string>, gap: nat): seq<string>
    requires gap < |parts|
  {
    if parts[0] == "" then [] else parts[..gap]
  }

  function LoOf(parts: seq<string>, gap: nat): seq<string>
    requires gap < |parts|
  {
    if parts[|parts| - 1] == "" then [] else parts[gap + 1..]
  }

  /** With an empty part at `gap`, the two sides are determined. */
  lemma GapDenote(parts: seq<string>, gap: nat, n: nat)
    requires 1 <= gap < |parts| - 1 && parts[gap] == "" && Denotes(parts, n)
    ensures |parts| <= 9
    ensures forall i :: 1 <= i < |parts| - 1 && i != gap ==> parts[i] != ""
    ensures parts[0] == "" ==> gap == 1
    ensures parts[|parts| - 1] == "" ==> gap == |parts| - 2
    ensures DenotesGap(parts, HiOf(parts, gap), LoOf(parts, gap), n)
  {
    assert !IsHextet(parts[gap]);
    var hi, lo :| DenotesGap(parts, hi, lo, n);
    AroundShape(parts, hi, lo);
  }

  /** Ill-placed or misspelt parts around a gap denote nothing. */
  lemma GapRefused(parts: seq<string>, gap: nat)
    requires 1 <= gap < |parts| - 1 && parts[gap] == ""
    requires
      || (parts[0] == "" && gap != 1) || (parts[|parts| - 1] == "" && gap != |parts| - 2)
      || !AllHextets(HiOf(parts, gap)) || !AllHextets(LoOf(parts, gap))
      || |HiOf(parts, gap)| + |LoOf(parts, gap)| > 7
      || exists i :: 1 <= i < |parts| - 1 && i != gap && parts[i] == ""
    ensures forall n :: !Denotes(parts, n)
  {
    forall n ensures !Denotes(parts, n) {
      if Denotes(parts, n) { GapDenote(parts, gap, n); }
    }
  }

  lemma GapAccepted(parts: seq<string>, gap: nat)
    requires 1 <= gap < |parts| - 1 && parts[gap] == ""
    requires (parts[0] == "" ==> gap == 1) && (parts[|parts| - 1] == "" ==> gap == |parts| - 2)
    ensures parts == Around(HiOf(parts, gap), LoOf(parts, gap))
  {
    assert parts == parts[..gap] + [""] + parts[gap + 1..];
    if parts[0] == "" { assert parts[..gap] == [""]; }
    if parts[|parts| - 1] == "" { assert parts[gap + 1..] == [""]; }
  }

  lemma {:induction false} OrLow(a: nat, k: nat, x: nat)
    requires x < Pow2(k)
    ensures Or(Shl(a, k), x) == Shl(a, k) + x
  {
    if k > 0 && a > 0 && x > 0 {
      OrLow(a, k - 1, x / 2);
      var s := Shl(a, k - 1);
      assert Shl(a, k) == 2 * s;
      assert 2 * s / 2 == s;
    } else {
      ShlLinear(0, 0, k);
    }
  }

  lemma Shl16(a: nat)
    ensures Pow2(16) == 65536 && Shl(a, 16) == 65536 * a
  {
    assert Pow2(4) == 16;
    assert Pow2(8) == 16 * Pow2(4);
    assert Pow2(12) == 16 * Pow2(8);
    assert Pow2(16) == 16 * Pow2(12);
    ShlMeans(a, 16);
  }

  lemma {:induction false} ValueZeros(g: seq<nat>, k: nat)
    ensures Value(g + Zeros(k)) == Shl(Value(g), 16 * k)
  {
    if k == 0 {
      assert g + [] == g;
    } else {
      ValueZeros(g, k - 1);
      OneMoreZero(g, k);
      ShlTwice(Value(g), 16 * (k - 1), 16);
      Shl16(Value(g + Zeros(k - 1)));
    }
  }

  lemma OneMoreZero(g: seq<nat>, k: nat)
    requires k > 0
    ensures Value(g + Zeros(k)) == 65536 * Value(g + Zeros(k - 1))
  {
    assert g + Zeros(k) == (g + Zeros(k - 1)) + [0];
    ValueAppend(g + Zeros(k - 1), 0);
  }

  lemma {:induction false} ShlTwice(a: nat, j: nat, k: nat)
    ensures Shl(Shl(a, j), k) == Shl(a, j + k)
  {
    if k > 0 { ShlTwice(a, j, k - 1); }
  }

  lemma ShiftIn(g: seq<nat>, x: nat)
    requires x < 65536
    ensures Or(Shl(Value(g), 16), x) == Value(g + [x])
  {
    Shl16(Value(g));
    OrLow(Value(g), 16, x);
    ValueAppend(g, x);
  }

  lemma OneMoreHextet(g: seq<nat>, hextets: seq<string>, i: nat)
    requires i < |hextets| && AllHextets(hextets[..i]) && IsHextet(hextets[i])
    ensures AllHextets(hextets[..i + 1])
    ensures g + HextetValues(hextets[..i + 1]) == (g + HextetValues(hextets[..i])) + [ParseHextet(hextets[i]).value]
  {
    var all := hextets[..i + 1];
    forall j | 0 <= j < |all| ensures IsHextet(all[j]) { if j < i { assert all[j] == hextets[..i][j]; } }
    assert HextetValues(all) == HextetValues(hextets[..i]) + [ParseHextet(hextets[i]).value];
  }

  /** Shifting hextets into a number; None when one of them does not parse. */
  method ShiftHextets(start: nat, ghost g: seq<nat>, hextets: seq<string>) returns (r: Option<nat>)
    requires start == Value(g)
    ensures r.Some? <==> AllHextets(hextets)
    ensures r.Some? ==> r.value == Value(g + HextetValues(hextets))
  {
    var ipInt := start;
    ghost var done := g;
    assert g + [] == g;
    for i := 0 to |hextets|
      invariant AllHextets(hextets[..i])
      invariant done == g + HextetValues(hextets[..i]) && ipInt == Value(done)
    {
      var h := ParseHextet(hextets[i]);
      if h.None? { return None; }
      HextetRange(hextets[i]);
      ShiftIn(done, h.value);
      ipInt := Or(Shl(ipInt, 16), h.value);
      done := done + [h.value];
      OneMoreHextet(g, hextets, i);
    }
    assert hextets[..|hextets|] == hextets;
    return Some(ipInt);
  }

  /** The scan for "::": the one interior empty part, if any. */
  method FindGap(parts: seq<string>) returns (r: Result<Option<nat>>)
    requires |parts| >= 3
    ensures r.Ok? && r.value.None? ==> forall j :: 1 <= j < |parts| - 1 ==> parts[j] != ""
    ensures r.Ok? && r.value.Some? ==> 1 <= r.value.value < |parts| - 1 && parts[r.value.value] == ""
    ensures !r.Ok? ==> r == AddressValueError && forall n :: !Denotes(parts, n)
  {
    var skip: Option<nat> := None;
    for i := 1 to |parts| - 1
      invariant skip.None? ==> forall j :: 1 <= j < i ==> parts[j] != ""
      invariant skip.Some? ==> 1 <= skip.value < i && parts[skip.value] == ""
    {
      if parts[i] == "" {
        if skip.Some? {
          GapRefused(parts, skip.value);
          return AddressValueError;
        }
        skip := Some(i);
      }
    }
    return Ok(skip);
  }

  /** The hextets shifted in around a gap of zeros. */
  method ShiftAll(hi: seq<string>, skipped: nat, lo: seq<string>) returns (r: Result<nat>)
    ensures r.Ok? <==> AllHextets(hi) && AllHextets(lo)
    ensures r.Ok? ==> r.value == Value(HextetValues(hi) + Zeros(skipped) + HextetValues(lo))
    ensures !r.Ok? ==> r == AddressValueError
  {
    var high := ShiftHextets(0, [], hi);
    if high.None? { return AddressValueError; }
    assert [] + HextetValues(hi) == HextetValues(hi);
    ValueZeros(HextetValues(hi), skipped);
    var low := ShiftHextets(Shl(high.value, 16 * skipped), HextetValues(hi) + Zeros(skipped), lo);
    if low.None? { return AddressValueError; }
    return Ok(low.value);
  }

  /** _ip_int_from_string once the parts are known: it accepts exactly the parts
      that denote a number, and returns that number. */
  method IpIntFromParts(parts: seq<string>) returns (r: Result<nat>)
    requires |parts| >= 3
    ensures r.Ok? ==> Denotes(parts, r.value)
    ensures !r.Ok? ==> r == AddressValueError && forall n :: !Denotes(parts, n)
  {
    if |parts| > 9 {
      forall n ensures !Denotes(parts, n) { TooManyParts(parts, n); }
      return AddressValueError;
    }
    var gap := FindGap(parts);
    if !gap.Ok? { return AddressValueError; }
    if gap.value.Some? {
      r := AroundGap(parts, gap.value.value);
    } else {
      forall n | Denotes(parts, n) ensures |parts| == 8 && AllHextets(parts) { NoGapNoDenote(parts, n); }
      if |parts| != 8 { return AddressValueError; }
      assert !IsHextet("");
      if parts[0] == "" { return AddressValueError; }
      if parts[|parts| - 1] == "" { return AddressValueError; }
      r := ShiftAll(parts, 0, []);
      if r.Ok? { assert HextetValues(parts) + Zeros(0) + HextetValues([]) == HextetValues(parts); }
    }
  }

  lemma TooManyParts(parts: seq<string>, n: nat)
    requires |parts| > 9
    ensures !Denotes(parts, n)
  {
    forall hi, lo ensures !DenotesGap(parts, hi, lo, n) {}
  }

  /** How many parts stand before and after the gap. */
  method CountSides(parts: seq<string>, gap: nat) returns (r: Result<(nat, nat)>)
    requires 1 <= gap < |parts| - 1 && parts[gap] == ""
    ensures !r.Ok? ==> r == AddressValueError && forall n :: !Denotes(parts, n)
    ensures r.Ok? ==>
      && r.value.0 <= |parts| && r.value.1 <= |parts|
      && parts[..r.value.0] == HiOf(parts, gap) && parts[|parts| - r.value.1..] == LoOf(parts, gap)
      && parts == Around(HiOf(parts, gap), LoOf(parts, gap))
  {
    var partsHi, partsLo := gap, |parts| - gap - 1;
    if parts[0] == "" {
      partsHi := partsHi - 1;
      if partsHi > 0 {
        GapRefused(parts, gap);
        return AddressValueError;
      }
    }
    if parts[|parts| - 1] == "" {
      partsLo := partsLo - 1;
      if partsLo > 0 {
        GapRefused(parts, gap);
        return AddressValueError;
      }
    }
    GapAccepted(parts, gap);
    return Ok((partsHi, partsLo));
  }

  method AroundGap(parts: seq<string>, gap: nat) returns (r: Result<nat>)
    requires 1 <= gap < |parts| - 1 && parts[gap] == ""
    ensures r.Ok? ==> Denotes(parts, r.value)
    ensures !r.Ok? ==> r == AddressValueError && forall n :: !Denotes(parts, n)
  {
    var sides := CountSides(parts, gap);
    if !sides.Ok? { return AddressValueError; }
    var partsHi: int, partsLo: int := sides.value.0, sides.value.1;
    var skipped := 8 - (partsHi + partsLo);
    if skipped < 1 {
      GapRefused(parts, gap);
      return AddressValueError;
    }
    ghost var hi, lo := HiOf(parts, gap), LoOf(parts, gap);
    r := ShiftAll(parts[..partsHi], skipped, parts[|parts| - partsLo..]);
    if r.Ok? {
      SidesDenote(parts, hi, lo, skipped, r.value);
    } else {
      GapRefused(parts, gap);
    }
  }

  lemma SidesDenote(parts: seq<string>, hi: seq<string>, lo: seq<string>, skipped: nat, n: nat)
    requires parts == Around(hi, lo) && AllHextets(hi) && AllHextets(lo)
    requires skipped >= 1 && skipped == 8 - |hi| - |lo|
    requires n == Value(HextetValues(hi) + Zeros(skipped) + HextetValues(lo))
    ensures Denotes(parts, n)
  {
    assert DenotesGap(parts, hi, lo, n);
  }

  /** What an address text stands for. */
  ghost predicate TextDenotes(s: string, n: nat) {
    var parts := ExpandTail(Split(s, ':'));
    parts.Some? && Denotes(parts.value, n)
  }

  /** _ip_int_from_string. */
  method IpIntFromString(s: string) returns (r: Result<nat>)
    ensures r.Ok? ==> TextDenotes(s, r.value)
    ensures !r.Ok? ==> r == AddressValueError && forall n :: !TextDenotes(s, n)
  {
    if s == "" {
      TooFewParts(s);
      return AddressValueError;
    }
    var parts := Split(s, ':');
    if |parts| < 3 {
      TooFewParts(s);
      return AddressValueError;
    }
    var expanded := ExpandTail(parts);
    if expanded.None? { return AddressValueError; }
    r := IpIntFromParts(expanded.value);
  }

  /** Fewer than two colons never make an address. */
  lemma TooFewParts(s: string)
    requires |Split(s, ':')| < 3
    ensures forall n :: !TextDenotes(s, n)
  {
    var parts := Split(s, ':');
    forall n ensures !TextDenotes(s, n) {
      if ExpandTail(parts).Some? {
        var p := ExpandTail(parts).value;
        if |p| < 3 {
          TwoPartsNeverDenote(p, n);
        } else if Denotes(p, n) {
          assert p[1] == Numeral(ParseV4(parts[|parts| - 1]).value / 65536 % 65536, Hex);
          NoGapNoDenote(p, n);
        }
      }
    }
  }

  lemma TwoPartsNeverDenote(p: seq<string>, n: nat)
    requires |p| < 3
    ensures !Denotes(p, n)
  {
    forall hi, lo ensures !DenotesGap(p, hi, lo, n) {}
  }

  // ----- the round trip

  /** The printed list h spells the groups g. */
  ghost predicate Spells(h: seq<string>, g: seq<nat>) {
    && |h| == |g| == 8
    && forall i :: 0 <= i < 8 ==> ParseHextet(h[i]) == Some(g[i]) && (h[i] == "0" ==> g[i] == 0)
  }

  lemma HextetsSpell(n: nat)
    requires n <= ALL_ONES
    ensures Spells(Hextets(n), Groups(n, 8)) && Value(Groups(n, 8)) == n
  {
    Limit8();
    GroupsValue(n, 8);
    var g := Groups(n, 8);
    forall i | 0 <= i < 8
      ensures ParseHextet(Hextets(n)[i]) == Some(g[i]) && (Hextets(n)[i] == "0" ==> g[i] == 0)
    {
      assert g[i] in g;
      PrintedHextet(g[i]);
    }
  }

  lemma CutDenotes(h: seq<string>, g: seq<nat>, start: int, len: int)
    requires Spells(h, g) && BestRun(h, 8, start, len)
    ensures Denotes(Cut(h, start, len), Value(g))
  {
    var c := Cut(h, start, len);
    if len <= 1 {
      assert HextetValues(h) == g;
    } else {
      var hi, lo := h[..start], h[start + len..];
      assert ZeroRun(h, start, len);
      assert c == Around(hi, lo);
      CutValues(h, g, start, len);
      SidesDenote(c, hi, lo, len, Value(g));
    }
  }

  /** The groups of a list with a run of zeros, in three pieces. */
  lemma CutValues(h: seq<string>, g: seq<nat>, start: nat, len: nat)
    requires Spells(h, g) && ZeroRun(h, start, len)
    ensures AllHextets(h[..start]) && AllHextets(h[start + len..])
    ensures HextetValues(h[..start]) + Zeros(len) + HextetValues(h[start + len..]) == g
  {
    var z := Zeros(len);
    assert HextetValues(h[..start]) == g[..start] && HextetValues(h[start + len..]) == g[start + len..];
    assert forall i :: 0 <= i < len ==> z[i] in z && h[start + i] == "0";
    assert z == g[start..start + len];
    assert g[..start] + z + g[start + len..] == g;
  }

  lemma CutPlain(h: seq<string>, g: seq<nat>, start: int, len: int)
    requires Spells(h, g) && BestRun(h, 8, start, len)
    ensures Cut(h, start, len) != [] && forall p :: p in Cut(h, start, len) ==> ':' !in p && '.' !in p
  {
    forall i | 0 <= i < 8 ensures ':' !in h[i] && '.' !in h[i] { HextetPlain(h[i]); }
    forall p | p in Cut(h, start, len) ensures ':' !in p && '.' !in p { assert p == "" || p in h; }
  }

  /** The text of parts without dots and colons stands for what the parts do. */
  lemma JoinedDenotes(c: seq<string>, n: nat)
    requires c != [] && (forall p :: p in c ==> ':' !in p && '.' !in p) && Denotes(c, n)
    ensures TextDenotes(Join(c, ':'), n)
    ensures forall m :: TextDenotes(Join(c, ':'), m) ==> m == n
  {
    SplitJoin(c, ':');
    assert ExpandTail(c) == Some(c) by { assert c[|c| - 1] in c; }
    forall m | TextDenotes(Join(c, ':'), m) ensures m == n { DenotesUnique(c, m, n); }
  }

  /** Parsing undoes printing, for every 128-bit address. */
  lemma RoundTrip(n: nat, s: string)
    requires n <= ALL_ONES && IsText(n, s)
    ensures TextDenotes(s, n)
    ensures forall m :: TextDenotes(s, m) ==> m == n
  {
    var h, g := Hextets(n), Groups(n, 8);
    HextetsSpell(n);
    var c :| Compressed(h, c) && s == Join(c, ':');
    var start, len :| BestRun(h, |h|, start, len) && c == Cut(h, start, len);
    CutDenotes(h, g, start, len);
    CutPlain(h, g, start, len);
    JoinedDenotes(c, n);
  }

  /** The join of the parts around a gap. */
  lemma JoinAround(hi: seq<string>, lo: seq<string>)
    ensures Join(Around(hi, lo), ':') == Join(hi, ':') + "::" + Join(lo, ':')
  {
    var left := if hi == [] then [""] else hi;
    var right := if lo == [] then [""] else lo;
    assert Join(left, ':') == Join(hi, ':') && Join(right, ':') == Join(lo, ':');
    JoinConcat(left + [""], right, ':');
    JoinConcat(left, [""], ':');
    assert Join([""], ':') == "";
  }

  lemma AroundPlain(hi: seq<string>, lo: seq<string>)
    requires AllHextets(hi) && AllHextets(lo)
    ensures forall p :: p in Around(hi, lo) ==> ':' !in p && '.' !in p
  {
    forall p | p in Around(hi, lo) ensures ':' !in p && '.' !in p {
      if p != "" {
        assert p in hi || p in lo;
        HextetPlain(p);
      }
    }
  }

  /** Every text of the form `hi :: lo` with at most seven hextets is accepted
      with the value its zeros give it. */
  lemma GapTextDenotes(hi: seq<string>, lo: seq<string>)
    requires AllHextets(hi) && AllHextets(lo) && |hi| + |lo| <= 7
    ensures TextDenotes(Join(hi, ':') + "::" + Join(lo, ':'),
                        Value(HextetValues(hi) + Zeros(8 - |hi| - |lo|) + HextetValues(lo)))
  {
    var c := Around(hi, lo);
    JoinAround(hi, lo);
    AroundPlain(hi, lo);
    SplitJoin(c, ':');
    assert DenotesGap(c, hi, lo, Value(HextetValues(hi) + Zeros(8 - |hi| - |lo|) + HextetValues(lo)));
  }

  // ----- upper and lower case

  function LowerAll(parts: seq<string>): (r: seq<string>)
    ensures |r| == |parts| && forall i :: 0 <= i < |r| ==> r[i] == Lower(parts[i])
  {
    seq(|parts|, i requires 0 <= i < |parts| => Lower(parts[i]))
  }

  lemma LowerConcat(a: string, b: string)
    ensures Lower(a + b) == Lower(a) + Lower(b)
  {}

  lemma LowerAllConcat(a: seq<string>, b: seq<string>)
    ensures LowerAll(a + b) == LowerAll(a) + LowerAll(b)
  {}

  lemma LowerBetween(a: string, c: char, b: string)
    requires LowerChar(c) == c
    ensures Lower(a + [c] + b) == Lower(a) + [c] + Lower(b)
  {
    LowerConcat(a + [c], b);
    LowerConcat(a, [c]);
    assert Lower([c]) == [c];
  }

  lemma {:induction false} LowerJoin(parts: seq<string>, c: char)
    requires LowerChar(c) == c
    ensures Join(LowerAll(parts), c) == Lower(Join(parts, c))
  {
    if |parts| > 1 {
      LowerJoin(parts[1..], c);
      assert LowerAll(parts)[1..] == LowerAll(parts[1..]);
      LowerBetween(parts[0], c, Join(parts[1..], c));
    }
  }

  /** Splitting at a character without case commutes with lowering. */
  lemma LowerSplit(s: string, c: char)
    requires !('A' <= c <= 'Z') && !('a' <= c <= 'z')
    ensures Split(Lower(s), c) == LowerAll(Split(s, c))
  {
    var parts := Split(s, c);
    JoinSplit(s, c);
    LowerJoin(parts, c);
    forall p | p in LowerAll(parts) ensures c !in p {
      var i :| 0 <= i < |parts| && LowerAll(parts)[i] == p;
      assert parts[i] in parts;
      if c in p { LowerHolds(parts[i], c); }
    }
    SplitJoin(LowerAll(parts), c);
  }

  lemma LowerHolds(s: string, c: char)
    requires !('A' <= c <= 'Z') && !('a' <= c <= 'z')
    ensures c in Lower(s) <==> c in s
  {
    if c in s {
      var i :| 0 <= i < |s| && s[i] == c;
      assert Lower(s)[i] == c;
    }
    if c in Lower(s) {
      var i :| 0 <= i < |s| && Lower(s)[i] == c;
      assert s[i] == c;
    }
  }

  lemma LowerHextet(s: string)
    ensures ParseHextet(Lower(s)) == ParseHextet(s)
  {
    LowerParses(s, Hex);
  }

  lemma LowerHextets(hs: seq<string>)
    ensures AllHextets(LowerAll(hs)) <==> AllHextets(hs)
    ensures AllHextets(hs) ==> HextetValues(LowerAll(hs)) == HextetValues(hs)
  {
    forall i | 0 <= i < |hs| ensures ParseHextet(LowerAll(hs)[i]) == ParseHextet(hs[i]) { LowerHextet(hs[i]); }
    assert AllHextets(LowerAll(hs)) ==> forall i :: 0 <= i < |hs| ==> IsHextet(LowerAll(hs)[i]);
    assert AllHextets(hs) ==> forall i :: 0 <= i < |hs| ==> IsHextet(LowerAll(hs)[i]);
  }

  lemma LowerAround(hi: seq<string>, lo: seq<string>)
    ensures LowerAll(Around(hi, lo)) == Around(LowerAll(hi), LowerAll(lo))
  {
    assert LowerAll([""]) == [""] by { assert Lower("") == ""; }
    var left := if hi == [] then [""] else hi;
    var right := if lo == [] then [""] else lo;
    LowerAllConcat(left + [""], right);
    LowerAllConcat(left, [""]);
  }

  lemma LowerGap(parts: seq<string>, hi: seq<string>, lo: seq<string>, n: nat)
    requires DenotesGap(parts, hi, lo, n)
    ensures DenotesGap(LowerAll(parts), LowerAll(hi), LowerAll(lo), n)
  {
    LowerAround(hi, lo);
    LowerHextets(hi);
    LowerHextets(lo);
  }

  lemma LoweredDenotes(parts: seq<string>, n: nat)
    requires Denotes(parts, n)
    ensures Denotes(LowerAll(parts), n)
  {
    LowerHextets(parts);
    if hi: seq<string>, lo: seq<string> :| DenotesGap(parts, hi, lo, n) { LowerGap(parts, hi, lo, n); }
  }

  lemma LowerSides(parts: seq<string>, gap: nat)
    requires gap < |parts|
    ensures HiOf(LowerAll(parts), gap) == LowerAll(HiOf(parts, gap))
    ensures LoOf(LowerAll(parts), gap) == LowerAll(LoOf(parts, gap))
  {
    var low := LowerAll(parts);
    assert |low[0]| == |parts[0]| && |low[|low| - 1]| == |parts[|parts| - 1]|;
    assert LowerAll(parts[..gap]) == low[..gap] && LowerAll(parts[gap + 1..]) == low[gap + 1..];
  }

  /** The sides of a gap before lowering. */
  lemma RaiseGap(parts: seq<string>, low: seq<string>, gap: nat, n: nat)
    requires low == LowerAll(parts) && 1 <= gap < |parts| - 1 && parts[gap] == "" && Denotes(low, n)
    ensures Denotes(parts, n)
  {
    GapDenote(low, gap, n);
    LowerSides(parts, gap);
    RaiseSides(parts, gap, n);
  }

  lemma RaiseSides(parts: seq<string>, gap: nat, n: nat)
    requires 1 <= gap < |parts| - 1 && parts[gap] == ""
    requires (Lower(parts[0]) == "" ==> gap == 1) && (Lower(parts[|parts| - 1]) == "" ==> gap == |parts| - 2)
    requires DenotesGap(LowerAll(parts), LowerAll(HiOf(parts, gap)), LowerAll(LoOf(parts, gap)), n)
    ensures Denotes(parts, n)
  {
    assert |Lower(parts[0])| == |parts[0]| && |Lower(parts[|parts| - 1])| == |parts[|parts| - 1]|;
    GapAccepted(parts, gap);
    GapBeforeLower(parts, LowerAll(parts), HiOf(parts, gap), LoOf(parts, gap), n);
  }

  lemma GapRaised(parts: seq<string>, low: seq<string>, hi: seq<string>, lo: seq<string>, n: nat)
    requires parts == Around(hi, lo) && DenotesGap(low, LowerAll(hi), LowerAll(lo), n)
    ensures DenotesGap(parts, hi, lo, n)
  {
    LowerHextets(hi);
    LowerHextets(lo);
  }

  lemma GapBeforeLower(parts: seq<string>, low: seq<string>, hi: seq<string>, lo: seq<string>, n: nat)
    requires parts == Around(hi, lo) && DenotesGap(low, LowerAll(hi), LowerAll(lo), n)
    ensures Denotes(parts, n)
  {
    GapRaised(parts, low, hi, lo, n);
  }

  lemma RaisedDenotes(parts: seq<string>, n: nat)
    requires Denotes(LowerAll(parts), n)
    ensures Denotes(parts, n)
  {
    var low := LowerAll(parts);
    LowerHextets(parts);
    if hi: seq<string>, lo: seq<string> :| DenotesGap(low, hi, lo, n) {
      AroundShape(low, hi, lo);
      var gap := GapIndex(hi);
      assert Lower(parts[gap]) == "";
      RaiseGap(parts, low, gap, n);
    }
  }

  /** Digits and dots have no case. */
  lemma DottedLower(s: string, n: nat)
    requires IsDotted(Lower(s), n) || IsDotted(s, n)
    ensures Lower(s) == s
  {
    var x := if IsDotted(Lower(s), n) then Lower(s) else s;
    DottedChars(x, n);
    forall i | 0 <= i < |s| ensures Lower(s)[i] == s[i] { assert IsDigit(x[i], Dec) || x[i] == '.'; }
  }

  lemma LowerTail(parts: seq<string>)
    requires parts != []
    ensures ExpandTail(LowerAll(parts)) ==
      match ExpandTail(parts) case None => None case Some(r) => Some(LowerAll(r))
  {
    var last := |parts| - 1;
    LowerHolds(parts[last], '.');
    if '.' in parts[last] {
      if ParseV4(parts[last]).Some? || ParseV4(Lower(parts[last])).Some? {
        LowerV4(parts, ParseV4(if ParseV4(parts[last]).Some? then parts[last] else Lower(parts[last])).value);
      }
    }
  }

  lemma LowerV4(parts: seq<string>, n: nat)
    requires parts != [] && '.' in parts[|parts| - 1]
    requires ParseV4(parts[|parts| - 1]) == Some(n) || ParseV4(Lower(parts[|parts| - 1])) == Some(n)
    ensures ExpandTail(parts).Some? && ExpandTail(LowerAll(parts)) == Some(LowerAll(ExpandTail(parts).value))
  {
    var init, last := parts[..|parts| - 1], parts[|parts| - 1];
    V4Exact(last, n);
    V4Exact(Lower(last), n);
    DottedLower(last, n);
    var tail := [Numeral(n / 65536 % 65536, Hex), Numeral(n % 65536, Hex)];
    LowerNumeral(n / 65536 % 65536);
    LowerNumeral(n % 65536);
    assert LowerAll(tail) == tail;
    LowerAllConcat(init, tail);
    assert LowerAll(parts)[..|parts| - 1] == LowerAll(init);
  }

  lemma LowerNumeral(n: nat)
    ensures Lower(Numeral(n, Hex)) == Numeral(n, Hex)
  {
    NumeralRoundTrip(n, Hex);
    var s := Numeral(n, Hex);
    var k := NumeralExact(s, Hex);
    assert |Lower(s)| == |Noughts(k) + Numeral(n, Hex)|;
    assert Noughts(k) == "";
  }

  /** The case of the hexadecimal digits does not matter. */
  lemma CaseDoesNotMatter(s: string, n: nat)
    ensures TextDenotes(Lower(s), n) <==> TextDenotes(s, n)
  {
    var parts := Split(s, ':');
    LowerSplit(s, ':');
    LowerTail(parts);
    if ExpandTail(parts).Some? {
      var r := ExpandTail(parts).value;
      if Denotes(r, n) { LoweredDenotes(r, n); }
      if Denotes(LowerAll(r), n) { RaisedDenotes(r, n); }
    }
  }
}
