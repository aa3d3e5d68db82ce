/** The text form of IPv4 addresses: four decimal octets joined by dots, which
    may also end an IPv6 text. */
module Ipv4Text {
  import opened Wrappers
  import opened Text

  /** _parse_octet. */
  function ParseOctet(s: string): Option<nat> {
    if s == "" then None
    else if !AllDigits(s, Dec) then None
    else if |s| > 3 then None
    else
      var n := ParseNumeral(s, Dec);
      if n > 7 && s[0] == '0' then None else if n > 255 then None else Some(n)
  }

  /** The big-endian number of four octets. */
  function FromOctets(o: seq<string>): Option<nat>
    requires |o| == 4
  {
    var a, b, c, d := ParseOctet(o[0]), ParseOctet(o[1]), ParseOctet(o[2]), ParseOctet(o[3]);
    if a.None? || b.None? || c.None? || d.None? then None
    else Some(((a.value * 256 + b.value) * 256 + c.value) * 256 + d.value)
  }

  /** IPv4Address(s)._ip. */
  function ParseV4(s: string): Option<nat> {
    if '/' in s then None
    else if s == "" then None
    else
      var octets := Split(s, '.');
      if |octets| != 4 then None else FromOctets(octets)
  }

  /** The byte of n that is k bytes from the right. */
  function Byte(n: nat, k: nat): nat {
    if k == 0 then n % 256 else Byte(n / 256, k - 1)
  }

  /** '.'.join of the four bytes in decimal. */
  function PrintV4(n: nat): string {
    Join([Numeral(Byte(n, 3), Dec), Numeral(Byte(n, 2), Dec), Numeral(Byte(n, 1), Dec), Numeral(Byte(n, 0), Dec)], '.')
  }

  lemma {:induction false} ByteRange(n: nat, k: nat)
    ensures Byte(n, k) < 256
  {
    if k > 0 { ByteRange(n / 256, k - 1); }
  }

  lemma Bytes(n: nat)
    requires n < 0x1_0000_0000
    ensures ((Byte(n, 3) * 256 + Byte(n, 2)) * 256 + Byte(n, 1)) * 256 + Byte(n, 0) == n
  {
    var q1 := n / 256;
    var q2 := q1 / 256;
    var q3 := q2 / 256;
    assert Byte(n, 1) == Byte(q1, 0);
    assert Byte(n, 2) == Byte(q1, 1) == Byte(q2, 0);
    assert Byte(n, 3) == Byte(q1, 2) == Byte(q2, 1) == Byte(q3, 0) == q3;
  }

  lemma PrintedOctet(x: nat)
    requires x < 256
    ensures ParseOctet(Numeral(x, Dec)) == Some(x)
    ensures '.' !in Numeral(x, Dec) && '/' !in Numeral(x, Dec)
  {
    NumeralRoundTrip(x, Dec);
    assert Power(Dec, 0) == 1 && Power(Dec, 1) == 10 && Power(Dec, 2) == 100 && Power(Dec, 3) == 1000;
    NumeralLength(x, Dec, 3);
    var s := Numeral(x, Dec);
    assert forall i :: 0 <= i < |s| ==> IsDigit(s[i], Dec) && s[i] != '.' && s[i] != '/';
  }

  lemma {:induction false} JoinHolds(parts: seq<string>, c: char, x: char)
    requires x != c && forall p :: p in parts ==> x !in p
    ensures x !in Join(parts, c)
  {
    if |parts| > 1 { JoinHolds(parts[1..], c, x); }
  }

  /** Parsing undoes printing for every 32-bit address. */
  lemma V4RoundTrip(n: nat)
    requires n < 0x1_0000_0000
    ensures ParseV4(PrintV4(n)) == Some(n)
  {
    var d, c, b, a := Byte(n, 0), Byte(n, 1), Byte(n, 2), Byte(n, 3);
    Bytes(n);
    ByteRange(n, 0);
    ByteRange(n, 1);
    ByteRange(n, 2);
    ByteRange(n, 3);
    PrintedOctet(a);
    PrintedOctet(b);
    PrintedOctet(c);
    PrintedOctet(d);
    ReadsStrings(Numeral(a, Dec), a, Numeral(b, Dec), b, Numeral(c, Dec), c, Numeral(d, Dec), d);
  }

  predicate SpellsOctet(s: string, v: nat) { ParseOctet(s) == Some(v) && '.' !in s && '/' !in s }

  lemma ReadsStrings(s0: string, a: nat, s1: string, b: nat, s2: string, c: nat, s3: string, d: nat)
    requires SpellsOctet(s0, a) && SpellsOctet(s1, b) && SpellsOctet(s2, c) && SpellsOctet(s3, d)
    ensures ParseV4(Join([s0, s1, s2, s3], '.')) == Some(((a * 256 + b) * 256 + c) * 256 + d)
  {
    ReadsOctets([s0, s1, s2, s3]);
  }

  lemma ReadsOctets(o: seq<string>)
    requires |o| == 4 && forall p :: p in o ==> '.' !in p && '/' !in p
    ensures ParseV4(Join(o, '.')) == FromOctets(o)
  {
    SplitJoin(o, '.');
    JoinHolds(o, '.', '/');
    assert |Split("", '.')| == 1;
  }

  // ----- which texts are accepted

  /** One to three decimal digits of value v, at most 255, and not a value above 7
      with a leading zero. */
  predicate IsOctet(s: string, v: nat) {
    1 <= |s| <= 3 && AllDigits(s, Dec) && ParseNumeral(s, Dec) == v && v <= 255 && (v <= 7 || s[0] != '0')
  }

  /** s is the four octets, joined by dots, and n their big-endian number. */
  ghost predicate Dotted(s: string, octets: seq<string>, v: seq<nat>, n: nat) {
    && |octets| == 4 && |v| == 4 && s == Join(octets, '.')
    && (forall i :: 0 <= i < 4 ==> IsOctet(octets[i], v[i]))
    && n == ((v[0] * 256 + v[1]) * 256 + v[2]) * 256 + v[3]
  }

  ghost predicate IsDotted(s: string, n: nat) { exists octets, v :: Dotted(s, octets, v, n) }

  lemma OctetExact(s: string, v: nat)
    ensures ParseOctet(s) == Some(v) <==> IsOctet(s, v)
  {}

  lemma OctetPlain(s: string, v: nat)
    requires IsOctet(s, v)
    ensures '.' !in s && '/' !in s
  {
    assert forall i :: 0 <= i < |s| ==> IsDigit(s[i], Dec) && s[i] != '.' && s[i] != '/';
  }

  lemma DottedParses(s: string, octets: seq<string>, v: seq<nat>, n: nat)
    requires Dotted(s, octets, v, n)
    ensures ParseV4(s) == Some(n)
  {
    forall i | 0 <= i < 4 ensures ParseOctet(octets[i]) == Some(v[i]) && '.' !in octets[i] && '/' !in octets[i] {
      OctetExact(octets[i], v[i]);
      OctetPlain(octets[i], v[i]);
    }
    ReadsOctets(octets);
  }

  lemma ParsedDotted(s: string, n: nat)
    requires ParseV4(s) == Some(n)
    ensures IsDotted(s, n)
  {
    var o := Split(s, '.');
    JoinSplit(s, '.');
    var v := [ParseOctet(o[0]).value, ParseOctet(o[1]).value, ParseOctet(o[2]).value, ParseOctet(o[3]).value];
    forall i | 0 <= i < 4 ensures IsOctet(o[i], v[i]) { OctetExact(o[i], v[i]); }
    assert Dotted(s, o, v, n);
  }

  /** A text is accepted exactly when it is four octets joined by dots, and stands
      for their number. */
  lemma V4Exact(s: string, n: nat)
    ensures ParseV4(s) == Some(n) <==> IsDotted(s, n)
  {
    if ParseV4(s) == Some(n) { ParsedDotted(s, n); }
    if octets, v :| Dotted(s, octets, v, n) { DottedParses(s, octets, v, n); }
  }

  lemma DottedRange(s: string, n: nat)
    requires IsDotted(s, n)
    ensures n < 0x1_0000_0000
  {
    var octets, v :| Dotted(s, octets, v, n);
    FourBytes(v[0], v[1], v[2], v[3]);
  }

  lemma FourBytes(a: nat, b: nat, c: nat, d: nat)
    requires a <= 255 && b <= 255 && c <= 255 && d <= 255
    ensures ((a * 256 + b) * 256 + c) * 256 + d < 0x1_0000_0000
  {}

  /** Only decimal digits and dots. */
  predicate DotsAndDigits(s: string) { forall i :: 0 <= i < |s| ==> IsDigit(s[i], Dec) || s[i] == '.' }

  lemma DottedChars(s: string, n: nat)
    requires IsDotted(s, n)
    ensures DotsAndDigits(s)
  {
    var octets, v :| Dotted(s, octets, v, n);
    forall i | 0 <= i < |octets| ensures AllDigits(octets[i], Dec) { assert IsOctet(octets[i], v[i]); }
    JoinChars(octets);
  }

  lemma {:induction false} JoinChars(parts: seq<string>)
    requires forall i :: 0 <= i < |parts| ==> AllDigits(parts[i], Dec)
    ensures DotsAndDigits(Join(parts, '.'))
  {
    if |parts| > 1 {
      JoinChars(parts[1..]);
      ConcatChars(parts[0], ".");
      ConcatChars(parts[0] + ".", Join(parts[1..], '.'));
      assert AllDigits(parts[0], Dec);
    }
  }

  lemma ConcatChars(a: string, b: string)
    ensures DotsAndDigits(a) && DotsAndDigits(b) ==> DotsAndDigits(a + b)
  {}
}
