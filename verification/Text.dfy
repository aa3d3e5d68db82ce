/** The string operations the models share: split and join on a separator, and
    numerals in bases up to sixteen. */
module Text {
  import opened Wrappers

  // ----- split and join

  /** s.split(c). */
  function Split(s: string, c: char): (parts: seq<string>)
    ensures parts != []
  {
    if s == "" then [""]
    else
      var rest := Split(s[1..], c);
      if s[0] == c then [""] + rest else [[s[0]] + rest[0]] + rest[1..]
  }

  /** c.join(parts). */
  function Join(parts: seq<string>, c: char): string {
    if parts == [] then "" else if |parts| == 1 then parts[0] else parts[0] + [c] + Join(parts[1..], c)
  }

  /** Splitting a joined list gives the list back, unless a part holds the
      separator. */
  lemma {:induction false} SplitJoin(parts: seq<string>, c: char)
    requires parts != [] && forall p :: p in parts ==> c !in p
    ensures Split(Join(parts, c), c) == parts
  {
    if |parts| == 1 {
      SplitPlain(parts[0], "", c);
      assert parts[0] + "" == parts[0];
      assert parts == [parts[0]];
    } else {
      SplitJoin(parts[1..], c);
      var rest := Join(parts[1..], c);
      SplitPlain(parts[0], [c] + rest, c);
      assert Join(parts, c) == parts[0] + ([c] + rest);
      assert ([c] + rest)[1..] == rest;
      assert parts[0] + "" == parts[0];
    }
  }

  lemma {:induction false} SplitPlain(p: string, s: string, c: char)
    requires c !in p
    ensures var rest := Split(s, c); Split(p + s, c) == [p + rest[0]] + rest[1..]
  {
    if p == "" {
      assert p + s == s;
      var rest := Split(s, c);
      assert "" + rest[0] == rest[0];
    } else {
      SplitPlain(p[1..], s, c);
      assert (p + s)[1..] == p[1..] + s;
      var rest := Split(s, c);
      assert [p[0]] + (p[1..] + rest[0]) == p + rest[0];
    }
  }

  /** Joining what was split gives the string back, and no part holds the
      separator. */
  lemma {:induction false} JoinSplit(s: string, c: char)
    ensures Join(Split(s, c), c) == s
    ensures forall p :: p in Split(s, c) ==> c !in p
  {
    if s != "" {
      JoinSplit(s[1..], c);
      var rest := Split(s[1..], c);
      if s[0] == c {
        var parts := [""] + rest;
        assert parts[1..] == rest;
        assert Join(parts, c) == "" + [c] + s[1..];
      } else {
        var parts := [[s[0]] + rest[0]] + rest[1..];
        assert parts[1..] == rest[1..];
        if |rest| == 1 {
          assert Join(parts, c) == [s[0]] + s[1..];
        } else {
          assert Join(parts, c) == [s[0]] + (rest[0] + [c] + Join(rest[1..], c));
        }
      }
    }
  }

  /** Joining is splitting at the seam. */
  lemma {:induction false} JoinConcat(a: seq<string>, b: seq<string>, c: char)
    requires a != [] && b != []
    ensures Join(a + b, c) == Join(a, c) + [c] + Join(b, c)
  {
    if |a| == 1 {
      assert (a + b)[1..] == b;
    } else {
      JoinConcat(a[1..], b, c);
      assert (a + b)[1..] == a[1..] + b;
    }
  }

  // ----- numerals

  const DIGITS: string := "0123456789abcdef"

  /** The value of a digit character, of either case. */
  function DigitValue(ch: char): Option<nat> {
    if '0' <= ch <= '9' then Some(ch as nat - '0' as nat)
    else if 'a' <= ch <= 'f' then Some(ch as nat - 'a' as nat + 10)
    else if 'A' <= ch <= 'F' then Some(ch as nat - 'A' as nat + 10)
    else None
  }

  /** The two bases in use; each operation on a base is linear. */
  datatype Base = Dec | Hex {
    function Size(): nat { if Dec? then 10 else 16 }

    function Times(n: nat): nat { if Dec? then 10 * n else 16 * n }

    function Div(n: nat): nat { if Dec? then n / 10 else n / 16 }

    function Mod(n: nat): nat { if Dec? then n % 10 else n % 16 }
  }

  predicate IsDigit(ch: char, base: Base) {
    DigitValue(ch).Some? && DigitValue(ch).value < base.Size()
  }

  predicate AllDigits(s: string, base: Base) {
    forall i :: 0 <= i < |s| ==> IsDigit(s[i], base)
  }

  /** int(s, base) on a string of digits. */
  function ParseNumeral(s: string, base: Base): nat
    requires AllDigits(s, base)
  {
    if s == "" then 0
    else base.Times(ParseNumeral(s[..|s| - 1], base)) + DigitValue(s[|s| - 1]).value
  }

  /** str(n) in base ten and '%x' % n in base sixteen. */
  function Numeral(n: nat, base: Base): (s: string)
    ensures s != ""
  {
    if n < base.Size() then [DIGITS[n]] else Numeral(base.Div(n), base) + [DIGITS[base.Mod(n)]]
  }

  lemma DigitRoundTrip(d: nat)
    requires d < 16
    ensures DigitValue(DIGITS[d]) == Some(d)
  {}

  lemma AppendDigit(s: string, d: nat, base: Base)
    requires AllDigits(s, base) && d < base.Size()
    ensures AllDigits(s + [DIGITS[d]], base)
    ensures ParseNumeral(s + [DIGITS[d]], base) == base.Times(ParseNumeral(s, base)) + d
  {
    DigitRoundTrip(d);
    var t := s + [DIGITS[d]];
    assert t[..|t| - 1] == s;
  }

  /** A numeral has only digits, reads back, and starts with a zero only for
      zero. */
  lemma {:induction false} NumeralRoundTrip(n: nat, base: Base)
    ensures AllDigits(Numeral(n, base), base)
    ensures ParseNumeral(Numeral(n, base), base) == n
    ensures Numeral(n, base)[0] == '0' ==> n == 0
  {
    if n < base.Size() {
      AppendDigit("", n, base);
      assert "" + [DIGITS[n]] == [DIGITS[n]];
      DigitRoundTrip(n);
    } else {
      NumeralRoundTrip(base.Div(n), base);
      AppendDigit(Numeral(base.Div(n), base), base.Mod(n), base);
    }
  }

  /** base^k. */
  function Power(base: Base, k: nat): nat {
    if k == 0 then 1 else base.Times(Power(base, k - 1))
  }

  /** Below base^k a numeral has at most k digits. */
  lemma {:induction false} NumeralLength(n: nat, base: Base, k: nat)
    requires k > 0 && n < Power(base, k)
    ensures |Numeral(n, base)| <= k
  {
    if n >= base.Size() {
      assert Power(base, 0) == 1;
      NumeralLength(base.Div(n), base, k - 1);
    }
  }

  // ----- what numerals mean

  /** The sixteen digits and no other characters have values; the letters have
      them in either case. */
  lemma DigitExact(c: char, d: nat)
    ensures DigitValue(c) == Some(d) <==> d < 16 && (c == "0123456789abcdef"[d] || c == "0123456789ABCDEF"[d])
  {
    if d < 16 {
      LowerDigits(d);
      UpperDigits(d);
      var lower, upper := "0123456789abcdef"[d], "0123456789ABCDEF"[d];
      SameDigit(c, lower, upper, d);
    }
  }

  lemma LowerDigits(d: nat)
    requires d < 16
    ensures DigitValue("0123456789abcdef"[d]) == Some(d)
    ensures "0123456789abcdef"[d] == if d < 10 then '0' + d as char else 'a' + (d - 10) as char
  {}

  lemma UpperDigits(d: nat)
    requires d < 16
    ensures DigitValue("0123456789ABCDEF"[d]) == Some(d)
    ensures "0123456789ABCDEF"[d] == if d < 10 then '0' + d as char else 'A' + (d - 10) as char
  {}

  lemma SameDigit(c: char, lower: char, upper: char, d: nat)
    requires d < 16 && lower == (if d < 10 then '0' + d as char else 'a' + (d - 10) as char)
    requires upper == if d < 10 then '0' + d as char else 'A' + (d - 10) as char
    ensures DigitValue(c) == Some(d) <==> c == lower || c == upper
  {}

  /** A further digit: ten or sixteen times what came before, and its value. */
  lemma ParseAppend(s: string, c: char, base: Base)
    requires AllDigits(s, base) && IsDigit(c, base)
    ensures AllDigits(s + [c], base)
    ensures ParseNumeral(s + [c], base) == (if base.Dec? then 10 else 16) * ParseNumeral(s, base) + DigitValue(c).value
  {
    var t := s + [c];
    assert t[..|t| - 1] == s;
  }

  /** The letters in lower case. */
  function LowerChar(c: char): char { if 'A' <= c <= 'Z' then c - 'A' + 'a' else c }

  function Lower(s: string): (r: string)
    ensures |r| == |s| && forall i :: 0 <= i < |r| ==> r[i] == LowerChar(s[i])
  {
    seq(|s|, i requires 0 <= i < |s| => LowerChar(s[i]))
  }

  lemma LowerDigit(c: char)
    ensures DigitValue(LowerChar(c)) == DigitValue(c)
    ensures DigitValue(c).Some? ==> LowerChar(c) == DIGITS[DigitValue(c).value]
  {
    if DigitValue(c).Some? {
      var d := DigitValue(c).value;
      LowerDigits(d);
      UpperDigits(d);
    }
  }

  lemma LowerAppend(s: string, c: char)
    ensures Lower(s + [c]) == Lower(s) + [LowerChar(c)]
  {}

  /** A numeral and its lower-case form are read alike. */
  lemma {:induction false} LowerParses(s: string, base: Base)
    ensures AllDigits(Lower(s), base) <==> AllDigits(s, base)
    ensures AllDigits(s, base) ==> ParseNumeral(Lower(s), base) == ParseNumeral(s, base)
  {
    forall i | 0 <= i < |s| ensures DigitValue(Lower(s)[i]) == DigitValue(s[i]) { LowerDigit(s[i]); }
    assert AllDigits(s, base) ==> forall i :: 0 <= i < |s| ==> IsDigit(Lower(s)[i], base);
    assert AllDigits(Lower(s), base) ==> forall i :: 0 <= i < |s| ==> IsDigit(Lower(s)[i], base);
    if s != "" && AllDigits(s, base) {
      var t := s[..|s| - 1];
      LowerParses(t, base);
      assert Lower(s)[..|s| - 1] == Lower(t);
    }
  }

  /** k zeros. */
  function Noughts(k: nat): (z: string)
    ensures |z| == k && forall i :: 0 <= i < k ==> z[i] == '0'
  {
    seq(k, i => '0')
  }

  lemma NoughtsAppend(k: nat)
    ensures Noughts(k) + "0" == Noughts(k + 1)
  {}

  /** s is, up to case, the numeral of n after k zeros. */
  predicate Writes(s: string, n: nat, base: Base, k: nat) { Lower(s) == Noughts(k) + Numeral(n, base) }

  /** The digit strings that stand for a number are, up to case, its printed
      numeral and that with zeros in front. */
  lemma {:induction false} NumeralExact(s: string, base: Base) returns (k: nat)
    requires s != "" && AllDigits(s, base)
    ensures Writes(s, ParseNumeral(s, base), base, k)
  {
    var t, c := s[..|s| - 1], s[|s| - 1];
    assert s == t + [c];
    ParseAppend(t, c, base);
    if t == "" {
      k := 0;
      OneDigitWrites(s, c, base);
    } else {
      var j := NumeralExact(t, base);
      k := MoreWrites(s, t, c, ParseNumeral(t, base), ParseNumeral(s, base), base, j);
    }
  }

  lemma OneDigitWrites(s: string, c: char, base: Base)
    requires s == [c] && IsDigit(c, base)
    ensures Writes(s, DigitValue(c).value, base, 0)
  {
    LowerDigit(c);
    assert Noughts(0) == "" && Lower(s) == [LowerChar(c)];
    assert "" + [LowerChar(c)] == [LowerChar(c)];
  }

  lemma MoreWrites(s: string, t: string, c: char, m: nat, n: nat, base: Base, j: nat) returns (k: nat)
    requires Writes(t, m, base, j) && IsDigit(c, base) && s == t + [c] && n == base.Times(m) + DigitValue(c).value
    ensures Writes(s, n, base, k)
  {
    NumeralGrows(m, DigitValue(c).value, n, base);
    k := if m == 0 then j + 1 else j;
    MoreWritten(s, t, c, base, Numeral(m, base), Numeral(n, base), m == 0, j);
  }

  lemma MoreWritten(s: string, t: string, c: char, base: Base, short: string, long: string, zero: bool, j: nat)
    requires IsDigit(c, base) && s == t + [c] && Lower(t) == Noughts(j) + short
    requires var x := DIGITS[DigitValue(c).value]; if zero then short == "0" && long == [x] else long == short + [x]
    ensures Lower(s) == Noughts(if zero then j + 1 else j) + long
  {
    LowerAppend(t, c);
    LowerDigit(c);
    OneMoreDigit(Lower(s), short, long, DIGITS[DigitValue(c).value], zero, j);
  }

  lemma OneMoreDigit(s: string, short: string, long: string, x: char, zero: bool, j: nat)
    requires s == (Noughts(j) + short) + [x]
    requires if zero then short == "0" && long == [x] else long == short + [x]
    ensures s == Noughts(if zero then j + 1 else j) + long
  {
    if zero { NoughtsAppend(j); } else { Regroup(Noughts(j), short, [x]); }
  }

  lemma Regroup(a: string, b: string, c: string)
    ensures (a + b) + c == a + (b + c)
  {}

  lemma NumeralGrows(m: nat, d: nat, n: nat, base: Base)
    requires d < base.Size() && n == base.Times(m) + d
    ensures m > 0 ==> Numeral(n, base) == Numeral(m, base) + [DIGITS[d]]
    ensures m == 0 ==> Numeral(m, base) == "0" && Numeral(n, base) == [DIGITS[d]]
  {
    DivTimes(m, d, base);
    if m > 0 { assert Numeral(n, base) == Numeral(base.Div(n), base) + [DIGITS[base.Mod(n)]]; }
  }

  lemma DivTimes(m: nat, d: nat, base: Base)
    requires d < base.Size()
    ensures base.Div(base.Times(m) + d) == m && base.Mod(base.Times(m) + d) == d
    ensures m > 0 ==> base.Times(m) + d >= base.Size()
  {}

  // ----- substitution of one character

  /** s.replace(c, r) for a single character c. */
  function Replace(s: string, c: char, r: string): string {
    if s == "" then "" else (if s[0] == c then r else [s[0]]) + Replace(s[1..], c, r)
  }

  /** s.replace(p, r) for a pattern of two different characters, scanning left to
      right. */
  function Replace2(s: string, p0: char, p1: char, r: string): string {
    if |s| < 2 then s
    else if s[0] == p0 && s[1] == p1 then r + Replace2(s[2..], p0, p1, r)
    else [s[0]] + Replace2(s[1..], p0, p1, r)
  }
}
