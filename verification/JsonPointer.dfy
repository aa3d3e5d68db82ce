/** JSON pointers (RFC 6901): escaping, percent-decoding, and exactly when a
    list of parts survives the trip through its path. */
module JsonPointer {
  import opened Text

  datatype Result<+T> = Ok(value: T) | JsonPointerException

  /** part.replace('~', '~0').replace('/', '~1'). */
  function Escape(part: string): string {
    Replace(Replace(part, '~', "~0"), '/', "~1")
  }

  /** part.replace('~1', '/').replace('~0', '~'). */
  function Unescape(part: string): string {
    Replace2(Replace2(part, '~', '1', "/"), '~', '0', "~")
  }

  /** s starts with a percent sign and two hexadecimal digits. */
  predicate TripleAt(s: string) {
    |s| >= 3 && s[0] == '%' && IsDigit(s[1], Hex) && IsDigit(s[2], Hex)
  }

  predicate HasTriple(s: string) {
    s != "" && (TripleAt(s) || HasTriple(s[1..]))
  }

  function DecodeByte(hi: char, lo: char): char
    requires IsDigit(hi, Hex) && IsDigit(lo, Hex)
  {
    var v := 16 * DigitValue(hi).value + DigitValue(lo).value;
    if v < 128 then v as char else '\U{FFFD}'
  }

  /** unquote: every percent triple becomes the character it encodes. */
  function Unquote(s: string): string {
    if s == "" then ""
    else if TripleAt(s) then [DecodeByte(s[1], s[2])] + Unquote(s[3..])
    else [s[0]] + Unquote(s[1..])
  }

  /** JsonPointer.path for the given parts. */
  function Path(parts: seq<string>): string {
    if parts == [] then "" else "/" + Escape(parts[0]) + Path(parts[1..])
  }

  function MapParts(parts: seq<string>): (r: seq<string>)
    ensures |r| == |parts| && forall i :: 0 <= i < |parts| ==> r[i] == Unescape(Unquote(parts[i]))
  {
    if parts == [] then [] else [Unescape(Unquote(parts[0]))] + MapParts(parts[1..])
  }

  /** JsonPointer.__init__, as the parts it stores. */
  function Parse(pointer: string): Result<seq<string>> {
    var parts := Split(pointer, '/');
    if parts[0] != "" then JsonPointerException else Ok(MapParts(parts[1..]))
  }

  /** from_parts, as the parts of the pointer it builds. */
  function FromParts(parts: seq<string>): Result<seq<string>> { Parse(Path(parts)) }

  // ----- escaping, one character at a time

  lemma ReplaceStep(c: char, s: string, x: char, r: string)
    ensures Replace([c] + s, x, r) == (if c == x then r else [c]) + Replace(s, x, r)
  {
    assert ([c] + s)[1..] == s;
  }

  lemma EscapeStep(c: char, s: string)
    ensures Escape([c] + s) == (if c == '~' then "~0" else if c == '/' then "~1" else [c]) + Escape(s)
  {
    var t := Replace(s, '~', "~0");
    ReplaceStep(c, s, '~', "~0");
    if c == '~' {
      assert "~0" + t == ['~'] + (['0'] + t);
      ReplaceStep('~', ['0'] + t, '/', "~1");
      ReplaceStep('0', t, '/', "~1");
    } else {
      ReplaceStep(c, t, '/', "~1");
    }
  }

  lemma Replace2Step(c: char, s: string, p0: char, p1: char, r: string)
    requires c != p0 || s == "" || s[0] != p1
    ensures Replace2([c] + s, p0, p1, r) == [c] + Replace2(s, p0, p1, r)
  {
    assert ([c] + s)[1..] == s;
  }

  lemma Replace2Hit(s: string, p0: char, p1: char, r: string)
    ensures Replace2([p0, p1] + s, p0, p1, r) == r + Replace2(s, p0, p1, r)
  {
    assert ([p0, p1] + s)[2..] == s;
  }

  lemma FirstKept(s: string)
    ensures var u := Replace2(s, '~', '1', "/");
      (u == "" <==> s == "") && (s != "" ==> u[0] == s[0] || (s[0] == '~' && u[0] == '/'))
  {}

  lemma UnescapePlain(c: char, s: string)
    requires c != '~'
    ensures Unescape([c] + s) == [c] + Unescape(s)
  {
    Replace2Step(c, s, '~', '1', "/");
    Replace2Step(c, Replace2(s, '~', '1', "/"), '~', '0', "~");
  }

  lemma UnescapeTilde(s: string)
    ensures Unescape("~0" + s) == "~" + Unescape(s)
  {
    var u := Replace2(s, '~', '1', "/");
    assert "~0" + s == ['~'] + (['0'] + s);
    Replace2Step('0', s, '~', '1', "/");
    Replace2Step('~', ['0'] + s, '~', '1', "/");
    assert ['~'] + (['0'] + u) == ['~', '0'] + u;
    Replace2Hit(u, '~', '0', "~");
  }

  lemma UnescapeSlash(s: string)
    ensures Unescape("~1" + s) == "/" + Unescape(s)
  {
    assert "~1" + s == ['~', '1'] + s;
    Replace2Hit(s, '~', '1', "/");
    Replace2Step('/', Replace2(s, '~', '1', "/"), '~', '0', "~");
  }

  /** One more character in front adds at most one to the unescaped length. */
  lemma UnescapeGrows(c: char, s: string)
    ensures |Unescape([c] + s)| <= 1 + |Unescape(s)|
  {
    if c != '~' {
      UnescapePlain(c, s);
    } else if s != "" && s[0] == '0' {
      assert s == ['0'] + s[1..];
      assert [c] + s == "~0" + s[1..];
      UnescapeTilde(s[1..]);
      UnescapePlain('0', s[1..]);
    } else if s != "" && s[0] == '1' {
      assert s == ['1'] + s[1..];
      assert [c] + s == "~1" + s[1..];
      UnescapeSlash(s[1..]);
      UnescapePlain('1', s[1..]);
    } else {
      Replace2Step(c, s, '~', '1', "/");
      FirstKept(s);
      Replace2Step(c, Replace2(s, '~', '1', "/"), '~', '0', "~");
    }
  }

  /** A tilde that no escape follows stays. */
  lemma UnescapeStray(s: string)
    requires s == "" || (s[0] != '0' && s[0] != '1')
    ensures Unescape("~" + s) == "~" + Unescape(s)
  {
    var u := Replace2(s, '~', '1', "/");
    Replace2Step('~', s, '~', '1', "/");
    FirstKept(s);
    Replace2Step('~', u, '~', '0', "~");
  }

  /** Reading escapes from left to right: ~0 is a tilde, ~1 a slash, and every other
      character is itself. */
  lemma UnescapeExact(s: string)
    ensures Unescape("") == ""
    ensures |s| >= 2 && s[..2] == "~0" ==> Unescape(s) == "~" + Unescape(s[2..])
    ensures |s| >= 2 && s[..2] == "~1" ==> Unescape(s) == "/" + Unescape(s[2..])
    ensures s != "" && (|s| == 1 || (s[..2] != "~0" && s[..2] != "~1")) ==> Unescape(s) == [s[0]] + Unescape(s[1..])
  {
    if |s| >= 2 && s[..2] == "~0" {
      assert s == "~0" + s[2..];
      UnescapeTilde(s[2..]);
    } else if |s| >= 2 && s[..2] == "~1" {
      assert s == "~1" + s[2..];
      UnescapeSlash(s[2..]);
    } else if s != "" {
      assert s == [s[0]] + s[1..];
      if s[0] != '~' { UnescapePlain(s[0], s[1..]); } else { StrayFront(s); }
    }
  }

  lemma StrayFront(s: string)
    requires s != "" && s[0] == '~' && (|s| == 1 || (s[..2] != "~0" && s[..2] != "~1"))
    ensures Unescape(s) == [s[0]] + Unescape(s[1..])
  {
    assert s == "~" + s[1..];
    if |s| > 1 { assert s[..2] == ['~', s[1]]; }
    UnescapeStray(s[1..]);
  }

  /** The two replacements on each side undo each other. */
  lemma {:induction false} UnescapeEscape(p: string)
    ensures Unescape(Escape(p)) == p
  {
    if p != "" {
      UnescapeEscape(p[1..]);
      assert p == [p[0]] + p[1..];
      EscapeStep(p[0], p[1..]);
      if p[0] == '~' {
        UnescapeTilde(Escape(p[1..]));
      } else if p[0] == '/' {
        UnescapeSlash(Escape(p[1..]));
      } else {
        UnescapePlain(p[0], Escape(p[1..]));
      }
    }
  }

  /** An escaped part holds no slash. */
  lemma {:induction false} EscapeNoSlash(p: string)
    ensures '/' !in Escape(p)
  {
    if p != "" {
      EscapeNoSlash(p[1..]);
      assert p == [p[0]] + p[1..];
      EscapeStep(p[0], p[1..]);
    }
  }

  // ----- escaping and percent-decoding

  /** Escaping neither makes nor breaks a percent triple at the front. */
  lemma TripleKept(p: string)
    requires p != ""
    ensures TripleAt(Escape(p)) <==> TripleAt(p)
    ensures TripleAt(p) ==> Escape(p) == p[..3] + Escape(p[3..])
  {
    assert p == [p[0]] + p[1..];
    EscapeStep(p[0], p[1..]);
    assert p[0] == '%' ==> Escape(p) == [p[0]] + Escape(p[1..]);
    if |p| > 1 {
      assert p[1..] == [p[1]] + p[2..];
      EscapeStep(p[1], p[2..]);
      if |p| > 2 {
        assert p[2..] == [p[2]] + p[3..];
        EscapeStep(p[2], p[3..]);
      }
    }
  }

  lemma UnquoteStep(c: char, s: string)
    requires !TripleAt([c] + s)
    ensures Unquote([c] + s) == [c] + Unquote(s)
  {
    assert ([c] + s)[1..] == s;
  }

  /** A percent sign and two digits, of either case, are the character with that
      number, below 128. */
  lemma UnquoteByte(hi: nat, lo: nat, x: char, y: char, s: string)
    requires hi < 8 && lo < 16 && x == "01234567"[hi]
    requires y == "0123456789abcdef"[lo] || y == "0123456789ABCDEF"[lo]
    ensures Unquote(['%', x, y] + s) == [(16 * hi + lo) as char] + Unquote(s)
  {
    DigitExact(x, hi);
    DigitExact(y, lo);
    LowerDigits(hi);
    assert (['%', x, y] + s)[3..] == s;
  }

  /** At the front of a part that starts no triple, one character goes through. */
  lemma CharRoundTrip(c: char, rest: string)
    requires !TripleAt([c] + rest)
    ensures Unescape(Unquote(Escape([c] + rest))) == [c] + Unescape(Unquote(Escape(rest)))
  {
    TripleKept([c] + rest);
    EscapeStep(c, rest);
    var e := Escape(rest);
    if c == '~' {
      assert Escape([c] + rest) == ['~'] + (['0'] + e);
      UnquoteStep('0', e);
      UnquoteStep('~', ['0'] + e);
      assert Unquote(Escape([c] + rest)) == "~0" + Unquote(e);
      UnescapeTilde(Unquote(e));
    } else if c == '/' {
      assert Escape([c] + rest) == ['~'] + (['1'] + e);
      UnquoteStep('1', e);
      UnquoteStep('~', ['1'] + e);
      assert Unquote(Escape([c] + rest)) == "~1" + Unquote(e);
      UnescapeSlash(Unquote(e));
    } else {
      UnquoteStep(c, e);
      UnescapePlain(c, Unquote(e));
    }
  }

  /** Decoding and unescaping an escaped part gives at most the part's length,
      and gives the part itself exactly when it has no percent triple. */
  lemma {:induction false} PartRoundTrip(p: string)
    ensures |Unescape(Unquote(Escape(p)))| <= |p|
    ensures HasTriple(p) ==> |Unescape(Unquote(Escape(p)))| < |p|
    ensures Unescape(Unquote(Escape(p))) == p <==> !HasTriple(p)
    decreases |p|
  {
    if p != "" {
      var rest := p[1..];
      assert p == [p[0]] + rest;
      if TripleAt(p) {
        TripleKept(p);
        PartRoundTrip(p[3..]);
        assert (p[..3] + Escape(p[3..]))[3..] == Escape(p[3..]);
        UnescapeGrows(DecodeByte(p[1], p[2]), Unquote(Escape(p[3..])));
      } else {
        CharRoundTrip(p[0], rest);
        PartRoundTrip(rest);
      }
    }
  }

  // ----- whole pointers

  function EscapeAll(parts: seq<string>): (r: seq<string>)
    ensures |r| == |parts| && forall i :: 0 <= i < |parts| ==> r[i] == Escape(parts[i])
  {
    if parts == [] then [] else [Escape(parts[0])] + EscapeAll(parts[1..])
  }

  lemma {:induction false} PathIsJoin(parts: seq<string>)
    ensures Path(parts) == Join([""] + EscapeAll(parts), '/')
  {
    if parts == [] {
      assert [""] + EscapeAll(parts) == [""];
    } else {
      PathIsJoin(parts[1..]);
      var e, rest := Escape(parts[0]), EscapeAll(parts[1..]);
      assert EscapeAll(parts) == [e] + rest;
      JoinCons("", [e] + rest);
      JoinWithHead(e, rest);
    }
  }

  lemma JoinCons(head: string, tail: seq<string>)
    requires tail != []
    ensures Join([head] + tail, '/') == head + ['/'] + Join(tail, '/')
  {
    assert ([head] + tail)[1..] == tail;
  }

  lemma JoinWithHead(e: string, rest: seq<string>)
    ensures "" + ['/'] + Join([e] + rest, '/') == "/" + e + Join([""] + rest, '/')
  {
    if rest == [] {
      assert [e] + rest == [e] && [""] + rest == [""];
    } else {
      JoinCons(e, rest);
      JoinCons("", rest);
    }
  }

  lemma PathSplits(parts: seq<string>)
    ensures Split(Path(parts), '/') == [""] + EscapeAll(parts)
  {
    PathIsJoin(parts);
    var all := [""] + EscapeAll(parts);
    forall p | p in all ensures '/' !in p {
      var i :| 0 <= i < |all| && all[i] == p;
      if i > 0 { EscapeNoSlash(parts[i - 1]); }
    }
    SplitJoin(all, '/');
  }

  /** A pointer is the pieces between its slashes, each decoded and then unescaped. */
  lemma ParsePieces(pieces: seq<string>)
    requires forall p :: p in pieces ==> '/' !in p
    ensures Parse(Join([""] + pieces, '/')).Ok?
    ensures var parts := Parse(Join([""] + pieces, '/')).value;
      |parts| == |pieces| && forall i :: 0 <= i < |parts| ==> parts[i] == Unescape(Unquote(pieces[i]))
  {
    SplitJoin([""] + pieces, '/');
    assert ([""] + pieces)[1..] == pieces;
  }

  /** A string is a pointer exactly when it is empty or starts with a slash, and then it
      is made of such pieces. */
  lemma ParseExact(pointer: string) returns (pieces: seq<string>)
    ensures Parse(pointer).Ok? <==> pointer == "" || pointer[0] == '/'
    ensures Parse(pointer).Ok? ==> pointer == Join([""] + pieces, '/') && forall p :: p in pieces ==> '/' !in p
  {
    var all := Split(pointer, '/');
    pieces := all[1..];
    JoinSplit(pointer, '/');
    assert all == [all[0]] + pieces;
  }

  /** What a part has become once it was written to a path and read from it. */
  function Reread(part: string): string { Unescape(Unquote(Escape(part))) }

  function RereadAll(parts: seq<string>): (r: seq<string>)
    ensures |r| == |parts| && forall i :: 0 <= i < |r| ==> r[i] == Reread(parts[i])
  {
    seq(|parts|, i requires 0 <= i < |parts| => Reread(parts[i]))
  }

  lemma PathReads(parts: seq<string>)
    ensures FromParts(parts) == Ok(RereadAll(parts))
  {
    PathSplits(parts);
    var all := [""] + EscapeAll(parts);
    assert all[1..] == EscapeAll(parts);
    assert MapParts(EscapeAll(parts)) == RereadAll(parts);
  }

  /** from_parts never raises, and gives back its parts, in order, exactly when
      none of them holds a percent triple. */
  lemma FromPartsRoundTrip(parts: seq<string>)
    ensures FromParts(parts).Ok? && |FromParts(parts).value| == |parts|
    ensures FromParts(parts) == Ok(parts) <==> forall i :: 0 <= i < |parts| ==> !HasTriple(parts[i])
  {
    PathReads(parts);
    var r := RereadAll(parts);
    forall i | 0 <= i < |parts| ensures r[i] == parts[i] <==> !HasTriple(parts[i]) { PartRoundTrip(parts[i]); }
    assert r == parts <==> forall i :: 0 <= i < |parts| ==> r[i] == parts[i];
  }

  /** A failing part: %41 comes back as something else. */
  lemma PercentPartLost(part: string)
    requires part == "%41"
    ensures FromParts([part]) != Ok([part])
  {
    assert TripleAt(part);
    FromPartsRoundTrip([part]);
    assert HasTriple([part][0]);
  }

  /** A pointer built from parts equals the pointer parsed from its own path
      exactly when no part of the pointer, as it was read, holds a percent triple. */
  lemma OwnPathRoundTrip(parts: seq<string>)
    ensures FromParts(parts) == Ok(RereadAll(parts))
    ensures var q := RereadAll(parts);
      Parse(Path(q)) == Ok(q) <==> forall i :: 0 <= i < |parts| ==> !HasTriple(Reread(parts[i]))
  {
    PathReads(parts);
    FromPartsRoundTrip(RereadAll(parts));
  }

  /** Different part lists have different paths, whatever they hold. */
  lemma PathInjective(a: seq<string>, b: seq<string>)
    requires Path(a) == Path(b)
    ensures a == b
  {
    PathSplits(a);
    PathSplits(b);
    var x, y := EscapeAll(a), EscapeAll(b);
    assert x == ([""] + x)[1..] == ([""] + y)[1..] == y;
    forall i | 0 <= i < |a| ensures a[i] == b[i] {
      assert x[i] == y[i];
      UnescapeEscape(a[i]);
      UnescapeEscape(b[i]);
    }
  }
}
