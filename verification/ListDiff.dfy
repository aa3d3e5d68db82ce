/** Differences between two lists: the longest common block, the split around
    it, the script of removals and additions with its running index shift, and
    the replay of that script. */
module ListDiff {
  import opened Wrappers

  // ----- the longest common block

  /** The length of the longest common run ending at src[i] and dst[j]. */
  function CommonSuffix<T(==)>(src: seq<T>, dst: seq<T>, i: nat, j: nat): (n: nat)
    requires i < |src| && j < |dst|
    ensures n <= i + 1 && n <= j + 1
  {
    if src[i] != dst[j] then 0
    else if i == 0 || j == 0 then 1
    else CommonSuffix(src, dst, i - 1, j - 1) + 1
  }

  /** Two ranges of the same length, end exclusive. */
  datatype Block = Block(x0: nat, x1: nat, y0: nat, y1: nat)

  ghost predicate IsCommon<T>(src: seq<T>, dst: seq<T>, b: Block) {
    && b.x0 <= b.x1 <= |src| && b.y0 <= b.y1 <= |dst| && b.x1 - b.x0 == b.y1 - b.y0
    && src[b.x0..b.x1] == dst[b.y0..b.y1]
  }

  /** The block of length n that ends at src[i] and dst[j]. */
  function BlockEnding(i: nat, j: nat, n: nat): Block
    requires n <= i + 1 && n <= j + 1
  {
    Block(i + 1 - n, i + 1, j + 1 - n, j + 1)
  }

  /** The best block after the rows before i and, in row i, the columns before
      j: the last one, in scanning order, of the greatest length. */
  function BestUpTo<T(==)>(src: seq<T>, dst: seq<T>, i: nat, j: nat): Option<Block>
    requires i <= |src| && j <= |dst| && (i == |src| ==> j == 0)
    decreases i, j
  {
    if j > 0 then
      var prev := BestUpTo(src, dst, i, j - 1);
      var n := CommonSuffix(src, dst, i, j - 1);
      if n > 0 && n >= Length(prev) then Some(BlockEnding(i, j - 1, n)) else prev
    else if i > 0 then BestUpTo(src, dst, i - 1, |dst|)
    else None
  }

  function Length(b: Option<Block>): int {
    if b.None? then 0 else b.value.x1 - b.value.x0
  }

  function Lcs<T(==)>(src: seq<T>, dst: seq<T>): Option<Block> {
    BestUpTo(src, dst, |src|, 0)
  }

  /** Row i of the matrix is filled in up to column j. */
  ghost predicate RowFilled<T>(src: seq<T>, dst: seq<T>, matrix: array2<nat>, i: nat, j: nat)
    requires i < |src| && j <= |dst| && matrix.Length0 == |src| && matrix.Length1 == |dst|
    reads matrix
  {
    forall b {:trigger matrix[i, b]} :: 0 <= b < j ==> matrix[i, b] == CommonSuffix(src, dst, i, b)
  }

  /** The entry of the matrix for (i, j), given the entries before it. */
  method FillEntry<T(==)>(src: seq<T>, dst: seq<T>, matrix: array2<nat>, i: nat, j: nat)
    requires i < |src| && j < |dst| && matrix.Length0 == |src| && matrix.Length1 == |dst|
    requires i > 0 && j > 0 ==> matrix[i - 1, j - 1] == CommonSuffix(src, dst, i - 1, j - 1)
    modifies matrix
    ensures matrix[i, j] == CommonSuffix(src, dst, i, j)
    ensures forall a, b :: 0 <= a < |src| && 0 <= b < |dst| && (a != i || b != j) ==> matrix[a, b] == old(matrix[a, b])
  {
    if src[i] == dst[j] {
      if i == 0 || j == 0 {
        matrix[i, j] := 1;
      } else {
        matrix[i, j] := matrix[i - 1, j - 1] + 1;
      }
    } else {
      matrix[i, j] := 0;
    }
  }

  /** _longest_common_subseq, filling the matrix of common suffix lengths. */
  method LongestCommonSubseq<T(==)>(src: seq<T>, dst: seq<T>) returns (r: Option<Block>)
    ensures r == Lcs(src, dst)
  {
    var matrix := new nat[|src|, |dst|]((_, _) => 0);
    var z := 0;
    r := None;
    for i := 0 to |src|
      invariant r == BestUpTo(src, dst, i, 0) && z == Length(r)
      invariant i > 0 ==> RowFilled(src, dst, matrix, i - 1, |dst|)
    {
      for j := 0 to |dst|
        invariant r == BestUpTo(src, dst, i, j) && z == Length(r)
        invariant i > 0 ==> RowFilled(src, dst, matrix, i - 1, |dst|)
        invariant RowFilled(src, dst, matrix, i, j)
      {
        FillEntry(src, dst, matrix, i, j);
        BestStep(src, dst, i, j);
        if src[i] == dst[j] {
          if matrix[i, j] > z { z := matrix[i, j]; }
          if matrix[i, j] == z { r := Some(Block(i - z + 1, i + 1, j - z + 1, j + 1)); }
        }
      }
    }
  }

  lemma BestStep<T>(src: seq<T>, dst: seq<T>, i: nat, j: nat)
    requires i < |src| && j < |dst|
    ensures var prev, n := BestUpTo(src, dst, i, j), CommonSuffix(src, dst, i, j);
      && (n > 0 <==> src[i] == dst[j]) && Length(prev) >= 0
      && BestUpTo(src, dst, i, j + 1) == (if n > 0 && n >= Length(prev) then Some(BlockEnding(i, j, n)) else prev)
  {
    BestLongest(src, dst, i, j);
  }

  lemma {:induction false} SuffixCommon<T>(src: seq<T>, dst: seq<T>, i: nat, j: nat)
    requires i < |src| && j < |dst|
    ensures IsCommon(src, dst, BlockEnding(i, j, CommonSuffix(src, dst, i, j)))
  {
    if src[i] == dst[j] && i > 0 && j > 0 {
      SuffixCommon(src, dst, i - 1, j - 1);
      var n := CommonSuffix(src, dst, i - 1, j - 1);
      SliceEnd(src, i - n, i);
      SliceEnd(dst, j - n, j);
    }
  }

  lemma SliceEnd<T>(s: seq<T>, x: nat, y: nat)
    requires x <= y < |s|
    ensures s[x..y + 1] == s[x..y] + [s[y]]
  {}

  lemma SameEnds<T>(s: seq<T>, x: T, t: seq<T>, y: T)
    requires s + [x] == t + [y]
    ensures s == t && x == y
  {
    assert |s + [x]| == |t + [y]|;
    assert (s + [x])[|s|] == (t + [y])[|t|];
    assert (s + [x])[..|s|] == s && (t + [y])[..|t|] == t;
  }

  /** Every common block ending at (i, j) is counted in the suffix length. */
  lemma {:induction false} CommonWithin<T>(src: seq<T>, dst: seq<T>, b: Block)
    requires IsCommon(src, dst, b) && b.x0 < b.x1
    ensures b.x1 - b.x0 <= CommonSuffix(src, dst, b.x1 - 1, b.y1 - 1)
    decreases b.x1
  {
    SliceEnd(src, b.x0, b.x1 - 1);
    SliceEnd(dst, b.y0, b.y1 - 1);
    SameEnds(src[b.x0..b.x1 - 1], src[b.x1 - 1], dst[b.y0..b.y1 - 1], dst[b.y1 - 1]);
    if b.x0 < b.x1 - 1 {
      CommonWithin(src, dst, Block(b.x0, b.x1 - 1, b.y0, b.y1 - 1));
    }
  }

  lemma {:induction false} BestLongest<T>(src: seq<T>, dst: seq<T>, i: nat, j: nat)
    requires i <= |src| && j <= |dst| && (i == |src| ==> j == 0)
    ensures var r := BestUpTo(src, dst, i, j);
      && (r.Some? ==> IsCommon(src, dst, r.value) && r.value.x0 < r.value.x1)
      && forall a, b :: 0 <= a < |src| && 0 <= b < |dst| && (a < i || (a == i && b < j)) ==>
           CommonSuffix(src, dst, a, b) <= Length(r)
    decreases i, j
  {
    if j > 0 {
      BestLongest(src, dst, i, j - 1);
      SuffixCommon(src, dst, i, j - 1);
    } else if i > 0 {
      BestLongest(src, dst, i - 1, |dst|);
    }
  }

  /** The returned block is common, non-empty and as long as any; there is none
      exactly when the lists share no element. */
  lemma LcsIsLongest<T>(src: seq<T>, dst: seq<T>)
    ensures Lcs(src, dst).Some? ==> IsCommon(src, dst, Lcs(src, dst).value)
    ensures forall b :: IsCommon(src, dst, b) ==> b.x1 - b.x0 <= Length(Lcs(src, dst))
    ensures Lcs(src, dst).None? <==> forall v :: v in src ==> v !in dst
    ensures Lcs(src, dst).Some? ==> Lcs(src, dst).value.x0 < Lcs(src, dst).value.x1
  {
    BestLongest(src, dst, |src|, 0);
    forall b | IsCommon(src, dst, b) ensures b.x1 - b.x0 <= Length(Lcs(src, dst)) {
      if b.x0 < b.x1 { CommonWithin(src, dst, b); }
    }
    forall i, j | 0 <= i < |src| && 0 <= j < |dst| && Lcs(src, dst).None? ensures src[i] != dst[j] {
      assert CommonSuffix(src, dst, i, j) <= 0;
    }
    if Lcs(src, dst).Some? {
      var b := Lcs(src, dst).value;
      assert src[b.x0] == src[b.x0..b.x1][0] == dst[b.y0..b.y1][0] == dst[b.y0];
      assert src[b.x0] in src && dst[b.y0] in dst;
    }
  }

  /** Scanned before, row by row. */
  predicate Before(a: nat, b: nat, i: nat, j: nat) { a < i || (a == i && b < j) }

  /** Of the blocks as long as the best one, the best is the last scanned. */
  lemma {:induction false} BestLast<T>(src: seq<T>, dst: seq<T>, i: nat, j: nat, a: nat, b: nat)
    requires i <= |src| && j <= |dst| && (i == |src| ==> j == 0) && a < |src| && b < |dst| && Before(a, b, i, j)
    requires BestUpTo(src, dst, i, j).Some?
    requires CommonSuffix(src, dst, a, b) == Length(BestUpTo(src, dst, i, j))
    ensures var r := BestUpTo(src, dst, i, j).value; r.x1 > 0 && r.y1 > 0 && !Before(r.x1 - 1, r.y1 - 1, a, b)
    decreases i, j
  {
    BestLongest(src, dst, i, j);
    if j > 0 {
      if Before(a, b, i, j - 1) {
        BestLongest(src, dst, i, j - 1);
        if BestUpTo(src, dst, i, j) == BestUpTo(src, dst, i, j - 1) { BestLast(src, dst, i, j - 1, a, b); }
      }
    } else {
      BestLast(src, dst, i - 1, |dst|, a, b);
    }
  }

  /** Among the longest common blocks the one returned ends last in the first list, and
      of those that end there last in the second. */
  lemma LcsIsLast<T>(src: seq<T>, dst: seq<T>, b: Block)
    requires Lcs(src, dst).Some? && IsCommon(src, dst, b) && b.x1 - b.x0 == Length(Lcs(src, dst))
    ensures var r := Lcs(src, dst).value; b.x1 < r.x1 || (b.x1 == r.x1 && b.y1 <= r.y1)
  {
    LcsIsLongest(src, dst);
    CommonWithin(src, dst, b);
    BestLongest(src, dst, |src|, 0);
    BestLast(src, dst, |src|, 0, b.x1 - 1, b.y1 - 1);
  }

  // ----- the split

  /** A range of one list, or the split of what lies on one side of a block. An
      end of -1 stands for the end of the list. */
  datatype Side = Nothing | Span(start: int, end: int) | Both(left: Side, right: Side) {
    function Weight(): nat { if Both? then 1 + left.Weight() + right.Weight() else 0 }
  }

  function MakeSpan(b: (int, int)): Side {
    if b.0 != b.1 then Span(b.0, b.1) else Nothing
  }

  /** `b` is the range of a part of length n that starts at position `at` of a
      list of length `total`. */
  predicate SpanOf(b: (int, int), at: nat, n: nat, total: nat) {
    at + n <= total && (b == (at, at + n) || (at == 0 && n == total && b == (0, -1)))
  }

  /** _split_by_common_seq. */
  function SplitByCommonSeq<T(==)>(src: seq<T>, dst: seq<T>, rx: (int, int) := (0, -1),
                                   ry: (int, int) := (0, -1)): (Side, Side)
    decreases |src|
  {
    if src == [] then (Nothing, MakeSpan(ry))
    else if dst == [] then (MakeSpan(rx), Nothing)
    else
      match Lcs(src, dst)
      case None => (MakeSpan(rx), MakeSpan(ry))
      case Some(b) =>
        LcsIsLongest(src, dst);
        var l := SplitByCommonSeq(src[..b.x0], dst[..b.y0], (rx.0, rx.0 + b.x0), (ry.0, ry.0 + b.y0));
        var r := SplitByCommonSeq(src[b.x1..], dst[b.y1..],
                                  (rx.0 + b.x1, rx.0 + |src|), (ry.0 + b.y1, ry.0 + |dst|));
        (Both(l.0, l.1), Both(r.0, r.1))
  }

  // ----- the script

  datatype Edit<T> = Remove(index: int) | Add(index: int, value: T)

  /** The edits of a part of the script and the shift after them. */
  datatype Script<T> = Script(edits: seq<Edit<T>>, shift: int)

  /** Removals at end - 1, ..., start. */
  function Removals<T>(start: int, end: int): (r: seq<Edit<T>>)
    decreases end - start
  {
    if start >= end then [] else [Remove(end - 1)] + Removals(start, end - 1)
  }

  /** Additions of dst[start], ..., dst[end - 1] at their own positions. */
  function Additions<T>(dst: seq<T>, start: int, end: int): seq<Edit<T>>
    requires 0 <= start && end <= |dst|
    decreases end - start
  {
    if start >= end then [] else [Add(start, dst[start])] + Additions(dst, start + 1, end)
  }

  /** The removals go down from the end, the additions up from the start. */
  lemma {:induction false} RemovalsAt<T>(start: int, end: int, i: nat)
    requires start <= end
    ensures |Removals<T>(start, end)| == end - start
    ensures i < end - start ==> Removals<T>(start, end)[i] == Remove(end - 1 - i)
    decreases end - start
  {
    if start < end { RemovalsAt<T>(start, end - 1, if i > 0 then i - 1 else 0); }
  }

  lemma {:induction false} AdditionsAt<T>(dst: seq<T>, start: nat, end: nat, i: nat)
    requires start <= end <= |dst|
    ensures |Additions(dst, start, end)| == end - start
    ensures i < end - start ==> Additions(dst, start, end)[i] == Add(start + i, dst[start + i])
    decreases end - start
  {
    if start < end { AdditionsAt(dst, start + 1, end, if i > 0 then i - 1 else 0); }
  }

  function EndOf(side: Side, n: nat): int
    requires side.Span?
  {
    if side.end == -1 then n else side.end
  }

  /** _compare_left: removals from the tail of the range, so that no index
      shifts under the ones still to come. */
  method CompareLeft<T>(src: seq<T>, left: Side, shift: int) returns (s: Script<T>)
    requires left.Span? && left.start <= EndOf(left, |src|)
    ensures s == LeftScript(src, left, shift)
  {
    var start, end := left.start, left.end;
    if end == -1 { end := |src|; }
    var sh := shift;
    var edits: seq<Edit<T>> := [];
    var idx := end + shift;
    while idx > start + shift
      invariant start + shift <= idx <= end + shift && sh == shift - (end + shift - idx)
      invariant edits + Removals(start + shift, idx) == Removals<T>(start + shift, end + shift)
    {
      idx := idx - 1;
      NextRemoval(edits, start + shift, idx);
      edits := edits + [Remove(idx)];
      sh := sh - 1;
    }
    assert edits + [] == edits;
    return Script(edits, sh);
  }

  lemma NextRemoval<T>(edits: seq<Edit<T>>, start: int, idx: int)
    requires start <= idx
    ensures edits + Removals(start, idx + 1) == (edits + [Remove(idx)]) + Removals(start, idx)
  {
    assert Removals<T>(start, idx + 1) == [Remove(idx)] + Removals(start, idx);
  }

  function LeftScript<T>(src: seq<T>, left: Side, shift: int): Script<T>
    requires left.Span?
  {
    var end := EndOf(left, |src|);
    Script(Removals(left.start + shift, end + shift), shift - (end - left.start))
  }

  /** _compare_right. */
  method CompareRight<T>(dst: seq<T>, right: Side, shift: int) returns (s: Script<T>)
    requires right.Span? && 0 <= right.start <= EndOf(right, |dst|) <= |dst|
    ensures s == RightScript(dst, right, shift)
  {
    var start, end := right.start, right.end;
    if end == -1 { end := |dst|; }
    var sh := shift;
    var edits: seq<Edit<T>> := [];
    for idx := start to end
      invariant sh == shift + (idx - start)
      invariant edits + Additions(dst, idx, end) == Additions(dst, start, end)
    {
      NextAddition(edits, dst, idx, end);
      edits := edits + [Add(idx, dst[idx])];
      sh := sh + 1;
    }
    assert edits + [] == edits;
    return Script(edits, sh);
  }

  lemma NextAddition<T>(edits: seq<Edit<T>>, dst: seq<T>, idx: nat, end: nat)
    requires idx < end <= |dst|
    ensures edits + Additions(dst, idx, end) == (edits + [Add(idx, dst[idx])]) + Additions(dst, idx + 1, end)
  {
    assert Additions(dst, idx, end) == [Add(idx, dst[idx])] + Additions(dst, idx + 1, end);
  }

  function RightScript<T>(dst: seq<T>, right: Side, shift: int): Script<T>
    requires right.Span? && 0 <= right.start && EndOf(right, |dst|) <= |dst|
  {
    var end := EndOf(right, |dst|);
    Script(Additions(dst, right.start, end), shift + (end - right.start))
  }

  /** The ranges of a split lie in the lists: left leaves in src, right leaves
      in dst. */
  predicate InRange(left: Side, right: Side, n: nat, m: nat)
    decreases left.Weight() + right.Weight()
  {
    && (match left
        case Nothing => true
        case Span(_, _) => 0 <= left.start <= EndOf(left, n) <= n
        case Both(l, r) => InRange(l, r, n, m))
    && (match right
        case Nothing => true
        case Span(_, _) => 0 <= right.start <= EndOf(right, m) <= m
        case Both(l, r) => InRange(l, r, n, m))
  }

  /** _compare_with_shift. */
  function CompareWithShift<T>(src: seq<T>, dst: seq<T>, left: Side, right: Side, shift: int): Script<T>
    requires InRange(left, right, |src|, |dst|)
    decreases left.Weight() + right.Weight()
  {
    var first := match left
      case Nothing => Script([], shift)
      case Span(_, _) => LeftScript(src, left, shift)
      case Both(l, r) => CompareWithShift(src, dst, l, r, shift);
    var second := match right
      case Nothing => Script([], first.shift)
      case Span(_, _) => RightScript(dst, right, first.shift)
      case Both(l, r) => CompareWithShift(src, dst, l, r, first.shift);
    Script(first.edits + second.edits, second.shift)
  }

  /** _compare on the split of the two lists: the raw script. */
  function Compare<T(==)>(src: seq<T>, dst: seq<T>): seq<Edit<T>> {
    var sides := SplitByCommonSeq(src, dst);
    WholeSplit(src, dst);
    CompareWithShift(src, dst, sides.0, sides.1, 0).edits
  }

  /** The two recursive splits around a common block. */
  function LeftSplit<T(==)>(s: seq<T>, d: seq<T>, c: Block, rx: (int, int), ry: (int, int)): (Side, Side)
    requires IsCommon(s, d, c)
  {
    SplitByCommonSeq(s[..c.x0], d[..c.y0], (rx.0, rx.0 + c.x0), (ry.0, ry.0 + c.y0))
  }

  function RightSplit<T(==)>(s: seq<T>, d: seq<T>, c: Block, rx: (int, int), ry: (int, int)): (Side, Side)
    requires IsCommon(s, d, c)
  {
    SplitByCommonSeq(s[c.x1..], d[c.y1..], (rx.0 + c.x1, rx.0 + |s|), (ry.0 + c.y1, ry.0 + |d|))
  }

  lemma SplitStep<T>(s: seq<T>, d: seq<T>, rx: (int, int), ry: (int, int))
    requires s != [] && d != [] && Lcs(s, d).Some?
    ensures var c := Lcs(s, d).value;
      && IsCommon(s, d, c) && c.x0 < c.x1
      && var l, r := LeftSplit(s, d, c, rx, ry), RightSplit(s, d, c, rx, ry);
      SplitByCommonSeq(s, d, rx, ry) == (Both(l.0, l.1), Both(r.0, r.1))
  {
    LcsIsLongest(s, d);
  }

  lemma SplitLeaf<T>(s: seq<T>, d: seq<T>, rx: (int, int), ry: (int, int))
    requires s == [] || d == [] || Lcs(s, d).None?
    ensures SplitByCommonSeq(s, d, rx, ry)
      == if s == [] then (Nothing, MakeSpan(ry))
         else if d == [] then (MakeSpan(rx), Nothing)
         else (MakeSpan(rx), MakeSpan(ry))
  {}

  /** The leaf stands for the n elements from `at` on. */
  predicate Marks(side: Side, at: nat, n: nat, total: nat) {
    match side
    case Nothing => n == 0
    case Span(start, _) => start == at && EndOf(side, total) == at + n
    case Both(_, _) => false
  }

  lemma LeafMarks(rx: (int, int), a: nat, n: nat, total: nat)
    requires SpanOf(rx, a, n, total)
    ensures Marks(MakeSpan(rx), a, n, total)
  {}

  /** The sides describe the part of n elements of src from a on and m elements
      of dst from b on: leaves, or two parts around a common block. */
  ghost predicate Describes<T>(src: seq<T>, dst: seq<T>, left: Side, right: Side, a: nat, n: nat, b: nat, m: nat)
    decreases left.Weight() + right.Weight()
  {
    && a + n <= |src| && b + m <= |dst|
    && if left.Both? && right.Both? then exists c :: DescribesAround(src, dst, left, right, a, n, b, m, c)
       else Marks(left, a, n, |src|) && Marks(right, b, m, |dst|)
  }

  ghost predicate DescribesAround<T>(src: seq<T>, dst: seq<T>, left: Side, right: Side, a: nat, n: nat, b: nat,
                                     m: nat, c: Block)
    requires left.Both? && right.Both?
    decreases left.Weight() + right.Weight(), 0
  {
    && a + n <= |src| && b + m <= |dst| && IsCommon(src[a..a + n], dst[b..b + m], c)
    && Describes(src, dst, left.left, left.right, a, c.x0, b, c.y0)
    && Describes(src, dst, right.left, right.right, a + c.x1, n - c.x1, b + c.y1, m - c.y1)
  }

  lemma SliceOfSlice<T>(s: seq<T>, a: nat, n: nat, x: nat, y: nat)
    requires a + n <= |s| && x <= y <= n
    ensures s[a..a + n][x..y] == s[a + x..a + y]
  {
    var t := s[a..a + n];
    assert forall i :: x <= i < y ==> t[i] == s[a + i];
    assert forall i :: 0 <= i < y - x ==> t[x..y][i] == t[x + i] == s[a + (x + i)] == s[a + x..a + y][i];
  }

  lemma AroundDescribes<T>(src: seq<T>, dst: seq<T>, sides: (Side, Side), l: (Side, Side), r: (Side, Side),
                           a: nat, n: nat, b: nat, m: nat, c: Block)
    requires a + n <= |src| && b + m <= |dst| && IsCommon(src[a..a + n], dst[b..b + m], c)
    requires Describes(src, dst, l.0, l.1, a, c.x0, b, c.y0)
    requires Describes(src, dst, r.0, r.1, a + c.x1, n - c.x1, b + c.y1, m - c.y1)
    requires sides == (Both(l.0, l.1), Both(r.0, r.1))
    ensures Describes(src, dst, sides.0, sides.1, a, n, b, m)
  {
    assert DescribesAround(src, dst, sides.0, sides.1, a, n, b, m, c);
  }

  /** sides are the split of n elements of src from a on and m of dst from b on. */
  ghost predicate IsSplit<T>(src: seq<T>, dst: seq<T>, sides: (Side, Side), a: nat, n: nat, b: nat, m: nat,
                             rx: (int, int), ry: (int, int)) {
    && SpanOf(rx, a, n, |src|) && SpanOf(ry, b, m, |dst|)
    && sides == SplitByCommonSeq(src[a..a + n], dst[b..b + m], rx, ry)
  }

  /** The split of a part, with the recursive splits as parts of the lists. */
  lemma SplitOfPart<T>(src: seq<T>, dst: seq<T>, sides: (Side, Side), a: nat, n: nat, b: nat, m: nat, rx: (int, int),
                       ry: (int, int))
      returns (c: Block, l: (Side, Side), r: (Side, Side), a1: nat, n1: nat, b1: nat, m1: nat)
    requires IsSplit(src, dst, sides, a, n, b, m, rx, ry) && n > 0 && m > 0 && Lcs(src[a..a + n], dst[b..b + m]).Some?
    ensures IsCommon(src[a..a + n], dst[b..b + m], c) && c.x0 < c.x1 <= n && c.y0 < c.y1 <= m
    ensures a1 == a + c.x1 && n1 == n - c.x1 && b1 == b + c.y1 && m1 == m - c.y1
    ensures IsSplit(src, dst, l, a, c.x0, b, c.y0, (rx.0, rx.0 + c.x0), (ry.0, ry.0 + c.y0))
    ensures IsSplit(src, dst, r, a1, n1, b1, m1, (rx.0 + c.x1, rx.0 + n), (ry.0 + c.y1, ry.0 + m))
    ensures sides == (Both(l.0, l.1), Both(r.0, r.1))
  {
    var s, d := src[a..a + n], dst[b..b + m];
    SplitStep(s, d, rx, ry);
    c := Lcs(s, d).value;
    l, r := LeftSplit(s, d, c, rx, ry), RightSplit(s, d, c, rx, ry);
    a1, n1, b1, m1 := a + c.x1, n - c.x1, b + c.y1, m - c.y1;
    SubSpans(rx, a, n, |src|, c.x0, c.x1);
    SubSpans(ry, b, m, |dst|, c.y0, c.y1);
    SliceParts(src, a, n, c.x0, c.x1, n1);
    SliceParts(dst, b, m, c.y0, c.y1, m1);
    var xl, xr, yl, yr := (rx.0, rx.0 + c.x0), (rx.0 + c.x1, rx.0 + n), (ry.0, ry.0 + c.y0), (ry.0 + c.y1, ry.0 + m);
    SplitIsPart(src, dst, l, s[..c.x0], d[..c.y0], a, c.x0, b, c.y0, xl, yl);
    SplitIsPart(src, dst, r, s[c.x1..], d[c.y1..], a1, n1, b1, m1, xr, yr);
  }

  lemma SplitIsPart<T>(src: seq<T>, dst: seq<T>, sides: (Side, Side), s: seq<T>, d: seq<T>,
                       a: nat, n: nat, b: nat, m: nat, rx: (int, int), ry: (int, int))
    requires SpanOf(rx, a, n, |src|) && SpanOf(ry, b, m, |dst|)
    requires s == src[a..a + n] && d == dst[b..b + m] && sides == SplitByCommonSeq(s, d, rx, ry)
    ensures IsSplit(src, dst, sides, a, n, b, m, rx, ry)
  {}

  lemma SliceParts<T>(s: seq<T>, a: nat, n: nat, x: nat, y: nat, rest: nat)
    requires a + n <= |s| && x <= y <= n && rest == n - y
    ensures s[a..a + n][..x] == s[a..a + x] && s[a..a + n][y..] == s[a + y..a + y + rest]
  {}

  lemma LeafDescribes<T>(src: seq<T>, dst: seq<T>, sides: (Side, Side), a: nat, n: nat, b: nat, m: nat,
                         rx: (int, int), ry: (int, int))
    requires SpanOf(rx, a, n, |src|) && SpanOf(ry, b, m, |dst|)
    requires n == 0 || m == 0 || Lcs(src[a..a + n], dst[b..b + m]).None?
    requires sides == SplitByCommonSeq(src[a..a + n], dst[b..b + m], rx, ry)
    ensures Describes(src, dst, sides.0, sides.1, a, n, b, m)
  {
    SplitLeaf(src[a..a + n], dst[b..b + m], rx, ry);
    LeafMarks(rx, a, n, |src|);
    LeafMarks(ry, b, m, |dst|);
  }

  lemma SubSpans(r: (int, int), a: nat, n: nat, total: nat, x0: nat, x1: nat)
    requires SpanOf(r, a, n, total) && x0 < x1 <= n
    ensures SpanOf((r.0, r.0 + x0), a, x0, total) && SpanOf((r.0 + x1, r.0 + n), a + x1, n - x1, total)
  {}

  lemma {:induction false} SplitDescribes<T>(src: seq<T>, dst: seq<T>, sides: (Side, Side),
                                             a: nat, n: nat, b: nat, m: nat, rx: (int, int), ry: (int, int))
    requires IsSplit(src, dst, sides, a, n, b, m, rx, ry)
    ensures Describes(src, dst, sides.0, sides.1, a, n, b, m)
    decreases n
  {
    if n > 0 && m > 0 && Lcs(src[a..a + n], dst[b..b + m]).Some? {
      var c, l, r, a1, n1, b1, m1 := SplitOfPart(src, dst, sides, a, n, b, m, rx, ry);
      SplitDescribes(src, dst, l, a, c.x0, b, c.y0, (rx.0, rx.0 + c.x0), (ry.0, ry.0 + c.y0));
      SplitDescribes(src, dst, r, a1, n1, b1, m1, (rx.0 + c.x1, rx.0 + n), (ry.0 + c.y1, ry.0 + m));
      AroundDescribes(src, dst, sides, l, r, a, n, b, m, c);
    } else {
      LeafDescribes(src, dst, sides, a, n, b, m, rx, ry);
    }
  }

  lemma {:induction false} DescribedInRange<T>(src: seq<T>, dst: seq<T>, left: Side, right: Side, a: nat, n: nat,
                                               b: nat, m: nat)
    requires Describes(src, dst, left, right, a, n, b, m)
    ensures InRange(left, right, |src|, |dst|)
    decreases left.Weight() + right.Weight()
  {
    if left.Both? && right.Both? {
      var c :| DescribesAround(src, dst, left, right, a, n, b, m, c);
      DescribedInRange(src, dst, left.left, left.right, a, c.x0, b, c.y0);
      DescribedInRange(src, dst, right.left, right.right, a + c.x1, n - c.x1, b + c.y1, m - c.y1);
    }
  }

  lemma WholeSplit<T>(src: seq<T>, dst: seq<T>)
    ensures var sides := SplitByCommonSeq(src, dst);
      Describes(src, dst, sides.0, sides.1, 0, |src|, 0, |dst|) && InRange(sides.0, sides.1, |src|, |dst|)
  {
    assert src[0..|src|] == src && dst[0..|dst|] == dst;
    var sides := SplitByCommonSeq(src, dst);
    SplitDescribes(src, dst, sides, 0, |src|, 0, |dst|, (0, -1), (0, -1));
    DescribedInRange(src, dst, sides.0, sides.1, 0, |src|, 0, |dst|);
  }

  lemma BothScript<T>(src: seq<T>, dst: seq<T>, l: (Side, Side), r: (Side, Side), shift: int)
    requires InRange(l.0, l.1, |src|, |dst|) && InRange(r.0, r.1, |src|, |dst|)
    ensures InRange(Both(l.0, l.1), Both(r.0, r.1), |src|, |dst|)
    ensures var first := CompareWithShift(src, dst, l.0, l.1, shift);
      var second := CompareWithShift(src, dst, r.0, r.1, first.shift);
      CompareWithShift(src, dst, Both(l.0, l.1), Both(r.0, r.1), shift) ==
        Script(first.edits + second.edits, second.shift)
  {}

  // ----- the replay

  function ApplyEdit<T>(list: seq<T>, e: Edit<T>): Option<seq<T>> {
    match e
    case Remove(i) => if 0 <= i < |list| then Some(list[..i] + list[i + 1..]) else None
    case Add(i, v) => if 0 <= i <= |list| then Some(list[..i] + [v] + list[i..]) else None
  }

  /** None when some index is out of range. */
  function Replay<T>(list: seq<T>, edits: seq<Edit<T>>): Option<seq<T>>
    decreases |edits|
  {
    if edits == [] then Some(list)
    else
      match ApplyEdit(list, edits[0])
      case None => None
      case Some(l) => Replay(l, edits[1..])
  }

  lemma {:induction false} ReplayConcat<T>(list: seq<T>, a: seq<Edit<T>>, b: seq<Edit<T>>)
    ensures Replay(list, a + b) == match Replay(list, a) case None => None case Some(l) => Replay(l, b)
    decreases |a|
  {
    if a == [] {
      assert a + b == b;
    } else {
      assert (a + b)[1..] == a[1..] + b;
      if ApplyEdit(list, a[0]).Some? { ReplayConcat(ApplyEdit(list, a[0]).value, a[1..], b); }
    }
  }

  lemma {:induction false} ReplayRemovals<T>(p: seq<T>, mid: seq<T>, q: seq<T>)
    ensures Replay(p + mid + q, Removals(|p|, |p| + |mid|)) == Some(p + q)
    decreases |mid|
  {
    if mid == [] {
      assert p + mid + q == p + q;
    } else {
      RemoveLast(p, mid, q);
      ReplayRemovals(p, mid[..|mid| - 1], q);
    }
  }

  lemma RemoveLast<T>(p: seq<T>, mid: seq<T>, q: seq<T>)
    requires mid != []
    ensures var list, i := p + mid + q, |p| + |mid| - 1;
      list[..i] + list[i + 1..] == p + mid[..|mid| - 1] + q
  {
    var list, i := p + mid + q, |p| + |mid| - 1;
    assert list[..i] == p + mid[..|mid| - 1] && list[i + 1..] == q;
  }

  lemma {:induction false} ReplayAdditions<T>(dst: seq<T>, b: nat, e: nat, q: seq<T>)
    requires b <= e <= |dst|
    ensures Replay(dst[..b] + q, Additions(dst, b, e)) == Some(dst[..e] + q)
    decreases e - b
  {
    if b < e {
      var list := dst[..b] + q;
      assert list[..b] + [dst[b]] + list[b..] == dst[..b + 1] + q;
      ReplayAdditions(dst, b + 1, e, q);
    }
  }

  /** The working list when a of src is consumed and b of dst is produced. */
  function Work<T>(src: seq<T>, dst: seq<T>, a: nat, b: nat): seq<T>
    requires a <= |src| && b <= |dst|
  {
    dst[..b] + src[a..]
  }

  lemma LeafReplay<T>(src: seq<T>, dst: seq<T>, a: nat, n: nat, b: nat, m: nat)
    requires a + n <= |src| && b + m <= |dst|
    ensures Replay(Work(src, dst, a, b), Removals(b, b + n) + Additions(dst, b, b + m)) ==
      Some(Work(src, dst, a + n, b + m))
  {
    var w := Work(src, dst, a, b);
    assert w == dst[..b] + src[a..a + n] + src[a + n..];
    ReplayRemovals(dst[..b], src[a..a + n], src[a + n..]);
    ReplayAdditions(dst, b, b + m, src[a + n..]);
    ReplayConcat<T>(w, Removals(b, b + n), Additions(dst, b, b + m));
  }

  lemma LeafEdits<T>(src: seq<T>, dst: seq<T>, left: Side, right: Side, a: nat, n: nat, b: nat, m: nat)
    requires InRange(left, right, |src|, |dst|) && a + n <= |src| && b + m <= |dst|
    requires Marks(left, a, n, |src|) && Marks(right, b, m, |dst|)
    ensures CompareWithShift(src, dst, left, right, b - a)
      == Script(Removals(b, b + n) + Additions(dst, b, b + m), (b + m) - (a + n))
  {
    LeafRemovals(src, left, a, n, b - a);
    LeafAdditions(dst, right, b, m, (b - a) - n);
  }

  lemma LeafRemovals<T>(src: seq<T>, left: Side, a: nat, n: nat, shift: int)
    requires Marks(left, a, n, |src|)
    ensures left.Nothing? ==> n == 0 && Removals<T>(a + shift, a + shift + n) == []
    ensures left.Span? ==> LeftScript(src, left, shift) == Script(Removals(a + shift, a + shift + n), shift - n)
  {}

  lemma LeafAdditions<T>(dst: seq<T>, right: Side, b: nat, m: nat, shift: int)
    requires Marks(right, b, m, |dst|) && b + m <= |dst|
    ensures right.Nothing? ==> m == 0 && Additions(dst, b, b + m) == []
    ensures right.Span? ==> RightScript(dst, right, shift) == Script(Additions(dst, b, b + m), shift + m)
  {}

  /** The sides of a part script from (a, b) to (a', b'): it turns that part of
      the working list from src into dst, and keeps the shift equal to the
      distance between the positions. */
  ghost predicate Rewrites<T>(src: seq<T>, dst: seq<T>, sides: (Side, Side), a: nat, a': nat, b: nat, b': nat) {
    && a <= a' <= |src| && b <= b' <= |dst| && InRange(sides.0, sides.1, |src|, |dst|)
    && var s := CompareWithShift(src, dst, sides.0, sides.1, b - a);
    Replay(Work(src, dst, a, b), s.edits) == Some(Work(src, dst, a', b')) && s.shift == b' - a'
  }

  lemma RewritesBoth<T>(src: seq<T>, dst: seq<T>, l: (Side, Side), r: (Side, Side),
                        a0: nat, a1: nat, a2: nat, a3: nat, b0: nat, b1: nat, b2: nat, b3: nat)
    requires Rewrites(src, dst, l, a0, a1, b0, b1) && Rewrites(src, dst, r, a2, a3, b2, b3)
    requires Work(src, dst, a1, b1) == Work(src, dst, a2, b2) && b1 - a1 == b2 - a2 && a1 <= a2 && b1 <= b2
    ensures Rewrites(src, dst, (Both(l.0, l.1), Both(r.0, r.1)), a0, a3, b0, b3)
  {
    BothScript(src, dst, l, r, b0 - a0);
    var first := CompareWithShift(src, dst, l.0, l.1, b0 - a0);
    var second := CompareWithShift(src, dst, r.0, r.1, first.shift);
    ReplayConcat(Work(src, dst, a0, b0), first.edits, second.edits);
  }

  lemma LeafScript<T>(src: seq<T>, dst: seq<T>, left: Side, right: Side, a: nat, n: nat, b: nat, m: nat)
    requires InRange(left, right, |src|, |dst|) && a + n <= |src| && b + m <= |dst|
    requires Marks(left, a, n, |src|) && Marks(right, b, m, |dst|)
    ensures Rewrites(src, dst, (left, right), a, a + n, b, b + m)
  {
    LeafEdits(src, dst, left, right, a, n, b, m);
    LeafReplay(src, dst, a, n, b, m);
  }

  /** The working list is the same before and after a common block. */
  lemma BlockWork<T>(src: seq<T>, dst: seq<T>, a: nat, n: nat, b: nat, m: nat, c: Block)
    requires a + n <= |src| && b + m <= |dst| && IsCommon(src[a..a + n], dst[b..b + m], c)
    ensures c.x0 <= c.x1 <= n && c.y0 <= c.y1 <= m && c.x1 - c.x0 == c.y1 - c.y0
    ensures Work(src, dst, a + c.x0, b + c.y0) == Work(src, dst, a + c.x1, b + c.y1)
  {
    SliceOfSlice(src, a, n, c.x0, c.x1);
    SliceOfSlice(dst, b, m, c.y0, c.y1);
    SkipCommon(src, dst, a + c.x0, a + c.x1, b + c.y0, b + c.y1, src[a + c.x0..a + c.x1]);
  }

  /** Two described parts around a common block, by the positions where they start
      and end. */
  lemma DescribedBlock<T>(src: seq<T>, dst: seq<T>, left: Side, right: Side, a: nat, a': nat, b: nat, b': nat)
      returns (a1: nat, a2: nat, b1: nat, b2: nat)
    requires a <= a' && b <= b' && left.Both? && right.Both?
    requires Describes(src, dst, left, right, a, a' - a, b, b' - b)
    ensures a <= a1 <= a2 <= a' <= |src| && b <= b1 <= b2 <= b' <= |dst| && a2 - a1 == b2 - b1
    ensures Work(src, dst, a1, b1) == Work(src, dst, a2, b2)
    ensures Describes(src, dst, left.left, left.right, a, a1 - a, b, b1 - b)
    ensures Describes(src, dst, right.left, right.right, a2, a' - a2, b2, b' - b2)
  {
    var c :| DescribesAround(src, dst, left, right, a, a' - a, b, b' - b, c);
    BlockWork(src, dst, a, a' - a, b, b' - b, c);
    a1, a2, b1, b2 := a + c.x0, a + c.x1, b + c.y0, b + c.y1;
  }

  /** The script of described sides rewrites their part. */
  lemma {:induction false} PartScript<T>(src: seq<T>, dst: seq<T>, left: Side, right: Side,
                                         a: nat, a': nat, b: nat, b': nat)
    requires a <= a' && b <= b' && Describes(src, dst, left, right, a, a' - a, b, b' - b)
    ensures Rewrites(src, dst, (left, right), a, a', b, b')
    decreases left.Weight() + right.Weight()
  {
    if left.Both? && right.Both? {
      var a1, a2, b1, b2 := DescribedBlock(src, dst, left, right, a, a', b, b');
      PartScript(src, dst, left.left, left.right, a, a1, b, b1);
      PartScript(src, dst, right.left, right.right, a2, a', b2, b');
      RewritesBoth(src, dst, (left.left, left.right), (right.left, right.right), a, a1, a2, a', b, b1, b2, b');
    } else {
      LeafPart(src, dst, left, right, a, a', b, b');
    }
  }

  lemma LeafPart<T>(src: seq<T>, dst: seq<T>, left: Side, right: Side, a: nat, a': nat, b: nat, b': nat)
    requires a <= a' && b <= b' && Describes(src, dst, left, right, a, a' - a, b, b' - b)
    requires !(left.Both? && right.Both?)
    ensures Rewrites(src, dst, (left, right), a, a', b, b')
  {
    DescribedInRange(src, dst, left, right, a, a' - a, b, b' - b);
    LeafScript(src, dst, left, right, a, a' - a, b, b' - b);
  }

  lemma SkipCommon<T>(src: seq<T>, dst: seq<T>, x0: nat, x1: nat, y0: nat, y1: nat, c: seq<T>)
    requires x0 <= x1 <= |src| && y0 <= y1 <= |dst|
    requires c == src[x0..x1] == dst[y0..y1]
    ensures Work(src, dst, x0, y0) == Work(src, dst, x1, y1)
  {
    assert src[x0..] == c + src[x1..];
    assert dst[..y1] == dst[..y0] + c;
  }

  /** Replaying the raw script on the source list gives the target list; every
      index used is in range. */
  lemma CompareThenReplay<T>(src: seq<T>, dst: seq<T>)
    ensures Replay(src, Compare(src, dst)) == Some(dst)
  {
    WholeSplit(src, dst);
    var sides := SplitByCommonSeq(src, dst);
    WholeScript(src, dst, sides);
    WorkEnds(src, dst);
  }

  lemma WholeScript<T>(src: seq<T>, dst: seq<T>, sides: (Side, Side))
    requires Describes(src, dst, sides.0, sides.1, 0, |src|, 0, |dst|)
    ensures Rewrites(src, dst, sides, 0, |src|, 0, |dst|)
  {
    assert sides == (sides.0, sides.1);
    PartScript(src, dst, sides.0, sides.1, 0, |src|, 0, |dst|);
  }

  lemma WorkEnds<T>(src: seq<T>, dst: seq<T>)
    ensures Work(src, dst, 0, 0) == src && Work(src, dst, |src|, |dst|) == dst
  {}
}
