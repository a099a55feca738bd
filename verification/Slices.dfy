/** Depositing under a mask made of ascending ranges is cutting the value into consecutive slices. */
module Slices {
  import opened Words
  import opened Deposit
  import opened Bitmask
  import Text

  type Ranges = seq<(nat, nat)>

  /** Ranges inside the word, each starting at or after `low`, in ascending order without overlap. */
  predicate Ascending(ranges: Ranges, low: nat) {
    ranges != [] ==> low <= ranges[0].0 <= ranges[0].1 < WIDTH && Ascending(ranges[1..], ranges[0].1 + 1)
  }

  function MaskOf(ranges: Ranges): (m: Bits)
    ensures |m| == WIDTH
  {
    if ranges == [] then Zeros(WIDTH)
    else Or(RunBits(WIDTH, ranges[0].0, ranges[0].1), MaskOf(ranges[1..]))
  }

  function Length(range: (nat, nat)): nat {
    if range.0 <= range.1 then range.1 + 1 - range.0 else 0
  }

  /** `((v >> offset) mod 2^len) << start` */
  function Slice(v: nat, offset: nat, range: (nat, nat)): nat {
    Quotient(v, Pow2(offset)) % Pow2(Length(range)) * Pow2(range.0)
  }

  /** Each range receives the next slice of the value. */
  function Sliced(v: nat, ranges: Ranges, offset: nat): nat
    decreases |ranges|
  {
    if ranges == [] then 0
    else Slice(v, offset, ranges[0]) + Sliced(v, ranges[1..], offset + Length(ranges[0]))
  }

  lemma {:induction false} MaskStartsAt(ranges: Ranges, low: nat)
    requires Ascending(ranges, low)
    ensures forall i :: 0 <= i < WIDTH && i < low ==> !MaskOf(ranges)[i]
    decreases |ranges|
  {
    if ranges != [] {
      MaskStartsAt(ranges[1..], ranges[0].1 + 1);
    }
  }

  lemma {:induction false} ScatterLowRun(v: Bits, n: nat, len: nat)
    requires len <= n && len <= |v|
    ensures Scatter(v, RunBits(n, 0, len - 1)) == v[..len] + Zeros(n - len)
    ensures Popcount(RunBits(n, 0, len - 1)) == len
    decreases n
  {
    var m := RunBits(n, 0, len - 1);
    if len == 0 {
      assert m == Zeros(n);
      ScatterZeroMask(v, m);
      PopcountZero(m);
    } else {
      assert m[1..] == RunBits(n - 1, 0, len - 2);
      ScatterLowRun(v[1..], n - 1, len - 1);
      assert v[..len] == [v[0]] + v[1..][..len - 1];
    }
  }

  /** Under a single range the value's low bits are moved up as they are. */
  lemma {:induction false} ScatterRun(v: Bits, n: nat, start: nat, len: nat)
    requires start + len <= n && len <= |v|
    ensures Scatter(v, RunBits(n, start, start + len - 1)) == Zeros(start) + (v[..len] + Zeros(n - start - len))
    ensures Popcount(RunBits(n, start, start + len - 1)) == len
    decreases n
  {
    var m, moved := RunBits(n, start, start + len - 1), v[..len] + Zeros(n - start - len);
    if start == 0 {
      ScatterLowRun(v, n, len);
      assert Zeros(0) + moved == moved;
    } else {
      assert m[1..] == RunBits(n - 1, start - 1, start + len - 2);
      ScatterRun(v, n - 1, start - 1, len);
      assert Zeros(start) + moved == [false] + (Zeros(start - 1) + moved);
    }
  }

  lemma {:induction false} ValuePadded(b: Bits, tail: nat)
    ensures Value(b + Zeros(tail)) == Value(b)
  {
    if b == [] {
      assert b + Zeros(tail) == Zeros(tail);
      ValueOfZeros(tail);
    } else {
      assert (b + Zeros(tail))[1..] == b[1..] + Zeros(tail);
      ValuePadded(b[1..], tail);
    }
  }

  lemma {:induction false} ValueShifted(b: Bits, start: nat)
    ensures Value(Zeros(start) + b) == Value(b) * Pow2(start)
  {
    var s := Zeros(start) + b;
    if start == 0 {
      assert s == b;
    } else {
      assert s[1..] == Zeros(start - 1) + b;
      ValueShifted(b, start - 1);
    }
  }

  lemma {:induction false} ValueOfDisjointOr(a: Bits, b: Bits)
    requires |a| == |b| && And(a, b) == Zeros(|a|)
    ensures Value(Or(a, b)) == Value(a) + Value(b)
    decreases |a|
  {
    if a != [] {
      assert Or(a, b)[1..] == Or(a[1..], b[1..]);
      assert And(a[1..], b[1..]) == And(a, b)[1..] == Zeros(|a| - 1);
      ValueOfDisjointOr(a[1..], b[1..]);
      assert And(a, b)[0] == (a[0] && b[0]);
    }
  }

  /** The `len` value bits from `offset` up, as a number. */
  lemma SliceValue(v: Word, offset: nat, len: nat)
    requires offset + len <= WIDTH
    ensures Value(Skip(BitsOf(v), offset)[..len]) == Quotient(v, Pow2(offset)) % Pow2(len)
  {
    DropDivides(v, offset, len);
    LowBitsPrefix(v, offset + len, WIDTH);
    assert Skip(BitsOf(v), offset)[..len] == LowBits(v, offset + len)[offset..];
    ValueOfLowBits(Quotient(v, Pow2(offset)), len);
  }

  /** What one range receives, bit by bit. */
  function Piece(v: Word, offset: nat, range: (nat, nat)): nat {
    Value(Scatter(Skip(BitsOf(v), offset), RunBits(WIDTH, range.0, range.1)))
  }

  function Pieces(v: Word, ranges: Ranges, offset: nat): nat
    decreases |ranges|
  {
    if ranges == [] then 0
    else Piece(v, offset, ranges[0]) + Pieces(v, ranges[1..], offset + Length(ranges[0]))
  }

  lemma PieceIsSlice(v: Word, offset: nat, range: (nat, nat))
    requires offset <= range.0 <= range.1 < WIDTH
    ensures Piece(v, offset, range) == Slice(v, offset, range)
  {
    var start, len := range.0, Length(range);
    var rest := Skip(BitsOf(v), offset);
    ScatterRun(rest, WIDTH, start, len);
    ValuePadded(rest[..len], WIDTH - start - len);
    ValueShifted(rest[..len] + Zeros(WIDTH - start - len), start);
    SliceValue(v, offset, len);
  }

  lemma {:induction false} PiecesAreSlices(v: Word, ranges: Ranges, low: nat, offset: nat)
    requires Ascending(ranges, low) && offset <= low <= WIDTH
    ensures Pieces(v, ranges, offset) == Sliced(v, ranges, offset)
    decreases |ranges|
  {
    if ranges != [] {
      PieceIsSlice(v, offset, ranges[0]);
      PiecesAreSlices(v, ranges[1..], ranges[0].1 + 1, offset + Length(ranges[0]));
    }
  }

  /** The slicing law: the bit-by-bit loop computes the concatenated slices. */
  lemma DepositIsSlicing(v: Word, mask: Word, ranges: Ranges)
    requires Ascending(ranges, 0) && BitsOf(mask) == MaskOf(ranges)
    ensures Deposited(v, mask) == Sliced(v, ranges, 0)
  {
    PiecesFrom(v, ranges, 0, 0);
    PiecesAreSlices(v, ranges, 0, 0);
    assert Skip(BitsOf(v), 0) == BitsOf(v);
    ValueOfBits(Deposited(v, mask));
  }

  lemma {:induction false} PiecesFrom(v: Word, ranges: Ranges, low: nat, offset: nat)
    requires Ascending(ranges, low) && offset <= low <= WIDTH
    ensures Value(Scatter(Skip(BitsOf(v), offset), MaskOf(ranges))) == Pieces(v, ranges, offset)
    decreases |ranges|
  {
    if ranges == [] {
      ScatterZeroMask(Skip(BitsOf(v), offset), Zeros(WIDTH));
      ValueOfZeros(WIDTH);
    } else {
      var range, rest := ranges[0], ranges[1..];
      MaskStartsAt(rest, range.1 + 1);
      RunPopcount(range.0, range.1);
      RunBelow(range.0, range.1, MaskOf(rest));
      SplitValue(Skip(BitsOf(v), offset), RunBits(WIDTH, range.0, range.1), MaskOf(rest));
      SkipTwice(BitsOf(v), offset, Length(range));
      PiecesFrom(v, rest, range.1 + 1, offset + Length(range));
    }
  }

  lemma RunPopcount(start: nat, end: nat)
    requires start <= end < WIDTH
    ensures Popcount(RunBits(WIDTH, start, end)) == end + 1 - start
  {
    ScatterRun(Zeros(WIDTH), WIDTH, start, end + 1 - start);
  }

  lemma RunBelow(start: nat, end: nat, b: Bits)
    requires start <= end < WIDTH == |b|
    requires forall i :: 0 <= i < WIDTH && i < end + 1 ==> !b[i]
    ensures Below(RunBits(WIDTH, start, end), b)
  {
  }

  /** The lower mask takes the next bits of the value, the mask above it the bits after those. */
  lemma SplitValue(v: Bits, a: Bits, b: Bits)
    requires |a| == |b| && Below(a, b)
    ensures Value(Scatter(v, Or(a, b))) == Value(Scatter(v, a)) + Value(Scatter(Skip(v, Popcount(a)), b))
  {
    ScatterSplit(v, a, b);
    DisjointParts(v, Skip(v, Popcount(a)), a, b);
  }

  lemma SkipTwice(v: Bits, m: nat, n: nat)
    ensures Skip(Skip(v, m), n) == Skip(v, m + n)
  {
  }

  lemma DisjointParts(v: Bits, w: Bits, a: Bits, b: Bits)
    requires |a| == |b| && Below(a, b)
    ensures Value(Or(Scatter(v, a), Scatter(w, b))) == Value(Scatter(v, a)) + Value(Scatter(w, b))
  {
    var x, y := Scatter(v, a), Scatter(w, b);
    forall i | 0 <= i < |a| ensures !(x[i] && y[i]) {
      if !a[i] { ScatterWithinMask(v, a, i); }
      if !b[i] { ScatterWithinMask(w, b, i); }
    }
    assert And(x, y) == Zeros(|a|);
    ValueOfDisjointOr(x, y);
  }

  // ----- from format text to slices -----

  lemma {:induction false} UnionOfRanges(ranges: Ranges, low: nat, mask: Bits)
    requires Ascending(ranges, low) && |mask| == WIDTH
    ensures Fit(ranges, 63)
    ensures Union(Expected(ranges, false), mask) == Mask(Or(mask, MaskOf(ranges)))
    decreases |ranges|
  {
    if ranges == [] {
      assert Or(mask, Zeros(WIDTH)) == mask;
    } else {
      var run := RunBits(WIDTH, ranges[0].0, ranges[0].1);
      UnionOfRanges(ranges[1..], ranges[0].1 + 1, Or(mask, run));
      assert Or(Or(mask, run), MaskOf(ranges[1..])) == Or(mask, Or(run, MaskOf(ranges[1..])));
      assert Expected(ranges, false)[1..] == Expected(ranges[1..], false);
    }
  }

  /** A format written as ascending ranges denotes their mask, and a value deposited under it arrives as
      consecutive slices, one per range. */
  lemma FormatIsSlicing(v: Word, ranges: Ranges)
    requires Ascending(ranges, 0)
    ensures var parsed := Parse(Text.Join(RunTexts(ranges, false), ","));
      parsed.Mask? && Deposited(v, FromBits(parsed.bits)) == Sliced(v, ranges, 0)
  {
    UnionOfRanges(ranges, 0, Zeros(WIDTH));
    ReadingsOfRuns(ranges, false);
    FoundFits(ranges, false);
    assert Or(Zeros(WIDTH), MaskOf(ranges)) == MaskOf(ranges);
    DepositIsSlicing(v, FromBits(MaskOf(ranges)), ranges);
  }
}
