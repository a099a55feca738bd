/** Scattering a value's low bits into the positions of a mask (`apply_mask`), its inverse,
    and the laws that connect the two. */
module Deposit {
  import opened Words

  /** The first bit, and the bits after it; a sequence that has run out yields zeros. */
  function First(v: Bits): bool {
    v != [] && v[0]
  }

  function Rest(v: Bits): Bits {
    if v == [] then [] else v[1..]
  }

  /** Every set position of `m`, from the lowest up, receives the next bit of `v`. */
  function Scatter(v: Bits, m: Bits): (r: Bits)
    ensures |r| == |m|
    decreases |m|
  {
    if m == [] then []
    else if m[0] then [First(v)] + Scatter(Rest(v), m[1..])
    else [false] + Scatter(v, m[1..])
  }

  /** The bits of `x` at the set positions of `m`, lowest first. */
  function Gather(x: Bits, m: Bits): Bits
    requires |x| == |m|
    decreases |m|
  {
    if m == [] then []
    else if m[0] then [x[0]] + Gather(x[1..], m[1..])
    else Gather(x[1..], m[1..])
  }

  function Popcount(m: Bits): (n: nat)
    ensures n <= |m|
  {
    if m == [] then 0 else Digit(m[0]) + Popcount(m[1..])
  }

  // ----- gather and scatter are inverse to each other -----

  lemma {:induction false} GatherLength(x: Bits, m: Bits)
    requires |x| == |m|
    ensures |Gather(x, m)| == Popcount(m)
    decreases |m|
  {
    if m != [] {
      GatherLength(x[1..], m[1..]);
    }
  }

  lemma {:induction false} GatherOfScatter(v: Bits, m: Bits)
    requires Popcount(m) <= |v|
    ensures Gather(Scatter(v, m), m) == v[..Popcount(m)]
    decreases |m|
  {
    if m != [] {
      var rest := if m[0] then v[1..] else v;
      GatherOfScatter(rest, m[1..]);
      assert Scatter(v, m)[1..] == Scatter(rest, m[1..]);
    }
  }

  lemma {:induction false} ScatterOfGather(x: Bits, m: Bits)
    requires |x| == |m|
    ensures Scatter(Gather(x, m), m) == And(x, m)
    decreases |m|
  {
    if m != [] {
      ScatterOfGather(x[1..], m[1..]);
      assert And(x, m)[1..] == And(x[1..], m[1..]);
      if m[0] {
        assert Gather(x, m)[1..] == Gather(x[1..], m[1..]);
      }
    }
  }

  /** Scatter writes inside the mask only. */
  lemma {:induction false} ScatterWithinMask(v: Bits, m: Bits, i: nat)
    requires i < |m| && !m[i]
    ensures !Scatter(v, m)[i]
    decreases |m|
  {
    if i != 0 {
      ScatterWithinMask(if m[0] then Rest(v) else v, m[1..], i - 1);
    }
  }

  /** Gathering sees only the bits under the mask. */
  lemma {:induction false} GatherUnderMask(x: Bits, y: Bits, m: Bits)
    requires |x| == |y| == |m|
    requires forall i :: 0 <= i < |m| && m[i] ==> x[i] == y[i]
    ensures Gather(x, m) == Gather(y, m)
    decreases |m|
  {
    if m != [] {
      GatherUnderMask(x[1..], y[1..], m[1..]);
    }
  }

  /** Only the lowest `Popcount(m)` bits of the value matter. */
  lemma {:induction false} ScatterPrefix(v: Bits, m: Bits, n: nat)
    requires Popcount(m) <= n <= |v|
    ensures Scatter(v[..n], m) == Scatter(v, m)
    decreases |m|
  {
    if m != [] {
      if m[0] {
        assert Rest(v[..n]) == Rest(v)[..n - 1];
        ScatterPrefix(Rest(v), m[1..], n - 1);
      } else {
        ScatterPrefix(v, m[1..], n);
      }
    }
  }

  // ----- order -----

  /** On values of equal length, a larger value scatters to a larger word. */
  lemma {:induction false} ScatterMonotone(v: Bits, w: Bits, m: Bits)
    requires |v| == |w| == Popcount(m)
    ensures Value(v) < Value(w) ==> Value(Scatter(v, m)) < Value(Scatter(w, m))
    ensures Value(v) == Value(w) ==> Value(Scatter(v, m)) == Value(Scatter(w, m))
    decreases |m|
  {
    if m != [] {
      if m[0] {
        ScatterMonotone(v[1..], w[1..], m[1..]);
        ScatterMonotone(w[1..], v[1..], m[1..]);
        assert Value(v) == Digit(v[0]) + 2 * Value(v[1..]);
        assert Value(w) == Digit(w[0]) + 2 * Value(w[1..]);
      } else {
        ScatterMonotone(v, w, m[1..]);
      }
    }
  }

  // ----- slicing -----

  /** Every set bit of `a` lies below every set bit of `b`. */
  predicate Below(a: Bits, b: Bits) {
    forall i, j :: 0 <= i < |a| && 0 <= j < |b| && a[i] && b[j] ==> i < j
  }

  /** `v` without its `n` lowest bits. */
  function Skip(v: Bits, n: nat): Bits {
    if n <= |v| then v[n..] else []
  }

  lemma {:induction false} ScatterZeroMask(v: Bits, m: Bits)
    requires m == Zeros(|m|)
    ensures Scatter(v, m) == m
    decreases |m|
  {
    if m != [] {
      assert m[1..] == Zeros(|m| - 1);
      ScatterZeroMask(v, m[1..]);
    }
  }

  lemma {:induction false} PopcountZero(m: Bits)
    requires m == Zeros(|m|)
    ensures Popcount(m) == 0
  {
    if m != [] {
      assert m[1..] == Zeros(|m| - 1);
      PopcountZero(m[1..]);
    }
  }

  lemma {:induction false} PopcountSplit(a: Bits, b: Bits)
    requires |a| == |b| && Below(a, b)
    ensures Popcount(Or(a, b)) == Popcount(a) + Popcount(b)
    decreases |a|
  {
    if a != [] {
      BelowTails(a, b);
      assert Or(a, b)[1..] == Or(a[1..], b[1..]);
      PopcountSplit(a[1..], b[1..]);
    }
  }

  /** A mask split at any height takes the value in two consecutive pieces. */
  lemma {:induction false} ScatterSplit(v: Bits, a: Bits, b: Bits)
    requires |a| == |b| && Below(a, b)
    ensures Scatter(v, Or(a, b)) == Or(Scatter(v, a), Scatter(Skip(v, Popcount(a)), b))
    decreases |a|
  {
    if a != [] {
      BelowTails(a, b);
      if b[0] {
        ScatterZeroMask(v, a);
        PopcountZero(a);
        assert Or(a, b) == b;
        assert Skip(v, 0) == v;
      } else {
        var rest, high := if a[0] then Rest(v) else v, Skip(v, Popcount(a));
        assert high == Skip(rest, Popcount(a[1..]));
        assert Or(a, b)[1..] == Or(a[1..], b[1..]);
        ScatterSplit(rest, a[1..], b[1..]);
        OrTails(Scatter(v, a), Scatter(high, b));
      }
    }
  }

  lemma OrTails(x: Bits, y: Bits)
    requires |x| == |y| > 0
    ensures Or(x, y) == [x[0] || y[0]] + Or(x[1..], y[1..])
  {
  }

  lemma BelowTails(a: Bits, b: Bits)
    requires |a| == |b| > 0 && Below(a, b)
    ensures Below(a[1..], b[1..])
    ensures b[0] ==> a == Zeros(|a|)
    ensures a[0] ==> !b[0]
  {
    forall i, j | 0 <= i < |a| - 1 && 0 <= j < |b| - 1 && a[1..][i] && b[1..][j] ensures i < j {
      assert a[i + 1] && b[j + 1];
    }
  }

  // ----- the same on words -----

  function Deposited(value: Word, mask: Word): (r: Word)
    ensures BitsOf(r) == Scatter(BitsOf(value), BitsOf(mask))
  {
    FromBits(Scatter(BitsOf(value), BitsOf(mask)))
  }

  function Extracted(x: Word, mask: Word): nat {
    Value(Gather(BitsOf(x), BitsOf(mask)))
  }

  /** The number of values that fit under a mask. */
  function Capacity(mask: Word): (c: nat)
    ensures c >= 1
  {
    Pow2(Popcount(BitsOf(mask)))
  }

  /** Extracting what was deposited gives the value modulo the mask's capacity. */
  lemma ExtractDeposited(value: Word, mask: Word)
    ensures Extracted(Deposited(value, mask), mask) == value % Capacity(mask)
  {
    var n := Popcount(BitsOf(mask));
    GatherOfScatter(BitsOf(value), BitsOf(mask));
    LowBitsPrefix(value, n, WIDTH);
    ValueOfLowBits(value, n);
  }

  lemma ExtractedBound(x: Word, mask: Word)
    ensures Extracted(x, mask) < Capacity(mask) <= MODULUS
  {
    var n := Popcount(BitsOf(mask));
    GatherLength(BitsOf(x), BitsOf(mask));
    ValueBound(Gather(BitsOf(x), BitsOf(mask)));
    Pow2Width();
    if n < WIDTH {
      Pow2Increases(n, WIDTH);
    }
  }

  /** Depositing what was extracted gives the bits under the mask. */
  lemma DepositExtracted(x: Word, mask: Word)
    ensures Extracted(x, mask) < MODULUS
    ensures Deposited(Extracted(x, mask), mask) == BitAnd(x, mask)
  {
    ExtractedBound(x, mask);
    var g := Gather(BitsOf(x), BitsOf(mask));
    var n := Popcount(BitsOf(mask));
    GatherLength(BitsOf(x), BitsOf(mask));
    LowBitsOfValue(g);
    LowBitsPrefix(Value(g), n, WIDTH);
    ScatterPrefix(BitsOf(Value(g)), BitsOf(mask), n);
    ScatterOfGather(BitsOf(x), BitsOf(mask));
    SameBits(Deposited(Value(g), mask), BitAnd(x, mask));
  }

  /** Within the capacity, depositing keeps the order strictly. */
  lemma DepositedIncreases(v: Word, w: Word, mask: Word)
    requires v < w < Capacity(mask)
    ensures Deposited(v, mask) < Deposited(w, mask)
  {
    var m, n := BitsOf(mask), Popcount(BitsOf(mask));
    forall u: Word | u == v || u == w
      ensures Value(LowBits(u, n)) == u
      ensures Value(Scatter(LowBits(u, n), m)) == Deposited(u, mask)
    {
      ValueOfLowBits(u, n);
      SmallRemainder(u, Pow2(n));
      LowBitsPrefix(u, n, WIDTH);
      ScatterPrefix(BitsOf(u), m, n);
      ValueOfBits(Deposited(u, mask));
    }
    ScatterMonotone(LowBits(v, n), LowBits(w, n), m);
  }

  /** The slicing law on words: under the union of a mask and a higher one, the lower mask takes the value's
      low bits and the higher one the value shifted by the lower's popcount; the capacities multiply. */
  lemma DepositedSplit(v: Word, a: Word, b: Word)
    requires Below(BitsOf(a), BitsOf(b))
    ensures Deposited(v, BitOr(a, b)) == BitOr(Deposited(v, a), Deposited(Quotient(v, Capacity(a)), b))
    ensures Capacity(BitOr(a, b)) == Capacity(a) * Capacity(b)
  {
    var n, m := Popcount(BitsOf(a)), Popcount(BitsOf(b));
    PopcountSplit(BitsOf(a), BitsOf(b));
    Pow2Sum(n, m);
    ScatterSplit(BitsOf(v), BitsOf(a), BitsOf(b));
    var q: Word := Quotient(v, Capacity(a));
    DropDivides(v, n, WIDTH - n);
    LowBitsPrefix(q, WIDTH - n, WIDTH);
    ScatterPrefix(BitsOf(q), BitsOf(b), WIDTH - n);
    assert BitsOf(q)[..WIDTH - n] == Skip(BitsOf(v), n);
    SameBits(Deposited(v, BitOr(a, b)), BitOr(Deposited(v, a), Deposited(q, b)));
  }

  /** `apply_mask` is a bijection from the values below the mask's capacity onto the words under the mask. */
  lemma DepositIsBijection(mask: Word)
    ensures forall v: Word :: BitAnd(Deposited(v, mask), mask) == Deposited(v, mask)
    ensures forall v: Word, w: Word :: v < w < Capacity(mask) ==> Deposited(v, mask) != Deposited(w, mask)
    ensures forall x: Word :: BitAnd(x, mask) == x ==>
      exists v: Word :: v < Capacity(mask) && Deposited(v, mask) == x
  {
    forall v: Word ensures BitAnd(Deposited(v, mask), mask) == Deposited(v, mask) {
      forall i | 0 <= i < WIDTH && !BitsOf(mask)[i] ensures !BitsOf(Deposited(v, mask))[i] {
        ScatterWithinMask(BitsOf(v), BitsOf(mask), i);
      }
      assert BitsOf(BitAnd(Deposited(v, mask), mask)) == BitsOf(Deposited(v, mask));
      SameBits(BitAnd(Deposited(v, mask), mask), Deposited(v, mask));
    }
    forall v: Word, w: Word | v < w < Capacity(mask) ensures Deposited(v, mask) != Deposited(w, mask) {
      DepositedIncreases(v, w, mask);
    }
    forall x: Word | BitAnd(x, mask) == x
      ensures exists v: Word :: v < Capacity(mask) && Deposited(v, mask) == x
    {
      ExtractedBound(x, mask);
      DepositExtracted(x, mask);
      var v: Word := Extracted(x, mask);
      assert Deposited(v, mask) == x;
    }
  }

  // ----- the loop -----

  lemma {:induction false} PopcountMonotone(m: Bits, k: nat)
    requires k < |m|
    ensures Popcount(m[..k + 1]) == Popcount(m[..k]) + Digit(m[k])
  {
    if k == 0 {
      assert m[..1] == [m[0]] && m[..0] == [];
    } else {
      PopcountMonotone(m[1..], k - 1);
      assert m[..k + 1][1..] == m[1..][..k] && m[..k][1..] == m[1..][..k - 1];
    }
  }

  /** What bit `k` of the result is: the value bit whose number is the count of mask bits below `k`. */
  lemma {:induction false} ScatterAt(v: Bits, m: Bits, k: nat)
    requires k < |m| <= |v|
    ensures Scatter(v, m)[k] == (m[k] && v[Popcount(m[..k])])
    decreases |m|
  {
    assert m[..0] == [];
    if k != 0 {
      assert m[..k][1..] == m[1..][..k - 1];
      if m[0] {
        ScatterAt(Rest(v), m[1..], k - 1);
      } else {
        ScatterAt(v, m[1..], k - 1);
      }
    }
  }

  /** `1 << k` tests exactly bit `k`. */
  lemma SingleBit(k: nat)
    requires k < WIDTH
    ensures BitsOf(Shl(1, k)) == RunBits(WIDTH, k, k)
  {
    OneBits();
    forall i | 0 <= i < WIDTH ensures BitsOf(Shl(1, k))[i] == (i == k) {
      ShlBit(1, k, i);
    }
  }

  lemma MaskTest(mask: Word, k: nat)
    requires k < WIDTH
    ensures (BitAnd(mask, Shl(1, k)) != 0) == BitsOf(mask)[k]
  {
    SingleBit(k);
    var r := BitAnd(mask, Shl(1, k));
    ZeroLowBits(WIDTH);
    if BitsOf(mask)[k] {
      assert BitsOf(r)[k] && !BitsOf(0)[k];
    } else {
      assert BitsOf(r) == BitsOf(0);
      SameBits(r, 0);
    }
  }

  lemma OneBits()
    ensures BitsOf(1) == RunBits(WIDTH, 0, 0)
  {
    OnesBelow(1, WIDTH);
  }

  lemma IsolatedBit(value: Word, j: nat, i: nat)
    requires j < WIDTH && i < WIDTH
    ensures BitsOf(BitAnd(Shr(value, j), 1))[i] == (i == 0 && BitsOf(value)[j])
  {
    OneBits();
    var low := Shr(value, j);
    assert BitsOf(BitAnd(low, 1))[i] == (BitsOf(low)[i] && BitsOf(1)[i]);
    if i == 0 {
      ShrBit(value, j, 0);
    }
  }

  /** `((value >> j) & 1) << k` carries value bit `j` to position `k`. */
  lemma MovedBit(value: Word, j: nat, k: nat)
    requires j < WIDTH && k < WIDTH
    ensures forall i :: 0 <= i < WIDTH ==>
      BitsOf(Shl(BitAnd(Shr(value, j), 1), k))[i] == (i == k && BitsOf(value)[j])
  {
    var b := BitAnd(Shr(value, j), 1);
    forall i | 0 <= i < WIDTH ensures BitsOf(Shl(b, k))[i] == (i == k && BitsOf(value)[j]) {
      ShlBit(b, k, i);
      if k <= i {
        IsolatedBit(value, j, i - k);
      }
    }
  }

  /** The first `k` bits of the result are those of `want`; the rest are still clear. */
  ghost predicate Built(res: Bits, want: Bits, k: nat)
    requires |res| == |want|
  {
    forall i :: 0 <= i < |res| ==> res[i] == (i < k && want[i])
  }

  /** A turn of the loop on a set mask bit `k`, the one after `j` others. */
  lemma SetTurn(res: Word, value: Word, mask: Word, j: nat, k: nat)
    requires k < WIDTH && BitsOf(mask)[k] && j == Popcount(BitsOf(mask)[..k])
    requires Built(BitsOf(res), Scatter(BitsOf(value), BitsOf(mask)), k)
    ensures j < WIDTH
    ensures Built(BitsOf(BitOr(res, Shl(BitAnd(Shr(value, j), 1), k))), Scatter(BitsOf(value), BitsOf(mask)), k + 1)
    ensures Popcount(BitsOf(mask)[..k + 1]) == j + 1
  {
    MovedBit(value, j, k);
    PopcountMonotone(BitsOf(mask), k);
    ScatterAt(BitsOf(value), BitsOf(mask), k);
  }

  /** A turn of the loop on a clear mask bit `k`. */
  lemma ClearTurn(res: Word, value: Word, mask: Word, k: nat)
    requires k < WIDTH && !BitsOf(mask)[k]
    requires Built(BitsOf(res), Scatter(BitsOf(value), BitsOf(mask)), k)
    ensures Built(BitsOf(res), Scatter(BitsOf(value), BitsOf(mask)), k + 1)
    ensures Popcount(BitsOf(mask)[..k + 1]) == Popcount(BitsOf(mask)[..k])
  {
    PopcountMonotone(BitsOf(mask), k);
    ScatterAt(BitsOf(value), BitsOf(mask), k);
  }

  /** `apply_mask`. The shift operators' preconditions show that every shift count stays below 64. */
  method ApplyMask(value: Word, mask: Word) returns (res: Word)
    ensures res == Deposited(value, mask)
  {
    ghost var want := Scatter(BitsOf(value), BitsOf(mask));
    res := 0;
    var maskBit, valueBit := 0, 0;
    assert Built(BitsOf(0), want, 0) by { ZeroLowBits(WIDTH); }
    assert BitsOf(mask)[..0] == [];
    while maskBit < WIDTH
      invariant maskBit <= WIDTH && valueBit == Popcount(BitsOf(mask)[..maskBit])
      invariant Built(BitsOf(res), want, maskBit)
    {
      MaskTest(mask, maskBit);
      if BitAnd(mask, Shl(1, maskBit)) != 0 {
        SetTurn(res, value, mask, valueBit, maskBit);
        res := BitOr(res, Shl(BitAnd(Shr(value, valueBit), 1), maskBit));
        valueBit := valueBit + 1;
      } else {
        ClearTurn(res, value, mask, maskBit);
      }
      maskBit := maskBit + 1;
    }
    assert BitsOf(res) == want;
    SameBits(res, Deposited(value, mask));
  }
}
