/** The 64-bit words the encoder computes with: `std::uint64_t` as a number with its width written out,
    the C++ operators on it, and the bits of a word as a sequence, least significant bit first. */
module Words {

  const WIDTH: nat := 64
  const MODULUS: nat := 0x1_0000_0000_0000_0000

  type Word = w: nat | w < MODULUS
  type Bits = seq<bool>

  function Pow2(n: nat): (p: nat)
    ensures p >= 1
  {
    if n == 0 then 1 else 2 * Pow2(n - 1)
  }

  function Quotient(n: nat, d: nat): (q: nat)
    requires d >= 1
    ensures q <= n
  {
    DivisionBounds(n, d);
    n / d
  }

  lemma DivisionBounds(n: nat, d: nat)
    requires d >= 1
    ensures 0 <= n / d <= n
  {
    var q, r := n / d, n % d;
    assert n == d * q + r;
    ProductAtLeastFactor(d, q);
    ProductAtLeastFactor(q, d);
  }

  /** The `n` lowest bits of `w`. */
  function LowBits(w: nat, n: nat): (b: Bits)
    ensures |b| == n
  {
    if n == 0 then [] else [w % 2 == 1] + LowBits(w / 2, n - 1)
  }

  function BitsOf(w: Word): (b: Bits)
    ensures |b| == WIDTH
  {
    LowBits(w, WIDTH)
  }

  function Digit(b: bool): nat {
    if b then 1 else 0
  }

  /** The number a bit sequence denotes. */
  function Value(b: Bits): nat {
    if b == [] then 0 else Digit(b[0]) + 2 * Value(b[1..])
  }

  // ----- operations on bit sequences -----

  function Zeros(n: nat): (b: Bits)
    ensures |b| == n
    ensures forall i :: 0 <= i < n ==> !b[i]
  {
    seq(n, _ => false)
  }

  function Or(a: Bits, b: Bits): (r: Bits)
    requires |a| == |b|
    ensures |r| == |a|
    ensures forall i :: 0 <= i < |r| ==> r[i] == (a[i] || b[i])
  {
    seq(|a|, i requires 0 <= i < |a| => a[i] || b[i])
  }

  function And(a: Bits, b: Bits): (r: Bits)
    requires |a| == |b|
    ensures |r| == |a|
    ensures forall i :: 0 <= i < |r| ==> r[i] == (a[i] && b[i])
  {
    seq(|a|, i requires 0 <= i < |a| => a[i] && b[i])
  }

  function Not(a: Bits): (r: Bits)
    ensures |r| == |a|
    ensures forall i :: 0 <= i < |r| ==> r[i] == !a[i]
  {
    seq(|a|, i requires 0 <= i < |a| => !a[i])
  }

  /** `n` bits, of which exactly those from `start` up to and including `end` are set. */
  function RunBits(n: nat, start: int, end: int): (r: Bits)
    ensures |r| == n
    ensures forall i :: 0 <= i < n ==> r[i] == (start <= i <= end)
  {
    seq(n, i requires 0 <= i < n => start <= i <= end)
  }

  // ----- the C++ operators -----

  /** `a | b` */
  function BitOr(a: Word, b: Word): (r: Word)
    ensures BitsOf(r) == Or(BitsOf(a), BitsOf(b))
  {
    FromBits(Or(BitsOf(a), BitsOf(b)))
  }

  /** `a & b` */
  function BitAnd(a: Word, b: Word): (r: Word)
    ensures BitsOf(r) == And(BitsOf(a), BitsOf(b))
  {
    FromBits(And(BitsOf(a), BitsOf(b)))
  }

  /** `~a` */
  function BitNot(a: Word): (r: Word)
    ensures BitsOf(r) == Not(BitsOf(a))
  {
    FromBits(Not(BitsOf(a)))
  }

  /** `a << n`: defined only for shift counts below the width. */
  function Shl(a: Word, n: nat): Word
    requires n < WIDTH
  {
    (a * Pow2(n)) % MODULUS
  }

  /** `a >> n`, with the same precondition. */
  function Shr(a: Word, n: nat): Word
    requires n < WIDTH
  {
    Quotient(a, Pow2(n))
  }

  function FromBits(b: Bits): (w: Word)
    requires |b| == WIDTH
    ensures BitsOf(w) == b
  {
    ValueBound(b);
    Pow2Width();
    LowBitsOfValue(b);
    Value(b)
  }

  // ----- bits and numbers -----

  lemma Pow2Width()
    ensures Pow2(WIDTH) == MODULUS
  {
    assert Pow2(4) == 16;
    Pow2Square(4, 16);
    Pow2Square(8, 0x100);
    Pow2Square(16, 0x1_0000);
    Pow2Square(32, 0x1_0000_0000);
  }

  lemma {:induction false} Pow2Sum(m: nat, n: nat)
    ensures Pow2(m + n) == Pow2(m) * Pow2(n)
  {
    if n != 0 {
      Pow2Sum(m, n - 1);
    }
  }

  lemma {:induction false} Pow2Increases(m: nat, n: nat)
    requires m < n
    ensures 2 * Pow2(m) <= Pow2(n)
    decreases n
  {
    if m + 1 < n {
      Pow2Increases(m, n - 1);
    }
  }

  lemma Pow2Square(n: nat, p: nat)
    requires Pow2(n) == p
    ensures Pow2(n + n) == p * p
  {
    Pow2Sum(n, n);
  }

  lemma {:induction false} ValueBound(b: Bits)
    ensures Value(b) < Pow2(|b|)
  {
    if b != [] {
      ValueBound(b[1..]);
    }
  }

  lemma {:induction false} LowBitsOfValue(b: Bits)
    ensures LowBits(Value(b), |b|) == b
  {
    if b != [] {
      LowBitsOfValue(b[1..]);
      HalfOfSum(Digit(b[0]), Value(b[1..]), Value(b));
    }
  }

  lemma HalfOfSum(b: nat, h: nat, r: nat)
    requires b < 2 && r == b + 2 * h
    ensures r % 2 == b && r / 2 == h
  {
  }

  /** Reading back the `n` lowest bits keeps the number modulo 2^n. */
  lemma {:induction false} ValueOfLowBits(w: nat, n: nat)
    ensures Value(LowBits(w, n)) == w % Pow2(n)
  {
    if n != 0 {
      ValueOfLowBits(w / 2, n - 1);
      ModDouble(w, Pow2(n - 1));
    }
  }

  lemma ModDouble(w: nat, p: nat)
    requires p >= 1
    ensures w % (2 * p) == w % 2 + 2 * ((w / 2) % p)
  {
    DivisionBounds(w / 2, p);
    var q, r := w / 2 / p, (w / 2) % p;
    assert w / 2 == q * p + r;
    assert w == (2 * p) * q + (w % 2 + 2 * r);
    DivModUnique(w, 2 * p, q, w % 2 + 2 * r);
  }

  lemma DivModUnique(n: nat, d: nat, q: nat, r: nat)
    requires r < d && n == d * q + r
    ensures n / d == q && n % d == r
  {
    DivisionBounds(n, d);
    var q', r' := n / d, n % d;
    assert n == d * q' + r';
    assert d * (q - q') == r' - r;
    ProductAtLeastFactor(d, q - q');
  }

  lemma SmallRemainder(u: nat, p: nat)
    requires u < p
    ensures u % p == u
  {
    DivModUnique(u, p, 0, u);
  }

  lemma ProductAtLeastFactor(d: nat, k: int)
    ensures k >= 1 ==> d * k >= d
    ensures k <= -1 ==> d * k + d <= 0
  {
  }

  /** A word is the number its bits denote. */
  lemma ValueOfBits(w: Word)
    ensures Value(BitsOf(w)) == w
  {
    ValueOfLowBits(w, WIDTH);
    Pow2Width();
    SmallRemainder(w, MODULUS);
  }

  /** Words with the same bits are the same word. */
  lemma SameBits(a: Word, b: Word)
    requires BitsOf(a) == BitsOf(b)
    ensures a == b
  {
    ValueOfBits(a);
    ValueOfBits(b);
  }

  /** Dropping the `n` lowest bits divides by 2^n. */
  lemma {:induction false} DropDivides(w: nat, n: nat, k: nat)
    ensures LowBits(Quotient(w, Pow2(n)), k) == LowBits(w, n + k)[n..]
  {
    if n != 0 {
      DivDouble(w, Pow2(n - 1));
      DropDivides(w / 2, n - 1, k);
      assert LowBits(w, n + k)[n..] == LowBits(w / 2, n - 1 + k)[n - 1..];
    }
  }

  lemma DivDouble(w: nat, p: nat)
    requires p >= 1
    ensures Quotient(w, 2 * p) == Quotient(w / 2, p)
  {
    ModDouble(w, p);
    var q := w / 2 / p;
    assert w / 2 == q * p + (w / 2) % p;
    DivModUnique(w, 2 * p, q, w % (2 * p));
  }

  /** Bit `i` of a shifted word; the positions it came from. */
  lemma ShrBit(a: Word, n: nat, i: nat)
    requires n + i < WIDTH
    ensures BitsOf(Shr(a, n))[i] == BitsOf(a)[n + i]
  {
    DropDivides(a, n, i + 1);
    LowBitsPrefix(a, n + i + 1, WIDTH);
    LowBitsPrefix(Shr(a, n), i + 1, WIDTH);
  }

  lemma {:induction false} LowBitsPrefix(w: nat, k: nat, n: nat)
    requires k <= n
    ensures LowBits(w, n)[..k] == LowBits(w, k)
  {
    if k != 0 {
      LowBitsPrefix(w / 2, k - 1, n - 1);
    }
  }

  /** Multiplying by 2^n puts `n` zeros below; the modulus drops what leaves the word. */
  lemma {:induction false} LowBitsOfProduct(a: nat, n: nat, k: nat)
    ensures LowBits(a * Pow2(n), n + k) == Zeros(n) + LowBits(a, k)
  {
    if n == 0 {
      assert a * Pow2(0) == a;
    } else {
      var w := a * Pow2(n - 1);
      assert a * Pow2(n) == 2 * w;
      LowBitsOfProduct(a, n - 1, k);
    }
  }

  lemma {:induction false} LowBitsOfMod(w: nat, n: nat)
    ensures LowBits(w % Pow2(n), n) == LowBits(w, n)
  {
    if n != 0 {
      var p := Pow2(n - 1);
      var r := w % (2 * p);
      ModDouble(w, p);
      HalfOfSum(w % 2, (w / 2) % p, r);
      LowBitsOfMod(w / 2, n - 1);
    }
  }

  lemma ShlBit(a: Word, n: nat, i: nat)
    requires n < WIDTH && i < WIDTH
    ensures BitsOf(Shl(a, n))[i] == (n <= i && BitsOf(a)[i - n])
  {
    Pow2Width();
    LowBitsOfMod(a * Pow2(n), WIDTH);
    LowBitsOfProduct(a, n, WIDTH - n);
    LowBitsPrefix(a, WIDTH - n, WIDTH);
    if n <= i {
      assert BitsOf(Shl(a, n))[i] == LowBits(a, WIDTH - n)[i - n];
    }
  }

  lemma {:induction false} OnesBelow(n: nat, k: nat)
    ensures LowBits(Pow2(n) - 1, k) == RunBits(k, 0, n - 1)
    decreases n
  {
    if n == 0 {
      ZeroLowBits(k);
    } else if k != 0 {
      var p := Pow2(n - 1);
      assert (2 * p - 1) % 2 == 1 && (2 * p - 1) / 2 == p - 1;
      OnesBelow(n - 1, k - 1);
    }
  }

  lemma {:induction false} ValueOfZeros(n: nat)
    ensures Value(Zeros(n)) == 0
  {
    if n != 0 {
      assert Zeros(n)[1..] == Zeros(n - 1);
      ValueOfZeros(n - 1);
    }
  }

  lemma {:induction false} ZeroLowBits(k: nat)
    ensures LowBits(0, k) == Zeros(k)
  {
    if k != 0 {
      ZeroLowBits(k - 1);
    }
  }
}
