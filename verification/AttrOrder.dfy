/** The order on event attributes, taken from their bytes. */
module AttrOrder {

  type Byte = b: nat | b < 256
  type Image = seq<Byte>

  /** The sign of `memcmp` on two images of equal length. */
  function Memcmp(a: Image, b: Image): (r: int)
    requires |a| == |b|
    ensures r == 0 <==> a == b
  {
    if a == [] then 0
    else if a[0] < b[0] then -1
    else if a[0] > b[0] then 1
    else
      assert a == [a[0]] + a[1..] && b == [b[0]] + b[1..];
      Memcmp(a[1..], b[1..])
  }

  /** `operator==`, `operator<` and `operator>`, with the arguments in the order the code passes them. */
  predicate Equal(l: Image, r: Image)
    requires |l| == |r|
  {
    Memcmp(l, r) == 0
  }

  predicate Less(l: Image, r: Image)
    requires |l| == |r|
  {
    Memcmp(r, l) < 0
  }

  predicate Greater(l: Image, r: Image)
    requires |l| == |r|
  {
    Memcmp(l, r) > 0
  }

  /** Byte `i` is the first in which the images differ. */
  predicate FirstDifference(a: Image, b: Image, i: nat)
    requires |a| == |b|
  {
    i < |a| && a[i] != b[i] && a[..i] == b[..i]
  }

  /** The first differing byte decides, and it exists unless the images are equal. */
  lemma {:induction false} FirstDifferenceDecides(a: Image, b: Image) returns (i: nat)
    requires |a| == |b| && a != b
    ensures FirstDifference(a, b, i)
    ensures a[i] < b[i] <==> Memcmp(a, b) < 0
    ensures a[i] > b[i] <==> Memcmp(a, b) > 0
  {
    if a[0] != b[0] {
      i := 0;
    } else {
      assert a == [a[0]] + a[1..] && b == [b[0]] + b[1..];
      var j := FirstDifferenceDecides(a[1..], b[1..]);
      i := j + 1;
      assert a[..i] == [a[0]] + a[1..][..j] && b[..i] == [b[0]] + b[1..][..j];
    }
  }

  lemma OneFirstDifference(a: Image, b: Image, i: nat, j: nat)
    requires |a| == |b| && FirstDifference(a, b, i) && FirstDifference(a, b, j)
    ensures i == j
  {
    SameBefore(a, b, i, j);
    SameBefore(a, b, j, i);
  }

  lemma SameBefore(a: Image, b: Image, n: nat, i: nat)
    requires |a| == |b| && n < |a|
    ensures a[..n] == b[..n] && i < n ==> a[i] == b[i]
  {
    if a[..n] == b[..n] && i < n {
      assert a[..n][i] == b[..n][i];
    }
  }

  /** What `<` compares: the left image is less iff it has the larger byte where the two first differ. */
  lemma LessIff(l: Image, r: Image)
    requires |l| == |r|
    ensures Less(l, r) <==> exists i: nat :: FirstDifference(l, r, i) && l[i] > r[i]
  {
    if l != r {
      var i := FirstDifferenceDecides(r, l);
      assert FirstDifference(l, r, i);
      forall j: nat | FirstDifference(l, r, j) ensures j == i {
        OneFirstDifference(l, r, i, j);
      }
    }
  }

  lemma {:induction false} MemcmpAntisymmetric(a: Image, b: Image)
    requires |a| == |b|
    ensures Memcmp(a, b) < 0 <==> Memcmp(b, a) > 0
  {
    if a != [] && a[0] == b[0] {
      MemcmpAntisymmetric(a[1..], b[1..]);
    }
  }

  lemma {:induction false} MemcmpTransitive(a: Image, b: Image, c: Image)
    requires |a| == |b| == |c| && Memcmp(a, b) < 0 && Memcmp(b, c) < 0
    ensures Memcmp(a, c) < 0
  {
    if a[0] == b[0] == c[0] {
      MemcmpTransitive(a[1..], b[1..], c[1..]);
    }
  }

  /** As written, `<` and `>` are the same relation: the one that orders larger bytes first. */
  lemma LessIsGreater(l: Image, r: Image)
    requires |l| == |r|
    ensures Less(l, r) <==> Greater(l, r)
    ensures Less(l, r) ==> !Greater(r, l)
  {
    MemcmpAntisymmetric(l, r);
    MemcmpAntisymmetric(r, l);
  }

  /** `<` is a strict weak order: irreflexive, transitive, and two images are incomparable exactly when
      `==` says they are equal. */
  lemma StrictWeakOrder(a: Image, b: Image, c: Image)
    requires |a| == |b| == |c|
    ensures !Less(a, a)
    ensures Less(a, b) && Less(b, c) ==> Less(a, c)
    ensures !Less(a, b) && !Less(b, a) <==> Equal(a, b)
    ensures Equal(a, b) <==> a == b
  {
    MemcmpAntisymmetric(a, b);
    MemcmpAntisymmetric(b, a);
    if Less(a, b) && Less(b, c) {
      MemcmpTransitive(c, b, a);
    }
  }
}
