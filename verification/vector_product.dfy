/** `vectorProduct` from include/yolo-v5.hpp: `std::accumulate` over the
    vector with `std::multiplies` and the literal `1` as the initial value.
    Because the initial value is an `int` literal, the accumulator is a
    32-bit `int`: every partial product is stored in it. The model covers
    integer element types; elements are mathematical integers here. */
module VectorProduct {
  import opened Int32

  /** The mathematical product of a sequence (reference definition, folded
      from the right). */
  function Product(v: seq<int>): int
  {
    if v == [] then 1 else v[0] * Product(v[1..])
  }

  /** Every value the accumulator takes, starting at `acc` and multiplying
      the elements of `v` in order, fits in a 32-bit `int`. */
  predicate PartialProductsFit(acc: int, v: seq<int>)
    decreases |v|
  {
    InInt32(acc) && (v == [] || PartialProductsFit(acc * v[0], v[1..]))
  }

  /** The left fold `std::accumulate` performs: the accumulator is
      multiplied by each element in turn. */
  function Accumulate(acc: int, v: seq<int>): (r: int)
    requires PartialProductsFit(acc, v)
    ensures r == acc * Product(v)
    ensures InInt32(r)
    decreases |v|
  {
    if v == [] then acc
    else
      assert acc * v[0] * Product(v[1..]) == acc * (v[0] * Product(v[1..]));
      Accumulate(acc * v[0], v[1..])
  }

  /** `vectorProduct(v)`: the fold started from the literal `1`. While every
      partial product fits in an `int`, it is the product of the elements. */
  function VectorProduct(v: seq<int>): (r: int)
    requires PartialProductsFit(1, v)
    ensures r == Product(v)
    ensures v == [] ==> r == 1
    ensures |v| == 1 ==> r == v[0]
    ensures InInt32(r)
  {
    Accumulate(1, v)
  }

  /** The product of a two-element shape is the product of its entries. */
  lemma LemmaProductPair(a: int, b: int)
    ensures Product([a, b]) == a * b
  {
    assert [b][1..] == [];
    assert Product([b]) == b * Product([]) == b;
    assert [a, b][1..] == [b];
    assert Product([a, b]) == a * Product([b]);
  }

  /** The product of a concatenation is the product of the parts. */
  lemma {:induction false} LemmaProductAppend(a: seq<int>, b: seq<int>)
    ensures Product(a + b) == Product(a) * Product(b)
    decreases |a|
  {
    if a == [] {
      assert a + b == b;
    } else {
      assert (a + b)[1..] == a[1..] + b;
      LemmaProductAppend(a[1..], b);
      assert Product(a + b) == a[0] * (Product(a[1..]) * Product(b));
    }
  }

  /** Taking one element out of a sequence divides it out of the product. */
  lemma LemmaProductRemove(b: seq<int>, k: int)
    requires 0 <= k < |b|
    ensures Product(b) == b[k] * Product(b[..k] + b[k + 1..])
  {
    var front, back := b[..k], b[k + 1..];
    var tail := [b[k]] + back;
    assert b == front + tail;
    assert tail[1..] == back;
    var x, y, z := Product(front), b[k], Product(back);
    assert Product(tail) == y * z;
    LemmaProductAppend(front, tail);
    LemmaProductAppend(front, back);
    LemmaSwap(x, y, z);
  }

  lemma LemmaSwap(x: int, y: int, z: int)
    ensures x * (y * z) == y * (x * z)
  {
  }

  /** The product does not depend on the order of the elements. */
  lemma {:induction false} LemmaProductPermutation(a: seq<int>, b: seq<int>)
    requires multiset(a) == multiset(b)
    ensures Product(a) == Product(b)
    decreases |a|
  {
    if a == [] {
      assert |b| == |multiset(b)| == 0;
    } else {
      assert a[0] in multiset(b);
      var k :| 0 <= k < |b| && b[k] == a[0];
      var rest := b[..k] + b[k + 1..];
      assert b == b[..k] + [b[k]] + b[k + 1..];
      assert a == [a[0]] + a[1..];
      assert multiset(a[1..]) == multiset(a) - multiset{a[0]};
      assert multiset(rest) == multiset(b) - multiset{b[k]};
      LemmaProductPermutation(a[1..], rest);
      LemmaProductRemove(b, k);
    }
  }

  /** A prefix of a sequence whose partial products fit also has partial
      products that fit. */
  lemma {:induction false} LemmaFitPrefix(acc: int, a: seq<int>, b: seq<int>)
    requires PartialProductsFit(acc, a + b)
    ensures PartialProductsFit(acc, a)
    decreases |a|
  {
    if a != [] {
      assert (a + b)[1..] == a[1..] + b;
      LemmaFitPrefix(acc * a[0], a[1..], b);
    }
  }

  /** `vectorProduct` of a concatenation is the product of the two
      `vectorProduct`s, when no partial product overflows. */
  lemma LemmaVectorProductAppend(a: seq<int>, b: seq<int>)
    requires PartialProductsFit(1, a + b) && PartialProductsFit(1, b)
    ensures PartialProductsFit(1, a)
    ensures VectorProduct(a + b) == VectorProduct(a) * VectorProduct(b)
  {
    LemmaFitPrefix(1, a, b);
    LemmaProductAppend(a, b);
  }

  /** Reordering the elements does not change `vectorProduct`, provided
      neither order overflows. */
  lemma LemmaVectorProductOrder(a: seq<int>, b: seq<int>)
    requires multiset(a) == multiset(b)
    requires PartialProductsFit(1, a) && PartialProductsFit(1, b)
    ensures VectorProduct(a) == VectorProduct(b)
  {
    LemmaProductPermutation(a, b);
  }
}
