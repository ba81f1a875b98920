/**
  The exclusive or of two bytes as a number, bit by bit from the lowest: it is the operator
  on eight-bit vectors, it is its own inverse, and its high half depends on the high halves only.
 */
module ExclusiveOr {

  function Pow2(n: nat): nat {
    if n == 0 then 1 else 2 * Pow2(n - 1)
  }

  /** The exclusive or of the `n` lowest bits. */
  function XorBits(a: nat, b: nat, n: nat): (r: nat)
    ensures r < Pow2(n)
  {
    if n == 0 then 0 else 2 * XorBits(a / 2, b / 2, n - 1) + (a + b) % 2
  }

  function Xor8(a: nat, b: nat): (r: nat)
    ensures r < 256
  {
    assert Pow2(8) == 256;
    XorBits(a, b, 8)
  }

  lemma XorStep(a: nat, b: nat, n: nat)
    ensures XorBits(a, b, n + 1) / 2 == XorBits(a / 2, b / 2, n)
    ensures XorBits(a, b, n + 1) % 2 == (a + b) % 2
  {
  }

  // ----- Its own inverse -----

  lemma SameHalves(a: nat, b: nat)
    requires a / 2 == b / 2 && a % 2 == b % 2
    ensures a == b
  {
  }

  lemma ParityBack(a: nat, b: nat, c: nat)
    requires c % 2 == (a + b) % 2
    ensures (a + c) % 2 == b % 2
  {
  }

  lemma XorBack(a: nat, b: nat, c: nat, n: nat)
    requires c % 2 == (a + b) % 2 && XorBits(a / 2, c / 2, n) == b / 2
    ensures XorBits(a, c, n + 1) == b
  {
    XorStep(a, c, n);
    ParityBack(a, b, c);
    SameHalves(XorBits(a, c, n + 1), b);
  }

  lemma XorHalf(a: nat, b: nat, c: nat, n: nat)
    requires b < Pow2(n + 1) && c == XorBits(a, b, n + 1)
    ensures b / 2 < Pow2(n) && c / 2 == XorBits(a / 2, b / 2, n) && c % 2 == (a + b) % 2
  {
    XorStep(a, b, n);
  }

  lemma {:induction false} XorTwiceBits(a: nat, b: nat, c: nat, n: nat)
    requires b < Pow2(n) && c == XorBits(a, b, n)
    ensures XorBits(a, c, n) == b
  {
    if n > 0 {
      XorHalf(a, b, c, n - 1);
      XorTwiceBits(a / 2, b / 2, c / 2, n - 1);
      XorBack(a, b, c, n - 1);
    }
  }

  lemma XorTwice(a: nat, b: nat)
    requires b < 256
    ensures Xor8(a, Xor8(a, b)) == b
  {
    assert Pow2(8) == 256;
    XorTwiceBits(a, b, Xor8(a, b), 8);
  }

  // ----- The high half -----

  lemma DivTwice(a: nat)
    ensures a / 2 / 2 == a / 4 && a / 4 / 4 == a / 16
  {
  }

  lemma XorQuarter(a: nat, b: nat, n: nat)
    ensures XorBits(a, b, n + 2) / 4 == XorBits(a / 4, b / 4, n)
  {
    XorStep(a, b, n + 1);
    XorStep(a / 2, b / 2, n);
    DivTwice(a);
    DivTwice(b);
    DivTwice(XorBits(a, b, n + 2));
  }

  /** The high half of the exclusive or depends on the high halves only. */
  lemma XorHigh(a: nat, b: nat)
    ensures Xor8(a, b) / 16 == XorBits(a / 16, b / 16, 4)
  {
    XorQuarter(a, b, 6);
    XorQuarter(a / 4, b / 4, 4);
    DivTwice(a);
    DivTwice(b);
    DivTwice(Xor8(a, b));
  }

  // ----- The operator on bit vectors -----

  lemma ParityOf(x: bv8) returns (i: nat)
    ensures i == x as int % 2 && x & 1 == i as bv8 && i < 2
  {
    i := (x & 1) as int;
    assert x & 1 == 0 || x & 1 == 1;
  }

  lemma ParityXor(x: bv8, y: bv8, z: bv8, i: nat, j: nat, k: nat)
    requires i < 2 && j < 2 && k < 2 && z == x ^ y
    requires x & 1 == i as bv8 && y & 1 == j as bv8 && z & 1 == k as bv8
    ensures k == (i + j) % 2
  {
    assert z & 1 == (x & 1) ^ (y & 1);
    assert i == 0 || i == 1;
    assert j == 0 || j == 1;
  }

  lemma ParitySum(a: nat, b: nat, c: nat, i: nat, j: nat)
    requires i == a % 2 && j == b % 2 && c % 2 == (i + j) % 2
    ensures c % 2 == (a + b) % 2
  {
  }

  lemma HalfOf(x: bv8)
    ensures (x >> 1) as int == x as int / 2
  {
  }

  lemma HalfXor(x: bv8, y: bv8)
    ensures (x ^ y) >> 1 == (x >> 1) ^ (y >> 1)
  {
  }

  /** One bit of the operator on vectors. */
  lemma VectorStep(x: bv8, y: bv8) returns (a: nat, b: nat, c: nat)
    ensures a == x as int && b == y as int && c == (x ^ y) as int
    ensures c % 2 == (a + b) % 2
    ensures a / 2 == (x >> 1) as int && b / 2 == (y >> 1) as int && c / 2 == ((x >> 1) ^ (y >> 1)) as int
  {
    a, b, c := x as int, y as int, (x ^ y) as int;
    HalfOf(x);
    HalfOf(y);
    HalfOf(x ^ y);
    HalfXor(x, y);
    var i := ParityOf(x);
    var j := ParityOf(y);
    var k := ParityOf(x ^ y);
    ParityXor(x, y, x ^ y, i, j, k);
    ParitySum(a, b, c, i, j);
  }

  ghost predicate Agree(a: nat, b: nat, c: nat, n: nat) {
    a < Pow2(n) && b < Pow2(n) ==> XorBits(a, b, n) == c
  }

  lemma AgreeNext(a: nat, b: nat, c: nat, n: nat)
    requires Agree(a / 2, b / 2, c / 2, n) && c % 2 == (a + b) % 2
    ensures Agree(a, b, c, n + 1)
  {
    XorStep(a, b, n);
    if a < Pow2(n + 1) && b < Pow2(n + 1) {
      SameHalves(XorBits(a, b, n + 1), c);
    }
  }

  lemma AgreeOnNothing(x: bv8, y: bv8, a: nat, b: nat, c: nat)
    requires a == x as int && b == y as int && c == (x ^ y) as int
    ensures Agree(a, b, c, 0)
  {
    if a == 0 && b == 0 {
      assert x == 0 && y == 0;
    }
  }

  lemma {:induction false} VectorsAgree(x: bv8, y: bv8, n: nat) returns (a: nat, b: nat, c: nat)
    ensures a == x as int && b == y as int && c == (x ^ y) as int && Agree(a, b, c, n)
    decreases n
  {
    a, b, c := VectorStep(x, y);
    if n == 0 {
      AgreeOnNothing(x, y, a, b, c);
    } else {
      var a2, b2, c2 := VectorsAgree(x >> 1, y >> 1, n - 1);
      AgreeNext(a, b, c, n - 1);
    }
  }

  /** Bit by bit gives the operator on eight-bit vectors. */
  lemma XorIsVectorXor(x: bv8, y: bv8)
    ensures Xor8(x as int, y as int) == (x ^ y) as int
  {
    var a, b, c := VectorsAgree(x, y, 8);
    BytesAgree(a, b, c);
  }

  lemma BytesAgree(a: nat, b: nat, c: nat)
    requires a < 256 && b < 256 && Agree(a, b, c, 8)
    ensures Xor8(a, b) == c
  {
    assert Pow2(8) == 256;
  }
}
