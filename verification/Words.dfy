/** 64-bit machine words as natural numbers, with the mask and alignment operations that the kernel uses. */
module Words {
  const U64: nat := 0x1_0000_0000_0000_0000
  const U32: nat := 0x1_0000_0000
  const PAGE_SIZE: nat := 4096

  type Word = w: nat | w < U64 witness 0

  /** `v & ~(align - 1)` for a power of two `align`. */
  function AlignDown(v: nat, align: nat): nat
    requires 0 < align
  {
    v - v % align
  }

  /** `(v + (align - 1)) & ~(align - 1)` in 64-bit arithmetic: the sum wraps. */
  function AlignUp(v: nat, align: nat): nat
    requires 0 < align
  {
    AlignDown((v + (align - 1)) % U64, align)
  }

  /** Bitwise or. */
  function Or(a: nat, b: nat): nat
    decreases a + b
  {
    if a == 0 then b
    else if b == 0 then a
    else 2 * Or(a / 2, b / 2) + (if a % 2 == 1 || b % 2 == 1 then 1 else 0)
  }

  /** Every bit of `b` is a bit of `a`, that is, `b & ~a == 0`. */
  predicate BitsIn(b: nat, a: nat)
    decreases b
  {
    b == 0 || (b % 2 <= a % 2 && BitsIn(b / 2, a / 2))
  }

  /** Adding the bits of `b` changes nothing exactly when `a` has them already. */
  lemma {:induction false} OrAbsorbs(a: nat, b: nat)
    ensures Or(a, b) == a <==> BitsIn(b, a)
    decreases a + b
  {
    if a != 0 && b != 0 {
      OrAbsorbs(a / 2, b / 2);
    } else if a == 0 && b != 0 {
      ZeroHasNoBits(b);
    }
  }

  lemma {:induction false} ZeroHasNoBits(b: nat)
    requires b != 0
    ensures !BitsIn(b, 0)
    decreases b
  {
    if b % 2 == 0 {
      ZeroHasNoBits(b / 2);
    }
  }

  lemma {:induction false} OrHalves(a: nat, b: nat)
    ensures Or(a, b) / 2 == Or(a / 2, b / 2)
    ensures Or(a, b) % 2 == (if a % 2 == 1 || b % 2 == 1 then 1 else 0)
  {
  }

  lemma {:induction false} OrCommutes(a: nat, b: nat)
    ensures Or(a, b) == Or(b, a)
    decreases a + b
  {
    if a != 0 && b != 0 {
      OrCommutes(a / 2, b / 2);
    }
  }

  function Pow2(n: nat): (p: nat)
    ensures p >= 1
  {
    if n == 0 then 1 else 2 * Pow2(n - 1)
  }

  /** `v >> n`. */
  function Shr(v: nat, n: nat): nat {
    if n == 0 then v else Shr(v / 2, n - 1)
  }

  /** Shifting distributes over `Or`, and `Or` stays in the width of its operands. */
  lemma {:induction false} OrShr(a: nat, b: nat, n: nat)
    ensures Shr(Or(a, b), n) == Or(Shr(a, n), Shr(b, n))
    ensures a < Pow2(n) && b < Pow2(n) ==> Or(a, b) < Pow2(n)
    decreases n
  {
    OrHalves(a, b);
    if n != 0 {
      OrShr(a / 2, b / 2, n - 1);
    }
  }

  lemma {:induction false} ShrIsDivision(v: nat, n: nat)
    ensures Shr(v, n) == v / Pow2(n)
    decreases n
  {
    if n != 0 {
      ShrIsDivision(v / 2, n - 1);
      DivDiv(v, 2, Pow2(n - 1));
    }
  }

  lemma ShrPage(v: nat)
    ensures Shr(v, 12) == v / PAGE_SIZE
  {
    ShrIsDivision(v, 12);
    Pow2Byte(4);
    Pow2Nibble();
  }

  lemma Pow2Nibble()
    ensures Pow2(4) == 16
  {
    assert Pow2(2) == 4;
    assert Pow2(4) == 2 * Pow2(3) == 4 * Pow2(2);
  }

  lemma Pow2Byte(n: nat)
    ensures Pow2(n + 8) == 256 * Pow2(n)
  {
    assert Pow2(n + 2) == 2 * Pow2(n + 1) == 4 * Pow2(n);
    assert Pow2(n + 4) == 2 * Pow2(n + 3) == 4 * Pow2(n + 2);
    assert Pow2(n + 6) == 2 * Pow2(n + 5) == 4 * Pow2(n + 4);
    assert Pow2(n + 8) == 2 * Pow2(n + 7) == 4 * Pow2(n + 6);
  }

  lemma HalfWidth()
    ensures Pow2(32) == U32
  {
    hide Pow2;
    assert Pow2(0) == 1 by { Pow2Zero(); }
    Pow2Byte(0);
    Pow2Byte(8);
    Pow2Byte(16);
    Pow2Byte(24);
  }

  lemma Pow2Zero()
    ensures Pow2(0) == 1
  {
  }

  lemma WordWidth()
    ensures Pow2(64) == U64
  {
    hide Pow2;
    HalfWidth();
    Pow2Byte(32);
    Pow2Byte(40);
    Pow2Byte(48);
    Pow2Byte(56);
  }

  /** The page-number field of an `Or`, for 64-bit operands. */
  lemma OrWord(a: Word, b: Word)
    ensures Or(a, b) < U64
    ensures Or(a, b) / PAGE_SIZE == Or(a / PAGE_SIZE, b / PAGE_SIZE)
  {
    assert Or(a, b) < U64 by {
      WordWidth();
      OrShr(a, b, 64);
    }
    assert Shr(Or(a, b), 12) == Or(Shr(a, 12), Shr(b, 12)) by { OrShr(a, b, 12); }
    ShrPage(a);
    ShrPage(b);
    ShrPage(Or(a, b));
  }

  lemma {:induction false} BitsInBelow(b: nat, a: nat)
    requires BitsIn(b, a)
    ensures b <= a
    decreases b
  {
    if b != 0 {
      BitsInBelow(b / 2, a / 2);
    }
  }

  lemma {:induction false} MulMono(a: nat, b: nat, c: nat)
    requires a <= b
    ensures 0 <= a * c <= b * c
    decreases c
  {
    if c == 0 {
      assert a * c == 0 && b * c == 0;
    } else {
      MulMono(a, b, c - 1);
      assert a * c == a * (c - 1) + a && b * c == b * (c - 1) + b;
    }
  }

  /** Quotient and remainder from a witness. */
  lemma ModUnique(a: nat, m: nat, q: nat, r: nat)
    requires m > 0 && a == q * m + r && r < m
    ensures a % m == r && a / m == q
  {
    var q', r' := a / m, a % m;
    assert a == q' * m + r';
    if q < q' {
      MulStep(q, q', m);
    } else if q' < q {
      MulStep(q', q, m);
    }
  }

  lemma MulStep(x: nat, y: nat, m: nat)
    requires x < y
    ensures 0 <= x * m && x * m + m <= y * m
  {
    MulMono(0, x, m);
    MulMono(x + 1, y, m);
    assert (x + 1) * m == x * m + m;
  }

  lemma DivDiv(v: nat, a: nat, b: nat)
    requires a > 0 && b > 0
    ensures a * b > 0 && v / a / b == v / (a * b)
  {
    var q, r := v / a, v % a;
    var q', r' := q / b, q % b;
    TwoDivisions(v, a, b, q, r, q', r');
    ModUnique(v, a * b, q', r' * a + r);
  }

  lemma TwoDivisions(v: nat, a: nat, b: nat, q: nat, r: nat, q': nat, r': nat)
    requires v == q * a + r && q == q' * b + r' && r < a && r' < b
    ensures 0 <= r' * a && r' * a + r < a * b && v == q' * (a * b) + (r' * a + r)
  {
    MulStep(r', b, a);
    assert b * a == a * b;
    assert q * a == q' * b * a + r' * a;
    assert q' * b * a == q' * (a * b);
  }

  lemma ModHalf(a: nat, m: nat)
    requires m > 0
    ensures a % (2 * m) == 2 * (a / 2 % m) + a % 2
  {
    var q, r := a / 2 / m, a / 2 % m;
    assert a / 2 == q * m + r;
    assert q * (2 * m) == 2 * (q * m);
    ModUnique(a, 2 * m, q, 2 * r + a % 2);
  }

  /** An operand whose low `n` bits are zero leaves the low `n` bits alone. */
  lemma {:induction false} OrLowBits(a: nat, b: nat, n: nat)
    requires b % Pow2(n) == 0
    ensures Or(a, b) % Pow2(n) == a % Pow2(n)
    decreases n
  {
    if n != 0 {
      var m := Pow2(n - 1);
      ModHalf(a, m);
      ModHalf(b, m);
      ModHalf(Or(a, b), m);
      OrHalves(a, b);
      OrLowBits(a / 2, b / 2, n - 1);
    }
  }
}
