/** Division facts for the ring of the flash memory, the bytes of a pointer and the period of a register; primes. */
module Arithmetic {
  lemma Small(n: nat, size: nat)
    requires n < size
    ensures n % size == n
  {
  }

  lemma MultipleGrows(a: int, size: int)
    requires a >= 1 && size > 0
    ensures a * size >= size
  {
  }

  lemma SameMultiple(a: int, b: int, size: int, r: int, s: int)
    requires size > 0 && 0 <= r < size && 0 <= s < size
    requires a * size + r == b * size + s
    ensures a == b && r == s
  {
    assert (a - b) * size == s - r;
    assert (b - a) * size == r - s;
    if a > b {
      MultipleGrows(a - b, size);
    } else if a < b {
      MultipleGrows(b - a, size);
    }
  }

  lemma ModuloPeriod(n: nat, size: nat)
    requires size > 0
    ensures (n + size) % size == n % size
  {
    var q, r, q2, r2 := n / size, n % size, (n + size) / size, (n + size) % size;
    assert n == q * size + r;
    assert n + size == q2 * size + r2;
    assert (q + 1) * size + r == q2 * size + r2;
    SameMultiple(q + 1, q2, size, r, r2);
  }

  lemma Remainder(n: nat, size: nat)
    requires size > 0
    ensures n % size + n / size * size == n && 0 <= n % size < size
  {
  }

  lemma OneRound(rounds: int, size: int)
    ensures (rounds - 1) * size + size == rounds * size
  {
  }

  /** Counting on from a remainder. */
  lemma CountedOn(first: nat, sent: nat, before: nat, size: nat)
    requires size > 0
    ensures ((first + sent) % size + before) % size == (first + (sent + before)) % size
  {
    Remainder(first + sent, size);
    SameSlot((first + sent) % size + before, (first + sent) / size, size);
  }

  lemma {:induction false} SameSlot(n: nat, rounds: nat, size: nat)
    requires size > 0
    ensures (n + rounds * size) % size == n % size
  {
    if rounds > 0 {
      SameSlot(n, rounds - 1, size);
      ModuloPeriod(n + (rounds - 1) * size, size);
      OneRound(rounds, size);
    }
  }

  lemma DifferentSlots(k: nat, n: nat, size: nat)
    requires size > 0 && k < n < k + size
    ensures k % size != n % size
  {
    var q, r, q2, r2 := k / size, k % size, n / size, n % size;
    assert k == q * size + r && n == q2 * size + r2;
    assert (q2 - q) * size == (n - r2) - (k - r);
    if r == r2 {
      if q2 > q {
        MultipleGrows(q2 - q, size);
      } else {
        Ordered(q, q2, size);
      }
    }
  }

  lemma Ordered(a: int, b: int, size: int)
    requires a >= b && size > 0
    ensures a * size >= b * size
  {
    if a > b {
      MultipleGrows(a - b, size);
      assert (a - b) * size == a * size - b * size;
    }
  }

  lemma BytesOfHalf(half: nat)
    requires half < 0x1_0000
    ensures half == half / 0x100 * 0x100 + half % 0x100 && half / 0x100 < 0x100
  {
  }

  lemma LowerBytes(n: nat)
    ensures n % 0x1_0000 == n / 0x100 % 0x100 * 0x100 + n % 0x100
  {
    var q, r := n / 0x100, n % 0x100;
    var h, l := q / 0x100, q % 0x100;
    assert n == q * 0x100 + r && q == h * 0x100 + l;
    assert n == h * 0x1_0000 + (l * 0x100 + r);
  }

  lemma UpperBytes(n: nat)
    requires n < 0x1_0000_0000
    ensures n / 0x1_0000 == n / 0x100_0000 % 0x100 * 0x100 + n / 0x1_0000 % 0x100
  {
    var h := n / 0x1_0000;
    assert n / 0x100_0000 == h / 0x100;
    BytesOfHalf(h);
  }

  /** The halves of a 32-bit number are known by their bytes. */
  lemma HalvesByBytes(n: nat, half: nat)
    requires n < 0x1_0000_0000 && half < 0x1_0000
    ensures n % 0x1_0000 == half <==> n % 0x100 == half % 0x100 && n / 0x100 % 0x100 == half / 0x100
    ensures n / 0x1_0000 == half <==> n / 0x1_0000 % 0x100 == half % 0x100 && n / 0x100_0000 % 0x100 == half / 0x100
  {
    BytesOfHalf(half);
    LowerBytes(n);
    UpperBytes(n);
    SameBytes(n / 0x100 % 0x100, n % 0x100, half / 0x100, half % 0x100);
    SameBytes(n / 0x100_0000 % 0x100, n / 0x1_0000 % 0x100, half / 0x100, half % 0x100);
  }

  lemma SameBytes(a: nat, b: nat, c: nat, d: nat)
    requires b < 0x100 && d < 0x100
    ensures a * 0x100 + b == c * 0x100 + d <==> a == c && b == d
  {
  }

  // ---- primes ----

  ghost predicate Prime(p: nat) {
    p > 1 && forall d :: 1 < d < p ==> p % d != 0
  }

  /** None of the `4 * k` numbers d + 1, d + 3, d + 5 and so on divides n. */
  predicate NoFactor(n: nat, d: nat, k: nat)
    decreases k, n, d
  {
    k == 0 || (n % (d + 1) != 0 && n % (d + 3) != 0 && n % (d + 5) != 0 && n % (d + 7) != 0
               && NoFactor(n, d + 8, k - 1))
  }

  lemma {:induction false} NoFactorAt(n: nat, d: nat, k: nat, i: nat)
    requires NoFactor(n, d, k) && i < 4 * k
    ensures n % (d + 1 + 2 * i) != 0
    decreases k
  {
    if i >= 4 {
      NoFactorAt(n, d + 8, k - 1, i - 4);
    }
  }

  lemma {:induction false} NoFactorJoin(n: nat, d: nat, j: nat, k: nat)
    requires NoFactor(n, d, j) && NoFactor(n, d + 8 * j, k)
    ensures NoFactor(n, d, j + k)
    decreases j
  {
    if j > 0 {
      NoFactorJoin(n, d + 8, j - 1, k);
    }
  }

  lemma EvenProduct(h: nat, e: nat)
    ensures 2 * h * e % 2 == 0
  {
    assert 2 * h * e == h * e * 2;
    MultipleDivides(h * e, 2);
  }

  lemma OddFactors(d: nat, e: nat)
    requires d * e % 2 == 1
    ensures d % 2 == 1 && e % 2 == 1
  {
    var h, k := d / 2, e / 2;
    assert e * d == d * e;
    if d % 2 == 0 {
      assert d == 2 * h;
      EvenProduct(h, e);
    } else if e % 2 == 0 {
      assert e == 2 * k;
      EvenProduct(k, d);
    }
  }

  lemma BothLarge(d: nat, e: nat, least: nat)
    requires d >= least > 0 && e >= least
    ensures d * e >= least * least
  {
    Ordered(d, least, e);
    Ordered(e, least, least);
  }

  lemma FactorsAreLarge(p: nat, k: nat, d: nat)
    requires p % 2 == 1 && NoFactor(p, 2, k) && 1 < d < p && p % d == 0
    ensures p >= (8 * k + 3) * (8 * k + 3)
  {
    var e := p / d;
    assert p == d * e;
    OddFactors(d, e);
    ProductDivides(d, e);
    FactorIsLarge(p, k, d);
    FactorIsLarge(p, k, e);
    BothLarge(d, e, 8 * k + 3);
  }

  /** An odd number is prime if no odd number up to its square root divides it. */
  lemma TrialDivision(p: nat, k: nat)
    requires p > 1 && p % 2 == 1 && NoFactor(p, 2, k) && p < (8 * k + 3) * (8 * k + 3)
    ensures Prime(p)
  {
    forall d | 1 < d < p ensures p % d != 0 {
      if p % d == 0 {
        FactorsAreLarge(p, k, d);
        assert false;
      }
    }
  }

  lemma ProductDivides(d: nat, e: nat)
    requires d > 1 && d * e > d
    ensures e > 1 && d * e % e == 0
  {
    if e <= 1 {
      Ordered(1, e, d);
      assert false;
    }
    var q, r := d * e / e, d * e % e;
    assert q * e + r == d * e + 0;
    SameMultiple(q, d, e, r, 0);
  }

  lemma FactorIsLarge(p: nat, k: nat, d: nat)
    requires NoFactor(p, 2, k) && d > 1 && d % 2 == 1 && p % d == 0
    ensures d >= 8 * k + 3
  {
    var j := (d - 3) / 2;
    assert d == 2 * j + 3;
    if j < 4 * k {
      NoFactorAt(p, 2, k, j);
      assert false;
    }
  }

  lemma Trials1()
    ensures NoFactor(65537, 2, 8)
  {
  }

  lemma Trials2()
    ensures NoFactor(65537, 66, 8)
  {
  }

  lemma Trials3()
    ensures NoFactor(65537, 130, 8)
  {
  }

  lemma Trials4()
    ensures NoFactor(65537, 194, 8)
  {
  }

  lemma FermatPrime()
    ensures Prime(65537)
  {
    hide NoFactor, Prime;
    Trials1();
    Trials2();
    Trials3();
    Trials4();
    NoFactorJoin(65537, 130, 8, 8);
    NoFactorJoin(65537, 66, 8, 16);
    NoFactorJoin(65537, 2, 8, 24);
    TrialDivision(65537, 32);
  }

  /** What two coprime numbers divide, their product divides. */
  lemma CoprimeFactors(a: nat, b: nat, x: nat, y: nat, n: nat)
    requires a > 0 && b > 0 && x * a == y * b + 1 && n % a == 0 && n % b == 0
    ensures a * b > 0 && n % (a * b) == 0
  {
    var k, m := n / a, n / b;
    assert n == a * k && n == b * m;
    var c := x * m - y * k;
    assert k == b * c by {
      assert x * a * k == y * b * k + k;
      assert x * (a * k) == x * (b * m);
      assert x * a * k == b * (x * m) && y * b * k == b * (y * k);
      assert b * (x * m) - b * (y * k) == b * c;
    }
    assert n == c * (a * b);
    MultipleDivides(c, a * b);
  }

  lemma MultipleDivides(c: int, d: int)
    requires d > 0 && c * d >= 0
    ensures c * d % d == 0
  {
    var q, r := c * d / d, c * d % d;
    assert q * d + r == c * d + 0;
    SameMultiple(q, c, d, r, 0);
  }
}
