/**
 * JavaScript's 32-bit integer operators on (integral) numbers.
 * Every bitwise operator first converts its operands with ToInt32/ToUint32
 * (section 7.1.6 of ECMA-262); `&` and `|` then work on the 32-bit patterns.
 */
module JsNumber {

  const TWO31: int := 0x8000_0000
  const TWO32: int := 0x1_0000_0000

  function Pow2(n: nat): (p: nat)
    ensures p > 0
  {
    if n == 0 then 1 else 2 * Pow2(n - 1)
  }

  /** The 32-bit pattern of x, read as unsigned. */
  function ToUint32(x: int): (u: int)
    ensures 0 <= u < TWO32
    ensures 0 <= x < TWO32 ==> u == x
  {
    x % TWO32
  }

  /** The 32-bit pattern of x, read as two's complement. */
  function ToInt32(x: int): (i: int)
    ensures -TWO31 <= i < TWO31
    ensures -TWO31 <= x < TWO31 ==> i == x
  {
    var u := ToUint32(x);
    if u >= TWO31 then u - TWO32 else u
  }

  /** Bitwise and of two non-negative integers. */
  function BitAnd(a: nat, b: nat): nat
    decreases a
  {
    if a == 0 || b == 0 then 0
    else 2 * BitAnd(a / 2, b / 2) + (if a % 2 == 1 && b % 2 == 1 then 1 else 0)
  }

  /** Bitwise or of two non-negative integers. */
  function BitOr(a: nat, b: nat): nat
    decreases a + b
  {
    if a == 0 then b
    else if b == 0 then a
    else 2 * BitOr(a / 2, b / 2) + (if a % 2 == 1 || b % 2 == 1 then 1 else 0)
  }

  /** `x & y` */
  function And(x: int, y: int): int
  {
    ToInt32(BitAnd(ToUint32(x), ToUint32(y)))
  }

  /** `x | y` */
  function Or(x: int, y: int): int
  {
    ToInt32(BitOr(ToUint32(x), ToUint32(y)))
  }

  /** `x << n` */
  function Shl(x: int, n: nat): int
    requires n < 32
  {
    ToInt32(ToUint32(x) * Pow2(n))
  }

  /** `x >> n`, the sign-propagating shift: a floor division of the 32-bit value. */
  function Shr(x: int, n: nat): int
    requires n < 32
  {
    ToInt32(x) / Pow2(n)
  }

  lemma Pow2Values()
    ensures Pow2(8) == 0x100 && Pow2(16) == 0x1_0000 && Pow2(24) == 0x100_0000
  {
  }

  lemma Pow2Add(m: nat, n: nat)
    ensures Pow2(m + n) == Pow2(m) * Pow2(n)
  {
    if n > 0 {
      Pow2Add(m, n - 1);
    }
  }

  /** Multiplying by a non-negative factor keeps the order. */
  lemma MulMono(p: int, q: int, r: nat)
    ensures q >= p ==> q * r >= p * r
  {
    assert q * r - p * r == (q - p) * r;
  }

  lemma MulAtLeast(d: int, n: int)
    requires d >= 1 && n > 0
    ensures d * n >= n
  {
    assert d * n == (d - 1) * n + n;
  }

  lemma {:induction false} Pow2Mono(k: nat, n: nat)
    requires k <= n
    ensures Pow2(k) <= Pow2(n)
  {
    if k < n {
      Pow2Mono(k, n - 1);
    }
  }

  lemma DivModUnique(a: int, n: int, q: int, r: int)
    requires n > 0 && 0 <= r < n && a == q * n + r
    ensures a / n == q && a % n == r
  {
    var q', r' := a / n, a % n;
    assert q' * n + r' == q * n + r;
    assert (q' - q) * n == r - r';
    if q' > q {
      MulAtLeast(q' - q, n);
    } else if q' < q {
      assert (q - q') * n == r' - r;
      MulAtLeast(q - q', n);
    }
  }

  /** Halving commutes with splitting at a power of two. */
  lemma DivModHalf(a: nat, p: nat)
    requires p > 0
    ensures a / 2 / p == a / (2 * p)
    ensures (a % (2 * p)) / 2 == (a / 2) % p
    ensures (a % (2 * p)) % 2 == a % 2
  {
    var q, r := a / (2 * p), a % (2 * p);
    assert a == (2 * p) * q + r;
    DivModUnique(a, 2, p * q + r / 2, r % 2);
    DivModUnique(a / 2, p, q, r / 2);
    DivModUnique(r, 2, r / 2, r % 2);
  }

  lemma BitAndStep(a: nat, b: nat)
    ensures BitAnd(a, b) == 2 * BitAnd(a / 2, b / 2) + (if a % 2 == 1 && b % 2 == 1 then 1 else 0)
  {
  }

  lemma BitOrStep(a: nat, b: nat)
    ensures BitOr(a, b) == 2 * BitOr(a / 2, b / 2) + (if a % 2 == 1 || b % 2 == 1 then 1 else 0)
  {
    if a == 0 && b != 0 {
      BitOrZero(b / 2);
    } else if b == 0 && a != 0 {
      BitOrZero(a / 2);
    }
  }

  lemma BitOrZero(a: nat)
    ensures BitOr(a, 0) == a && BitOr(0, a) == a
  {
  }

  lemma BitAndZero(a: nat)
    ensures BitAnd(a, 0) == 0 && BitAnd(0, a) == 0
  {
  }

  /** The bits of a from position k upwards. */
  function Hi(a: nat, k: nat): nat
  {
    DivModNat(a, Pow2(k));
    a / Pow2(k)
  }

  /** The bits of a below position k. */
  function Lo(a: nat, k: nat): nat
  {
    DivModNat(a, Pow2(k));
    a % Pow2(k)
  }

  lemma DivModNat(a: nat, n: int)
    requires n > 0
    ensures a / n >= 0 && 0 <= a % n < n
  {
  }

  lemma MulTwice(x: int, p: int)
    ensures 2 * (x * p) == x * (2 * p)
  {
  }

  /** Halving moves the split point down by one bit. */
  lemma HiLoHalf(a: nat, k: nat)
    requires k > 0
    ensures Hi(a / 2, k - 1) == Hi(a, k)
    ensures Lo(a / 2, k - 1) == Lo(a, k) / 2
    ensures Lo(a, k) % 2 == a % 2
  {
    assert Pow2(k) == 2 * Pow2(k - 1);
    DivModHalf(a, Pow2(k - 1));
  }

  /** `&` works bit by bit: the bits above position k and those below it are combined separately. */
  lemma {:induction false} BitAndSplit(a: nat, b: nat, k: nat)
    ensures BitAnd(a, b) == BitAnd(Hi(a, k), Hi(b, k)) * Pow2(k) + BitAnd(Lo(a, k), Lo(b, k))
    decreases k
  {
    if k == 0 {
      assert Hi(a, 0) == a && Hi(b, 0) == b && Lo(a, 0) == 0;
      BitAndZero(a);
    } else {
      var x := BitAnd(Hi(a, k), Hi(b, k));
      var y := BitAnd(Lo(a / 2, k - 1), Lo(b / 2, k - 1));
      var bit := if a % 2 == 1 && b % 2 == 1 then 1 else 0;
      HiLoHalf(a, k);
      HiLoHalf(b, k);
      assert BitAnd(a / 2, b / 2) == x * Pow2(k - 1) + y by {
        BitAndSplit(a / 2, b / 2, k - 1);
      }
      assert BitAnd(a, b) == 2 * (x * Pow2(k - 1)) + 2 * y + bit by {
        BitAndStep(a, b);
      }
      assert BitAnd(Lo(a, k), Lo(b, k)) == 2 * y + bit by {
        BitAndStep(Lo(a, k), Lo(b, k));
      }
      assert x * Pow2(k) == 2 * (x * Pow2(k - 1)) by {
        MulTwice(x, Pow2(k - 1));
      }
    }
  }

  /** `|` works bit by bit: the bits above position k and those below it are combined separately. */
  lemma {:induction false} BitOrSplit(a: nat, b: nat, k: nat)
    ensures BitOr(a, b) == BitOr(Hi(a, k), Hi(b, k)) * Pow2(k) + BitOr(Lo(a, k), Lo(b, k))
    decreases k
  {
    if k == 0 {
      assert Hi(a, 0) == a && Hi(b, 0) == b && Lo(a, 0) == 0 && Lo(b, 0) == 0;
      BitOrZero(BitOr(a, b));
    } else {
      var x := BitOr(Hi(a, k), Hi(b, k));
      var y := BitOr(Lo(a / 2, k - 1), Lo(b / 2, k - 1));
      var bit := if a % 2 == 1 || b % 2 == 1 then 1 else 0;
      HiLoHalf(a, k);
      HiLoHalf(b, k);
      assert BitOr(a / 2, b / 2) == x * Pow2(k - 1) + y by {
        BitOrSplit(a / 2, b / 2, k - 1);
      }
      assert BitOr(a, b) == 2 * (x * Pow2(k - 1)) + 2 * y + bit by {
        BitOrStep(a, b);
      }
      assert BitOr(Lo(a, k), Lo(b, k)) == 2 * y + bit by {
        BitOrStep(Lo(a, k), Lo(b, k));
      }
      assert x * Pow2(k) == 2 * (x * Pow2(k - 1)) by {
        MulTwice(x, Pow2(k - 1));
      }
    }
  }

  lemma {:induction false} BitAndAllOnes(x: nat, k: nat)
    requires x < Pow2(k)
    ensures BitAnd(x, Pow2(k) - 1) == x
  {
    if k > 0 && x > 0 {
      BitAndAllOnes(x / 2, k - 1);
      BitAndStep(x, Pow2(k) - 1);
    }
  }

  /** Masking with 2^k - 1 keeps the low k bits. */
  lemma BitAndLowMask(a: nat, k: nat)
    ensures BitAnd(a, Pow2(k) - 1) == Lo(a, k)
  {
    var m: nat := Pow2(k) - 1;
    BitAndSplit(a, m, k);
    DivModUnique(m, Pow2(k), 0, m);
    BitAndZero(Hi(a, k));
    DivModNat(a, Pow2(k));
    BitAndAllOnes(Lo(a, k), k);
  }

  /** Or-ing bits that do not overlap is addition. */
  lemma BitOrDisjoint(hi: nat, lo: nat, k: nat)
    requires lo < Pow2(k)
    ensures BitOr(hi * Pow2(k), lo) == hi * Pow2(k) + lo
  {
    BitOrSplit(hi * Pow2(k), lo, k);
    DivModUnique(hi * Pow2(k), Pow2(k), hi, 0);
    DivModUnique(lo, Pow2(k), 0, lo);
    BitOrZero(hi);
    BitOrZero(lo);
  }

  /** A shift that stays below the sign bit is a multiplication: `x << k == x * 2^k`. */
  lemma ShlSmall(x: nat, k: nat, shifted: int)
    requires k < 32 && shifted == x * Pow2(k) < TWO31
    ensures Shl(x, k) == shifted
  {
    if x > 0 {
      MulAtLeast(Pow2(k), x);
    }
  }

  /**
   * `|` of `hi << k` and bits below 2^k is addition, below the sign bit;
   * `shifted` stands for `hi * 2^k`.
   */
  lemma OrDisjoint(hi: nat, lo: nat, k: nat, shifted: int)
    requires lo < Pow2(k) && shifted == hi * Pow2(k) && shifted + lo < TWO31
    ensures Or(shifted, lo) == shifted + lo
  {
    BitOrDisjoint(hi, lo, k);
  }

  lemma DivModIdentity(a: int, n: int)
    requires n > 0
    ensures a == (a / n) * n + a % n
  {
  }

  lemma Pow2Split32(k: nat)
    requires k <= 32
    ensures Pow2(k) * Pow2(32 - k) == TWO32
  {
    Pow2Add(k, 32 - k);
    Pow2Values32();
  }

  lemma MulAssoc(a: int, b: int, c: int)
    ensures a * (b * c) == (a * b) * c
  {
  }

  lemma MulDistrib(a: int, b: int, c: int)
    ensures (a + b) * c == a * c + b * c
  {
  }

  lemma ModModFactor(x: int, p: int, m: int)
    requires p > 0 && m > 0
    ensures (x % (p * m)) % p == x % p
  {
    var bigM := p * m;
    var u := x % bigM;
    var q := x / bigM;
    DivModIdentity(x, bigM);
    assert q * bigM == (q * m) * p by { MulAssoc(q, m, p); }
    DivModIdentity(u, p);
    MulDistrib(q * m, u / p, p);
    DivModUnique(x, p, q * m + u / p, u % p);
  }

  /** Modulo 2^32 keeps the residue modulo any smaller power of two. */
  lemma ModPow2Uint32(x: int, k: nat)
    requires k <= 32
    ensures ToUint32(x) % Pow2(k) == x % Pow2(k)
  {
    Pow2Split32(k);
    ModModFactor(x, Pow2(k), Pow2(32 - k));
  }

  lemma Pow2Values32()
    ensures Pow2(32) == TWO32
  {
    Pow2Values();
    Pow2Add(16, 16);
  }

  /** `x & (2^k - 1)` is x modulo 2^k (for k below the sign bit). */
  lemma AndLowMask(x: int, k: nat)
    requires k <= 31
    ensures And(x, Pow2(k) - 1) == x % Pow2(k)
    ensures 0 <= And(x, Pow2(k) - 1) < Pow2(k)
  {
    var p := Pow2(k);
    assert p <= TWO31 by {
      Pow2Mono(k, 31);
      Pow2Values32();
      assert Pow2(32) == 2 * Pow2(31);
    }
    var u := ToUint32(x);
    assert BitAnd(u, p - 1) == u % p by {
      BitAndLowMask(u, k);
    }
    assert u % p == x % p by {
      ModPow2Uint32(x, k);
    }
    assert ToUint32(p - 1) == p - 1;
    assert And(x, p - 1) == ToInt32(x % p);
  }
}
