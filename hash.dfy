/**
 * The Fibonacci ("golden ratio") hashing demonstration of ThreadLocalDemo: the i-th slot index
 * is (i * HASH_INCREMENT + HASH_INCREMENT) & (size - 1) in Java int arithmetic.
 */
module FibonacciHash {

  const HASH_INCREMENT: int := 0x61c88647
  /** The inverse of HASH_INCREMENT modulo 2^32; it exists because HASH_INCREMENT is odd. */
  const HASH_INVERSE: int := 0xebb34377

  const TWO31: int := 0x8000_0000
  const TWO32: int := 0x1_0000_0000

  /** HASH_INCREMENT * HASH_INVERSE == 1 + TWO32 * INVERSE_CARRY. */
  const INVERSE_CARRY: int := 1510444094

  /** The increment is odd, and HASH_INVERSE is its inverse modulo 2^32. */
  lemma IncrementIsInvertible()
    ensures HASH_INCREMENT % 2 == 1
    ensures HASH_INCREMENT * HASH_INVERSE == 1 + TWO32 * INVERSE_CARRY
    ensures (HASH_INCREMENT * HASH_INVERSE) % TWO32 == 1
  {
  }

  /** The values of the Java type int. */
  predicate IsInt32(x: int)
  {
    -TWO31 <= x < TWO31
  }

  /** Java's wrap-around: the int with the same low 32 bits as x. */
  function Int32(x: int): (r: int)
    ensures IsInt32(r)
    ensures r == x - TWO32 * ((x + TWO31) / TWO32)
    ensures r % TWO32 == x % TWO32
    ensures IsInt32(x) ==> r == x
  {
    (x + TWO31) % TWO32 - TWO31
  }

  function Pow2(k: nat): (p: nat)
    ensures p > 0
  {
    if k == 0 then 1 else 2 * Pow2(k - 1)
  }

  /** A power of two, tested by halving. */
  predicate IsPowerOfTwo(n: int)
    decreases if n > 0 then n else 0
  {
    n == 1 || (n > 1 && n % 2 == 0 && IsPowerOfTwo(n / 2))
  }

  function Log2(n: int): (k: nat)
    requires IsPowerOfTwo(n)
    ensures Pow2(k) == n
    decreases if n > 0 then n else 0
  {
    if n == 1 then 0 else 1 + Log2(n / 2)
  }

  /** Bitwise and of two non-negative numbers, one bit at a time from the lowest. */
  function BitAnd(a: nat, b: nat): (r: nat)
    ensures r <= a && r <= b
  {
    if a == 0 || b == 0 then 0
    else 2 * BitAnd(a / 2, b / 2) + (if a % 2 == 1 && b % 2 == 1 then 1 else 0)
  }

  /** Java's & on two ints: the and of their two's-complement bit patterns, read back as an int. */
  function JavaAnd(x: int, y: int): (r: int)
    requires IsInt32(x) && IsInt32(y)
    ensures IsInt32(r)
    ensures 0 <= y ==> 0 <= r <= y
  {
    var u := BitAnd(x % TWO32, y % TWO32);
    if u >= TWO31 then u - TWO32 else u
  }

  /** The hash code of the i-th loop iteration: i * HASH_INCREMENT + HASH_INCREMENT, each operation wrapping. */
  function HashCode(i: int): (h: int)
    requires IsInt32(i)
    ensures IsInt32(h)
    ensures h % TWO32 == ((i + 1) * HASH_INCREMENT) % TWO32
  {
    var a := Int32(i * HASH_INCREMENT);
    var h := Int32(a + HASH_INCREMENT);
    var q := (i * HASH_INCREMENT + TWO31) / TWO32 + (a + HASH_INCREMENT + TWO31) / TWO32;
    assert h + TWO32 * q == (i + 1) * HASH_INCREMENT;
    ModAddMultiple(h, TWO32, q);
    h
  }

  /** The slot index printed for iteration i of a table of the given size. */
  function SlotIndex(i: int, size: int): (idx: int)
    requires 0 <= i < size && IsInt32(size)
    ensures 0 <= idx < size
  {
    JavaAnd(HashCode(i), size - 1)
  }

  /** The loop of maginHash: the index of every iteration i = 0 .. size-1, in order. */
  method MaginHash(size: int) returns (indices: seq<int>)
    requires IsInt32(size)
    ensures |indices| == if size > 0 then size else 0
    ensures forall i :: 0 <= i < |indices| ==> indices[i] == SlotIndex(i, size)
    ensures forall i :: 0 <= i < |indices| ==> 0 <= indices[i] < size
    ensures IsPowerOfTwo(size) ==> forall i, j :: 0 <= i < j < |indices| ==> indices[i] != indices[j]
    ensures IsPowerOfTwo(size) ==> forall x :: 0 <= x < size ==> x in indices
  {
    indices := [];
    var i := 0;
    while i < size
      invariant 0 <= i <= (if size > 0 then size else 0)
      invariant |indices| == i
      invariant forall j :: 0 <= j < i ==> indices[j] == SlotIndex(j, size)
    {
      var hashcode := Int32(Int32(i * HASH_INCREMENT) + HASH_INCREMENT);
      indices := indices + [JavaAnd(hashcode, size - 1)];
      i := i + 1;
    }
    if IsPowerOfTwo(size) {
      forall i, j | 0 <= i < j < |indices| ensures indices[i] != indices[j] {
        SlotIndexInjective(i, j, size);
      }
      forall x | 0 <= x < size ensures x in indices {
        var i := SlotIndexCovers(x, size);
        assert indices[i] == x;
      }
    }
  }

  // ---------------------------------------------------------------------------------------
  // Modular arithmetic

  lemma ModUnique(a: int, m: int, q: int, r: int)
    requires m > 0 && 0 <= r < m && a == m * q + r
    ensures a % m == r && a / m == q
  {
    var q0, r0 := a / m, a % m;
    assert m * (q - q0) == r0 - r;
    if q - q0 >= 1 {
      MulAtLeast(m, q - q0);
    } else if q0 - q >= 1 {
      assert m * (q0 - q) == r - r0;
      MulAtLeast(m, q0 - q);
    }
  }

  lemma MulAtLeast(m: int, t: int)
    requires m > 0 && t >= 1
    ensures m * t >= m
  {
    assert m * t == m + m * (t - 1);
  }

  lemma ModAddMultiple(a: int, m: int, q: int)
    requires m > 0
    ensures (a + m * q) % m == a % m
  {
    assert a == m * (a / m) + a % m;
    assert a + m * q == m * (a / m + q) + a % m;
    ModUnique(a + m * q, m, a / m + q, a % m);
  }

  lemma ModMulLeft(a: int, b: int, m: int)
    requires m > 0
    ensures ((a % m) * b) % m == (a * b) % m
  {
    assert a == m * (a / m) + a % m;
    assert a * b == (a % m) * b + m * ((a / m) * b) by {
      assert a * b == (m * (a / m) + a % m) * b;
    }
    ModAddMultiple((a % m) * b, m, (a / m) * b);
  }

  /** Reducing modulo a multiple of m first does not change the remainder modulo m. */
  lemma ModOfMod(a: int, m: int, t: int)
    requires m > 0 && t > 0
    ensures (a % (m * t)) % m == a % m
  {
    var n := m * t;
    assert a == n * (a / n) + a % n;
    assert a == a % n + m * (t * (a / n));
    ModAddMultiple(a % n, m, t * (a / n));
  }

  lemma {:induction false} Pow2Split(k: nat, j: nat)
    requires k <= j
    ensures Pow2(j) == Pow2(k) * Pow2(j - k)
    decreases j
  {
    if k < j {
      Pow2Split(k, j - 1);
    }
  }

  lemma Pow2Of32()
    ensures Pow2(32) == TWO32
  {
    Pow2Split(2, 4);
    Pow2Split(4, 8);
    Pow2Split(8, 16);
    Pow2Split(16, 32);
  }

  /** Halving a remainder by a power of two: the step behind BitAndLowMask. */
  lemma ModPow2Half(x: nat, k: nat)
    requires k > 0
    ensures x % Pow2(k) == 2 * ((x / 2) % Pow2(k - 1)) + x % 2
  {
    var p := Pow2(k - 1);
    var q, r := (x / 2) / p, (x / 2) % p;
    assert x / 2 == p * q + r;
    assert x == (2 * p) * q + (2 * r + x % 2);
    ModUnique(x, 2 * p, q, 2 * r + x % 2);
  }

  /** And with 2^k - 1 keeps the low k bits, that is the remainder modulo 2^k. */
  lemma {:induction false} BitAndLowMask(x: nat, k: nat)
    ensures BitAnd(x, Pow2(k) - 1) == x % Pow2(k)
    decreases k
  {
    if k == 0 {
      assert Pow2(k) == 1;
    } else if x == 0 {
      assert BitAnd(x, Pow2(k) - 1) == 0;
      ModUnique(x, Pow2(k), 0, 0);
    } else {
      var p := Pow2(k - 1);
      var m := Pow2(k) - 1;
      assert m == 2 * p - 1;
      assert m / 2 == p - 1 && m % 2 == 1;
      var lo := BitAnd(x / 2, p - 1);
      assert BitAnd(x, m) == 2 * lo + x % 2;
      BitAndLowMask(x / 2, k - 1);
      assert lo == (x / 2) % p;
      ModPow2Half(x, k);
      assert x % Pow2(k) == 2 * lo + x % 2;
    }
  }

  /** A power of two that is a Java int divides 2^32. */
  lemma {:induction false} Pow2DividesTWO32(k: nat) returns (t: nat)
    requires Pow2(k) < TWO31
    ensures k < 31 && t > 0 && Pow2(k) * t == TWO32
  {
    Pow2Of32();
    assert Pow2(32) == 2 * Pow2(31);
    if k >= 31 {
      Pow2Split(31, k);
      assert false;
    }
    Pow2Split(k, 32);
    t := Pow2(32 - k);
  }

  lemma ModSmall(a: int, m: int)
    requires 0 <= a < m
    ensures a % m == a
  {
    ModUnique(a, m, 0, a);
  }

  /** Java's & with 2^k - 1, for a non-negative mask, is the remainder modulo 2^k. */
  lemma JavaAndLowMask(x: int, k: nat)
    requires IsInt32(x) && Pow2(k) < TWO31
    ensures JavaAnd(x, Pow2(k) - 1) == x % Pow2(k)
  {
    var m := Pow2(k);
    var t := Pow2DividesTWO32(k);
    ModSmall(m - 1, TWO32);
    var u := BitAnd(x % TWO32, m - 1);
    assert JavaAnd(x, m - 1) == u;
    BitAndLowMask(x % TWO32, k);
    ModOfMod(x, m, t);
  }

  /** For a power-of-two size the slot index is the hash code modulo size. */
  lemma SlotIndexIsMod(i: int, size: int)
    requires 0 <= i < size && IsInt32(size) && IsPowerOfTwo(size)
    ensures SlotIndex(i, size) == HashCode(i) % size
    ensures SlotIndex(i, size) == ((i + 1) * HASH_INCREMENT) % size
  {
    var k := Log2(size);
    var h := HashCode(i);
    JavaAndLowMask(h, k);
    assert SlotIndex(i, size) == h % size;
    var t := Pow2DividesTWO32(k);
    ModOfMod(h, size, t);
    ModOfMod((i + 1) * HASH_INCREMENT, size, t);
  }

  /** Multiplying by b undoes multiplying by a modulo m, when a * b is one more than a multiple of m. */
  lemma InverseCancels(x: int, a: int, b: int, m: int, k: int)
    requires m > 0 && a * b == 1 + m * k
    ensures (((x * a) % m) * b) % m == x % m
  {
    ModMulLeft(x * a, b, m);
    assert x * a * b == x + m * (k * x);
    ModAddMultiple(x, m, k * x);
  }

  /** HASH_INCREMENT and HASH_INVERSE are inverse modulo every divisor of 2^32. */
  lemma IncrementInverse(m: int, t: int)
    requires m * t == TWO32
    ensures HASH_INCREMENT * HASH_INVERSE == 1 + m * (t * INVERSE_CARRY)
    ensures HASH_INVERSE * HASH_INCREMENT == 1 + m * (t * INVERSE_CARRY)
  {
    IncrementIsInvertible();
    assert TWO32 * INVERSE_CARRY == m * (t * INVERSE_CARRY);
  }

  /** The iteration number plus one, modulo size: i + 1 itself, except that the last wraps to 0. */
  lemma SuccMod(i: int, m: int)
    requires 0 <= i < m
    ensures (i + 1) % m == if i + 1 == m then 0 else i + 1
  {
    if i + 1 == m {
      ModUnique(i + 1, m, 1, 0);
    } else {
      ModSmall(i + 1, m);
    }
  }

  /** Balanced hashing, part one: for a power-of-two size, different iterations get different slots. */
  lemma SlotIndexInjective(i: int, j: int, size: int)
    requires 0 <= i < size && 0 <= j < size && IsInt32(size) && IsPowerOfTwo(size)
    ensures SlotIndex(i, size) == SlotIndex(j, size) <==> i == j
  {
    if SlotIndex(i, size) == SlotIndex(j, size) {
      var t := Pow2DividesTWO32(Log2(size));
      SlotIndexIsMod(i, size);
      SlotIndexIsMod(j, size);
      assert ((i + 1) * HASH_INCREMENT) % size == ((j + 1) * HASH_INCREMENT) % size;
      IncrementInverse(size, t);
      InverseCancels(i + 1, HASH_INCREMENT, HASH_INVERSE, size, t * INVERSE_CARRY);
      InverseCancels(j + 1, HASH_INCREMENT, HASH_INVERSE, size, t * INVERSE_CARRY);
      assert (i + 1) % size == (j + 1) % size;
      SuccMod(i, size);
      SuccMod(j, size);
    }
  }

  /** Balanced hashing, part two: for a power-of-two size, every slot is the index of some iteration. */
  lemma SlotIndexCovers(x: int, size: int) returns (i: int)
    requires 0 <= x < size && IsInt32(size) && IsPowerOfTwo(size)
    ensures 0 <= i < size && SlotIndex(i, size) == x
  {
    var t := Pow2DividesTWO32(Log2(size));
    var y := (x * HASH_INVERSE) % size;
    i := if y == 0 then size - 1 else y - 1;
    SuccMod(i, size);
    assert (i + 1) % size == y;
    SlotIndexIsMod(i, size);
    ModMulLeft(i + 1, HASH_INCREMENT, size);
    assert ((i + 1) * HASH_INCREMENT) % size == (y * HASH_INCREMENT) % size;
    IncrementInverse(size, t);
    InverseCancels(x, HASH_INVERSE, HASH_INCREMENT, size, t * INVERSE_CARRY);
    ModSmall(x, size);
  }
}
