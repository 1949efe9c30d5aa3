/** 32-bit words and bit operations on them, on integers. */
module MachineWord {

  const WORD := 0x1_0000_0000

  /** Bitwise exclusive or. */
  function Xor(a: nat, b: nat): nat {
    if a == 0 && b == 0 then 0 else 2 * Xor(a / 2, b / 2) + (a + b) % 2
  }

  /** Bitwise and. */
  function And(a: nat, b: nat): (r: nat)
    ensures r <= a && r <= b
  {
    if a == 0 || b == 0 then 0 else 2 * And(a / 2, b / 2) + (a % 2) * (b % 2)
  }

  /** The value of a signed 32-bit word after wrapping around. */
  function Signed(x: int): int {
    (x + WORD / 2) % WORD - WORD / 2
  }

  /** The one value in the range of a signed word that differs by a multiple of 2^32. */
  lemma SignedIsCongruent(x: int) returns (k: int)
    ensures -0x8000_0000 <= Signed(x) < 0x8000_0000 && x == Signed(x) + k * 0x1_0000_0000
  {
    k := (x + WORD / 2) / WORD;
  }

  /** A signed char. */
  function Value(c: char): int {
    if c as int < 128 then c as int else c as int - 256
  }

  /** The sum of the first `n` letters, each weighted with its place. */
  function WeightedSum(letters: string, n: nat): int
    requires n <= |letters|
  {
    if n == 0 then 0 else WeightedSum(letters, n - 1) + Value(letters[n - 1]) * (n + 118)
  }

  lemma {:induction false} SameLettersSameSum(a: string, b: string, n: nat)
    requires n <= |a| && n <= |b| && forall i :: 0 <= i < n ==> a[i] == b[i]
    ensures WeightedSum(a, n) == WeightedSum(b, n)
  {
    if n > 0 {
      SameLettersSameSum(a, b, n - 1);
    }
  }

  lemma {:induction false} LowestBits(a: nat, b: nat)
    ensures Xor(a, b) % 2 == (a + b) % 2
  {
    if a > 0 || b > 0 {
      var rest := Xor(a / 2, b / 2);
      assert Xor(a, b) == 2 * rest + (a + b) % 2;
    }
  }

  lemma MaskOne(x: nat)
    ensures And(x, 1) == x % 2
  {
    assert And(x / 2, 0) == 0;
  }

  predicate IsPowerOfTwo(n: nat) {
    n == 1 || (n > 0 && n % 2 == 0 && IsPowerOfTwo(n / 2))
  }

  lemma DoublePower(n: nat)
    requires IsPowerOfTwo(n)
    ensures IsPowerOfTwo(n * 2)
  {
  }

  lemma RemainderIs(x: nat, d: nat, q: nat, r: nat)
    requires d > 0 && x == d * q + r && r < d
    ensures x % d == r
  {
    var q', r' := x / d, x % d;
    assert x == d * q' + r';
    if q' < q {
      MultiplesApart(d, q', q);
    } else if q' > q {
      MultiplesApart(d, q, q');
    }
  }

  lemma MultiplesApart(d: nat, a: nat, b: nat)
    requires a < b
    ensures d * a + d <= d * b
  {
    var more := b - a - 1;
    assert d * more >= 0;
    assert d * b == d * a + d + d * more;
  }

  lemma HalfRemainder(x: nat, t: nat)
    requires t > 0
    ensures x % (2 * t) == 2 * ((x / 2) % t) + x % 2
  {
    var q, r := (x / 2) / t, (x / 2) % t;
    assert x / 2 == t * q + r;
    assert x == (2 * t) * q + (2 * r + x % 2);
    RemainderIs(x, 2 * t, q, 2 * r + x % 2);
  }

  /** Masking with a power of two less one is taking the remainder, so every slot of the table can be hit. */
  lemma {:induction false} MaskIsRemainder(x: nat, size: nat)
    requires IsPowerOfTwo(size)
    ensures And(x, size - 1) == x % size
  {
    if size > 1 {
      var t := size / 2;
      MaskIsRemainder(x / 2, t);
      HalfRemainder(x, t);
      assert (size - 1) / 2 == t - 1 && (size - 1) % 2 == 1;
    }
  }
}
