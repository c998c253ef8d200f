/** Where the constants of SHA-256 come from: sections 4.2.2 and 5.3.3 of FIPS 180-4. */
module Fips180Constants {
  import opened Arith
  import opened Fips180

  // ----- the first sixty-four primes

  predicate IsPrime(p: nat) {
    2 <= p && forall d :: 2 <= d < p ==> p % d != 0
  }

  /** None of the first seven primes is a proper divisor. */
  predicate Undivided(n: nat) {
    && (n == 2 || n % 2 != 0) && (n == 3 || n % 3 != 0) && (n == 5 || n % 5 != 0) && (n == 7 || n % 7 != 0)
    && (n == 11 || n % 11 != 0) && (n == 13 || n % 13 != 0) && (n == 17 || n % 17 != 0)
  }

  lemma NineteenSquared(a: nat, b: nat)
    requires 19 <= a <= b
    ensures 361 <= a * b
  {
    MulMonotone(19, a, b);
    MulMonotone(19, b, 19);
  }

  /** One of two factors of a number below 19 * 19 is below 19, and then one of the seven primes divides. */
  lemma SmallFactor(n: nat, a: nat, b: nat)
    requires 2 <= a <= b && n == a * b && n < 361
    ensures !Undivided(n)
  {
    if 19 <= a {
      NineteenSquared(a, b);
    }
    var d, k := LeastPrime(a);
    assert n == d * (k * b) by {
      assert (d * k) * b == d * (k * b);
    }
    MulMonotone(1, k, b);
    DivModUnique(n, d, k * b, 0);
    MulMonotone(2, k * b, d);
    assert d < n && n % d == 0;
  }

  lemma LeastPrime(a: nat) returns (d: nat, k: nat)
    requires 2 <= a < 19
    ensures d in [2, 3, 5, 7, 11, 13, 17] && a == d * k && 1 <= k
  {
    d := if a % 2 == 0 then 2 else if a % 3 == 0 then 3 else a;
    k := a / d;
  }

  lemma SmallQuotient(n: nat, d: nat, q: nat)
    requires n == d * q
    ensures q < 2 ==> n <= d
  {
    if q < 2 {
      MulMonotone(q, 1, d);
    }
  }

  /** Up to 360 being prime can be told by those seven. */
  lemma PrimeIffUndivided(n: nat)
    requires 2 <= n < 361
    ensures IsPrime(n) <==> Undivided(n)
  {
    if Undivided(n) {
      forall d | 2 <= d < n ensures n % d != 0 {
        if n % d == 0 {
          var q := n / d;
          assert n == d * q;
          SmallQuotient(n, d, q);
          if d <= q {
            SmallFactor(n, d, q);
          } else {
            SmallFactor(n, q, d);
          }
        }
      }
    }
  }

  /** The numbers up to `n` that those seven leave undivided. */
  function PrimesTo(n: nat): seq<nat> {
    if n < 2 then [] else PrimesTo(n - 1) + if Undivided(n) then [n] else []
  }

  /** They are the primes up to `n`, in order. */
  lemma {:induction false} PrimesToAreAll(n: nat)
    requires n < 361
    ensures forall i, j :: 0 <= i < j < |PrimesTo(n)| ==> PrimesTo(n)[i] < PrimesTo(n)[j]
    ensures forall p :: p in PrimesTo(n) <==> 2 <= p <= n && IsPrime(p)
  {
    hide IsPrime, Undivided;
    if 2 <= n {
      var before := PrimesTo(n - 1);
      PrimesToAreAll(n - 1);
      PrimeIffUndivided(n);
      forall i | 0 <= i < |before| ensures before[i] < n {
        assert before[i] in before;
      }
      forall p ensures p in PrimesTo(n) <==> 2 <= p <= n && IsPrime(p) {
        assert p in PrimesTo(n) <==> p in before || (p == n && Undivided(n));
      }
    }
  }

  /** The table of section 4.2.2: the first sixty-four primes. */
  function Prime(t: nat): nat
    requires t < 64
  {
    PrimeRow(t / 8)[t % 8]
  }

  function PrimeRow(r: nat): (ps: seq<nat>)
    requires r < 8
    ensures |ps| == 8
  {
    match r
    case 0 => [2, 3, 5, 7, 11, 13, 17, 19]
    case 1 => [23, 29, 31, 37, 41, 43, 47, 53]
    case 2 => [59, 61, 67, 71, 73, 79, 83, 89]
    case 3 => [97, 101, 103, 107, 109, 113, 127, 131]
    case 4 => [137, 139, 149, 151, 157, 163, 167, 173]
    case 5 => [179, 181, 191, 193, 197, 199, 211, 223]
    case 6 => [227, 229, 233, 239, 241, 251, 257, 263]
    case _ => [269, 271, 277, 281, 283, 293, 307, 311]
  }

  predicate Passed(n: nat, p: nat) { n >= p || !Undivided(n) }

  /** There is no odd prime between `q` and `p`; fourteen is the largest gap in the table. */
  predicate Gap(q: nat, p: nat) {
    && p <= q + 14
    && Passed(q + 2, p) && Passed(q + 4, p) && Passed(q + 6, p) && Passed(q + 8, p) && Passed(q + 10, p)
    && Passed(q + 12, p)
  }

  /** From one prime to the next. */
  lemma NextPrime(q: nat, p: nat)
    requires 1 <= q < p && Undivided(p) && Gap(q, p) && (q == 2 ==> p == 3) && (q == 1 ==> p == 2)
    requires q == 2 || q % 2 == 1
    ensures PrimesTo(p) == PrimesTo(q) + [p]
  {
    hide Undivided, Gap;
    forall n | q < n < p ensures !Undivided(n) {
      GapAt(q, n, p);
    }
    NoneBetween(q, p - 1);
  }

  lemma GapAt(q: nat, n: nat, p: nat)
    requires 3 <= q < n < p && Gap(q, p) && q % 2 == 1
    ensures !Undivided(n)
  {
    hide Undivided;
    var k := n - q;
    if k % 2 == 1 {
      EvenIsDivided(n);
    } else {
      assert k == 2 || k == 4 || k == 6 || k == 8 || k == 10 || k == 12;
    }
  }

  lemma EvenIsDivided(n: nat)
    requires 2 < n && n % 2 == 0
    ensures !Undivided(n)
  {
  }

  lemma {:induction false} NoneBetween(q: nat, n: nat)
    requires 1 <= q <= n && forall k :: q < k <= n ==> !Undivided(k)
    ensures PrimesTo(n) == PrimesTo(q)
  {
    hide Undivided;
    if q < n {
      NoneBetween(q, n - 1);
    }
  }

  /** The prime before `Prime(t)`, or 1. */
  function Before(t: nat): nat
    requires t < 64
  {
    if t == 0 then 1 else Prime(t - 1)
  }

  /** `Prime(t)` is the prime with exactly `t` primes below it. */
  lemma {:induction false} PrimeIsNth(t: nat)
    requires t < 64
    ensures |PrimesTo(Prime(t))| == t + 1
    ensures forall i :: 0 <= i <= t ==> PrimesTo(Prime(t))[i] == Prime(i)
  {
    hide PrimesTo, Prime, CubeRoot, K;
    InTable(t);
    if t == 0 {
      NoneToOne();
    } else {
      PrimeIsNth(t - 1);
    }
  }

  lemma NoneToOne()
    ensures PrimesTo(1) == []
  {
  }

  // ----- the roots

  /** With `c` in front of the point, `k` is the first 32 bits of the fractional part of the cube root of `p`. */
  predicate CubeRoot(p: nat, c: nat, k: Word) {
    var n := c * 0x1_0000_0000 + k;
    n * n * n <= p * 0x1_0000_0000_0000_0000_0000_0000 < (n + 1) * (n + 1) * (n + 1)
  }

  /** The same for the square root. */
  predicate SquareRoot(p: nat, c: nat, k: Word) {
    var n := c * 0x1_0000_0000 + k;
    n * n <= p * 0x1_0000_0000_0000_0000 < (n + 1) * (n + 1)
  }

  /** Section 4.2.2: every constant is the fraction of the cube root of a prime. */
  lemma ConstantsAreCubeRoots(t: nat)
    requires t < 64
    ensures exists c :: CubeRoot(Prime(t), c, K(t))
  {
    hide CubeRoot, Prime, K, Before;
    InTable(t);
  }

  /** Section 5.3.3: every word of the first hash value is the fraction of the square root of a prime. */
  lemma InitialIsSquareRoots(i: nat)
    requires i < 8
    ensures exists c :: SquareRoot(Prime(i), c, WordsOf(H0)[i])
  {
    match i
    case 0 => SquareRootOf(i, 2, 1, 0x6a09e667);
    case 1 => SquareRootOf(i, 3, 1, 0xbb67ae85);
    case 2 => SquareRootOf(i, 5, 2, 0x3c6ef372);
    case 3 => SquareRootOf(i, 7, 2, 0xa54ff53a);
    case 4 => SquareRootOf(i, 11, 3, 0x510e527f);
    case 5 => SquareRootOf(i, 13, 3, 0x9b05688c);
    case 6 => SquareRootOf(i, 17, 4, 0x1f83d9ab);
    case _ => SquareRootOf(i, 19, 4, 0x5be0cd19);
  }

  lemma SquareRootOf(i: nat, p: nat, c: nat, k: Word)
    requires i < 8 && Prime(i) == p && WordsOf(H0)[i] == k && SquareRoot(p, c, k)
    ensures exists c' :: SquareRoot(Prime(i), c', WordsOf(H0)[i])
  {
    hide SquareRoot;
    assert SquareRoot(Prime(i), c, WordsOf(H0)[i]);
  }

  // ----- the table, entry by entry

  /** Entry `t`: the next prime, and the root of it. */
  ghost predicate Entry(t: nat)
    requires t < 64
  {
    && PrimesTo(Prime(t)) == PrimesTo(Before(t)) + [Prime(t)]
    && exists c :: CubeRoot(Prime(t), c, K(t))
  }

  lemma EntryOf(t: nat, q: nat, p: nat, c: nat, k: Word)
    requires t < 64 && Before(t) == q && Prime(t) == p && K(t) == k
    requires 1 <= q < p && Undivided(p) && Gap(q, p) && (q == 2 ==> p == 3) && (q == 1 ==> p == 2)
    requires q == 2 || q % 2 == 1
    requires CubeRoot(p, c, k)
    ensures Entry(t)
  {
    hide CubeRoot, Gap, Undivided, PrimesTo;
    NextPrime(q, p);
    assert CubeRoot(Prime(t), c, K(t));
  }

  lemma InTable(t: nat)
    requires t < 64
    ensures Entry(t)
  {
    hide Entry;
    match t / 4
    case 0 => Entries0(t);
    case 1 => Entries1(t);
    case 2 => Entries2(t);
    case 3 => Entries3(t);
    case 4 => Entries4(t);
    case 5 => Entries5(t);
    case 6 => Entries6(t);
    case 7 => Entries7(t);
    case 8 => Entries8(t);
    case 9 => Entries9(t);
    case 10 => Entries10(t);
    case 11 => Entries11(t);
    case 12 => Entries12(t);
    case 13 => Entries13(t);
    case 14 => Entries14(t);
    case _ => Entries15(t);
  }

  lemma Entries0(t: nat)
    requires t < 64 && t / 4 == 0
    ensures Entry(t)
  {
    hide Entry;
    match t % 4
    case 0 => EntryOf(t, 1, 2, 1, 0x428a2f98);
    case 1 => EntryOf(t, 2, 3, 1, 0x71374491);
    case 2 => EntryOf(t, 3, 5, 1, 0xb5c0fbcf);
    case _ => EntryOf(t, 5, 7, 1, 0xe9b5dba5);
  }

  lemma Entries1(t: nat)
    requires t < 64 && t / 4 == 1
    ensures Entry(t)
  {
    hide Entry;
    match t % 4
    case 0 => EntryOf(t, 7, 11, 2, 0x3956c25b);
    case 1 => EntryOf(t, 11, 13, 2, 0x59f111f1);
    case 2 => EntryOf(t, 13, 17, 2, 0x923f82a4);
    case _ => EntryOf(t, 17, 19, 2, 0xab1c5ed5);
  }

  lemma Entries2(t: nat)
    requires t < 64 && t / 4 == 2
    ensures Entry(t)
  {
    hide Entry;
    match t % 4
    case 0 => EntryOf(t, 19, 23, 2, 0xd807aa98);
    case 1 => EntryOf(t, 23, 29, 3, 0x12835b01);
    case 2 => EntryOf(t, 29, 31, 3, 0x243185be);
    case _ => EntryOf(t, 31, 37, 3, 0x550c7dc3);
  }

  lemma Entries3(t: nat)
    requires t < 64 && t / 4 == 3
    ensures Entry(t)
  {
    hide Entry;
    match t % 4
    case 0 => EntryOf(t, 37, 41, 3, 0x72be5d74);
    case 1 => EntryOf(t, 41, 43, 3, 0x80deb1fe);
    case 2 => EntryOf(t, 43, 47, 3, 0x9bdc06a7);
    case _ => EntryOf(t, 47, 53, 3, 0xc19bf174);
  }

  lemma Entries4(t: nat)
    requires t < 64 && t / 4 == 4
    ensures Entry(t)
  {
    hide Entry;
    match t % 4
    case 0 => EntryOf(t, 53, 59, 3, 0xe49b69c1);
    case 1 => EntryOf(t, 59, 61, 3, 0xefbe4786);
    case 2 => EntryOf(t, 61, 67, 4, 0x0fc19dc6);
    case _ => EntryOf(t, 67, 71, 4, 0x240ca1cc);
  }

  lemma Entries5(t: nat)
    requires t < 64 && t / 4 == 5
    ensures Entry(t)
  {
    hide Entry;
    match t % 4
    case 0 => EntryOf(t, 71, 73, 4, 0x2de92c6f);
    case 1 => EntryOf(t, 73, 79, 4, 0x4a7484aa);
    case 2 => EntryOf(t, 79, 83, 4, 0x5cb0a9dc);
    case _ => EntryOf(t, 83, 89, 4, 0x76f988da);
  }

  lemma Entries6(t: nat)
    requires t < 64 && t / 4 == 6
    ensures Entry(t)
  {
    hide Entry;
    match t % 4
    case 0 => EntryOf(t, 89, 97, 4, 0x983e5152);
    case 1 => EntryOf(t, 97, 101, 4, 0xa831c66d);
    case 2 => EntryOf(t, 101, 103, 4, 0xb00327c8);
    case _ => EntryOf(t, 103, 107, 4, 0xbf597fc7);
  }

  lemma Entries7(t: nat)
    requires t < 64 && t / 4 == 7
    ensures Entry(t)
  {
    hide Entry;
    match t % 4
    case 0 => EntryOf(t, 107, 109, 4, 0xc6e00bf3);
    case 1 => EntryOf(t, 109, 113, 4, 0xd5a79147);
    case 2 => EntryOf(t, 113, 127, 5, 0x06ca6351);
    case _ => EntryOf(t, 127, 131, 5, 0x14292967);
  }

  lemma Entries8(t: nat)
    requires t < 64 && t / 4 == 8
    ensures Entry(t)
  {
    hide Entry;
    match t % 4
    case 0 => EntryOf(t, 131, 137, 5, 0x27b70a85);
    case 1 => EntryOf(t, 137, 139, 5, 0x2e1b2138);
    case 2 => EntryOf(t, 139, 149, 5, 0x4d2c6dfc);
    case _ => EntryOf(t, 149, 151, 5, 0x53380d13);
  }

  lemma Entries9(t: nat)
    requires t < 64 && t / 4 == 9
    ensures Entry(t)
  {
    hide Entry;
    match t % 4
    case 0 => EntryOf(t, 151, 157, 5, 0x650a7354);
    case 1 => EntryOf(t, 157, 163, 5, 0x766a0abb);
    case 2 => EntryOf(t, 163, 167, 5, 0x81c2c92e);
    case _ => EntryOf(t, 167, 173, 5, 0x92722c85);
  }

  lemma Entries10(t: nat)
    requires t < 64 && t / 4 == 10
    ensures Entry(t)
  {
    hide Entry;
    match t % 4
    case 0 => EntryOf(t, 173, 179, 5, 0xa2bfe8a1);
    case 1 => EntryOf(t, 179, 181, 5, 0xa81a664b);
    case 2 => EntryOf(t, 181, 191, 5, 0xc24b8b70);
    case _ => EntryOf(t, 191, 193, 5, 0xc76c51a3);
  }

  lemma Entries11(t: nat)
    requires t < 64 && t / 4 == 11
    ensures Entry(t)
  {
    hide Entry;
    match t % 4
    case 0 => EntryOf(t, 193, 197, 5, 0xd192e819);
    case 1 => EntryOf(t, 197, 199, 5, 0xd6990624);
    case 2 => EntryOf(t, 199, 211, 5, 0xf40e3585);
    case _ => EntryOf(t, 211, 223, 6, 0x106aa070);
  }

  lemma Entries12(t: nat)
    requires t < 64 && t / 4 == 12
    ensures Entry(t)
  {
    hide Entry;
    match t % 4
    case 0 => EntryOf(t, 223, 227, 6, 0x19a4c116);
    case 1 => EntryOf(t, 227, 229, 6, 0x1e376c08);
    case 2 => EntryOf(t, 229, 233, 6, 0x2748774c);
    case _ => EntryOf(t, 233, 239, 6, 0x34b0bcb5);
  }

  lemma Entries13(t: nat)
    requires t < 64 && t / 4 == 13
    ensures Entry(t)
  {
    hide Entry;
    match t % 4
    case 0 => EntryOf(t, 239, 241, 6, 0x391c0cb3);
    case 1 => EntryOf(t, 241, 251, 6, 0x4ed8aa4a);
    case 2 => EntryOf(t, 251, 257, 6, 0x5b9cca4f);
    case _ => EntryOf(t, 257, 263, 6, 0x682e6ff3);
  }

  lemma Entries14(t: nat)
    requires t < 64 && t / 4 == 14
    ensures Entry(t)
  {
    hide Entry;
    match t % 4
    case 0 => EntryOf(t, 263, 269, 6, 0x748f82ee);
    case 1 => EntryOf(t, 269, 271, 6, 0x78a5636f);
    case 2 => EntryOf(t, 271, 277, 6, 0x84c87814);
    case _ => EntryOf(t, 277, 281, 6, 0x8cc70208);
  }

  lemma Entries15(t: nat)
    requires t < 64 && t / 4 == 15
    ensures Entry(t)
  {
    hide Entry;
    match t % 4
    case 0 => EntryOf(t, 281, 283, 6, 0x90befffa);
    case 1 => EntryOf(t, 283, 293, 6, 0xa4506ceb);
    case 2 => EntryOf(t, 293, 307, 6, 0xbef9a3f7);
    case _ => EntryOf(t, 307, 311, 6, 0xc67178f2);
  }
}
