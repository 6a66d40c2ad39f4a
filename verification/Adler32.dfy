/** The Adler-32 checksum of section 2.2 of RFC 1950. */
module Adler32 {
  import opened Basics

  /** The largest prime below 65536. */
  const BASE := 65521

  ghost predicate IsPrime(n: nat) {
    n >= 2 && forall d | 2 <= d < n :: n % d != 0
  }

  predicate Divides(d: nat)
    requires d > 0
  {
    BASE % d == 0
  }

  predicate NoneOfEight(d: nat)
    requires d > 0
  {
    && !Divides(d) && !Divides(d + 1) && !Divides(d + 2) && !Divides(d + 3)
    && !Divides(d + 4) && !Divides(d + 5) && !Divides(d + 6) && !Divides(d + 7)
  }

  /** The numbers below 256 are tried out. */
  lemma TriedOut()
    ensures NoneOfEight(2) && NoneOfEight(10) && NoneOfEight(18) && NoneOfEight(26)
    ensures NoneOfEight(34) && NoneOfEight(42) && NoneOfEight(50) && NoneOfEight(58)
    ensures NoneOfEight(66) && NoneOfEight(74) && NoneOfEight(82) && NoneOfEight(90)
    ensures NoneOfEight(98) && NoneOfEight(106) && NoneOfEight(114) && NoneOfEight(122)
    ensures NoneOfEight(130) && NoneOfEight(138) && NoneOfEight(146) && NoneOfEight(154)
    ensures NoneOfEight(162) && NoneOfEight(170) && NoneOfEight(178) && NoneOfEight(186)
    ensures NoneOfEight(194) && NoneOfEight(202) && NoneOfEight(210) && NoneOfEight(218)
    ensures NoneOfEight(226) && NoneOfEight(234) && NoneOfEight(242) && NoneOfEight(250)
  {
  }

  lemma NoSmallDivisor(e: nat)
    requires 2 <= e < 256
    ensures !Divides(e)
  {
    hide Divides;
    TriedOut();
    var d := e - (e - 2) % 8;
    assert 2 <= d <= e < d + 8 && d % 8 == 2;
    assert NoneOfEight(d);
  }

  lemma NoSmallFactor(e: nat)
    requires 2 <= e < 256
    ensures BASE % e != 0
  {
    NoSmallDivisor(e);
  }

  lemma Scale(q: nat, t: int, u: int)
    ensures t >= u ==> q * t >= q * u
  {
  }

  lemma Multiple(d: nat, q: nat)
    requires q > 0
    ensures d * q % q == 0
  {
    var n := d * q;
    var t := d - n / q;
    assert q * t == n % q by {
      assert q * t == q * d - q * (n / q);
    }
    Scale(q, t, 1);
    Scale(q, -1, t);
  }

  /** Of two factors one is below 256, if the product is below 256 squared. */
  lemma SmallDivisor(n: nat, d: nat)
    requires 2 <= d < n < 65536 && n % d == 0
    ensures exists e :: 2 <= e < 256 && n % e == 0
  {
    var q := n / d;
    assert n == d * q && q != 0 && q != 1;
    if d >= 256 {
      Scale(d, q, 256);
      Multiple(d, q);
      assert q < 256 && n % q == 0;
    }
  }

  lemma BaseDivisor(d: int)
    requires 2 <= d < BASE
    ensures BASE % d != 0
  {
    if BASE % d == 0 {
      SmallDivisor(BASE, d);
      var e :| 2 <= e < 256 && BASE % e == 0;
      NoSmallFactor(e);
    }
  }

  lemma Composite(n: nat, d: nat)
    requires 2 <= d < n && n % d == 0
    ensures !IsPrime(n)
  {
  }

  lemma AboveBase(n: nat)
    requires BASE < n < 65536
    ensures !IsPrime(n)
  {
    hide IsPrime;
    if n % 2 == 0 {
      Composite(n, 2);
    } else if n % 3 == 0 {
      Composite(n, 3);
    } else if n % 5 == 0 {
      Composite(n, 5);
    } else if n % 7 == 0 {
      Composite(n, 7);
    } else {
      // 65531 and 65533.
      Composite(n, if n % 13 == 0 then 13 else 19);
    }
  }

  /** The modulus is what section 2.2 of RFC 1950 calls it: the largest prime below 65536. */
  lemma LargestPrime()
    ensures IsPrime(BASE) && BASE < 65536
    ensures forall n | BASE < n < 65536 :: !IsPrime(n)
  {
    forall d | 2 <= d < BASE ensures BASE % d != 0 {
      BaseDivisor(d);
    }
    forall n | BASE < n < 65536 ensures !IsPrime(n) {
      AboveBase(n);
    }
  }

  /** Sum of the bytes. */
  ghost function Sum(b: seq<byte>): nat {
    if b == [] then 0 else b[0] + Sum(b[1..])
  }

  /** Sum of the bytes weighted by their distance from the end: |b| for the first, 1 for the last. */
  ghost function Weighted(b: seq<byte>): nat {
    if b == [] then 0 else |b| * b[0] + Weighted(b[1..])
  }

  /** One plus all the bytes. */
  ghost function S1(b: seq<byte>): nat {
    1 + Sum(b)
  }

  /** The sum of all intermediate values of the first sum, which starts as one. */
  ghost function S2(b: seq<byte>): nat {
    |b| + Weighted(b)
  }

  /** The checksum by its definition, nothing reduced before the end. */
  ghost function Checksum(b: seq<byte>): (c: nat)
    ensures c < 0x1_0000_0000
  {
    S2(b) % BASE * 65536 + S1(b) % BASE
  }

  lemma {:induction false} SumAppend(a: seq<byte>, b: seq<byte>)
    ensures Sum(a + b) == Sum(a) + Sum(b)
  {
    if a == [] {
      assert a + b == b;
    } else {
      assert (a + b)[1..] == a[1..] + b;
      SumAppend(a[1..], b);
    }
  }

  /** Every byte of a moves |b| further from the end. */
  lemma {:induction false} WeightedAppend(a: seq<byte>, b: seq<byte>)
    ensures Weighted(a + b) == Weighted(a) + |b| * Sum(a) + Weighted(b)
  {
    if a == [] {
      assert a + b == b;
    } else {
      assert (a + b)[1..] == a[1..] + b;
      WeightedAppend(a[1..], b);
      Distribute(|a|, |b|, a[0], Sum(a[1..]));
    }
  }

  lemma Distribute(m: int, n: int, x: int, y: int)
    ensures (m + n) * x == m * x + n * x && n * (x + y) == n * x + n * y
  {
  }

  /** One byte more: what a step of the loop adds before it reduces. */
  lemma SumsStep(b: seq<byte>, c: byte)
    ensures S1(b + [c]) == S1(b) + c
    ensures S2(b + [c]) == S2(b) + S1(b + [c])
  {
    assert [c][1..] == [];
    assert Sum([]) == 0 && Weighted([]) == 0;
    assert Sum([c]) == c as int && Weighted([c]) == 1 * c as int;
    SumAppend(b, [c]);
    WeightedAppend(b, [c]);
    assert |[c]| * Sum(b) == Sum(b);
  }

  lemma ReduceAdd(x: int, y: int)
    ensures (x % BASE + y) % BASE == (x + y) % BASE
  {
  }

  lemma NoSums()
    ensures S1([]) == 1 && S2([]) == 0
  {
  }

  lemma ReducedStep(b: seq<byte>, c: byte)
    ensures var s1 := (S1(b) % BASE + c) % BASE;
      s1 == S1(b + [c]) % BASE && (S2(b) % BASE + s1) % BASE == S2(b + [c]) % BASE
  {
    hide S1, S2;
    SumsStep(b, c);
    ReduceAdd(S1(b), c);
    ReduceAdd(S2(b), S1(b + [c]) % BASE);
    ReduceAdd(S1(b + [c]), S2(b));
  }

  /** Reducing at every step gives the checksum of the definition. */
  method Lzadler32(buf: seq<byte>, len: int) returns (checksum: nat)
    requires len <= |buf|
    ensures checksum == Checksum(buf[..if len < 0 then 0 else len])
  {
    hide S1, S2;
    NoSums();
    var s1, s2 := 1, 0;
    var k := 0;
    assert buf[..0] == [];
    while k < len
      invariant 0 <= k && (k <= len || k == 0)
      invariant s1 == S1(buf[..k]) % BASE && s2 == S2(buf[..k]) % BASE
    {
      assert buf[..k + 1] == buf[..k] + [buf[k]];
      ReducedStep(buf[..k], buf[k]);
      s1 := (s1 + buf[k]) % BASE;
      s2 := (s2 + s1) % BASE;
      k := k + 1;
    }
    checksum := s2 * 65536 + s1;
  }

  /** The checksum of the nine letters "Wikipedia". */
  lemma KnownChecksum()
    ensures Checksum([0x57, 0x69, 0x6B, 0x69, 0x70, 0x65, 0x64, 0x69, 0x61]) == 0x11E6_0398
  {
    hide S1, S2;
    var b: seq<byte> := [];
    NoSums();
    SumsStep(b, 0x57);
    b := b + [0x57];
    assert S1(b) == 88 && S2(b) == 88;
    SumsStep(b, 0x69);
    b := b + [0x69];
    assert S1(b) == 193 && S2(b) == 281;
    SumsStep(b, 0x6B);
    b := b + [0x6B];
    assert S1(b) == 300 && S2(b) == 581;
    SumsStep(b, 0x69);
    b := b + [0x69];
    assert S1(b) == 405 && S2(b) == 986;
    SumsStep(b, 0x70);
    b := b + [0x70];
    assert S1(b) == 517 && S2(b) == 1503;
    SumsStep(b, 0x65);
    b := b + [0x65];
    assert S1(b) == 618 && S2(b) == 2121;
    SumsStep(b, 0x64);
    b := b + [0x64];
    assert S1(b) == 718 && S2(b) == 2839;
    SumsStep(b, 0x69);
    b := b + [0x69];
    assert S1(b) == 823 && S2(b) == 3662;
    SumsStep(b, 0x61);
    b := b + [0x61];
    assert S1(b) == 920 && S2(b) == 4582;
    assert b == [0x57, 0x69, 0x6B, 0x69, 0x70, 0x65, 0x64, 0x69, 0x61];
  }

  // ---------- concatenation ----------

  /** The checksum of a + b from the checksums of a and b and the length of b alone. */
  function Combine(ca: nat, cb: nat, lenB: nat): nat {
    var (a1, a2, b1, b2) := (ca % 65536, ca / 65536, cb % 65536, cb / 65536);
    (a2 + b2 + lenB * (a1 + BASE - 1)) % BASE * 65536 + (a1 + b1 + BASE - 1) % BASE
  }

  lemma ReduceMul(n: nat, x: nat)
    ensures n * (x % BASE) % BASE == n * x % BASE
  {
    var q := x / BASE;
    assert x == q * BASE + x % BASE;
    assert n * x == (n * q) * BASE + n * (x % BASE) by {
      assert n * (q * BASE) == (n * q) * BASE;
      assert n * (q * BASE + x % BASE) == n * (q * BASE) + n * (x % BASE);
    }
    ReduceMultiple(n * q, n * (x % BASE));
  }

  lemma {:induction false} ReduceMultiple(q: nat, y: nat)
    ensures (q * BASE + y) % BASE == y % BASE
  {
    if q > 0 {
      ReduceMultiple(q - 1, y);
      assert q * BASE + y == (q - 1) * BASE + y + BASE;
    }
  }

  lemma CombineFirst(x: nat, y: nat)
    requires x >= 1 && y >= 1
    ensures (x % BASE + y % BASE + BASE - 1) % BASE == (x + y - 1) % BASE
  {
  }

  lemma CombineSecond(y: nat, z: nat, n: nat, x: nat)
    requires x >= 1
    ensures (y % BASE + z % BASE + n * (x % BASE + BASE - 1)) % BASE == (y + z + n * (x - 1)) % BASE
  {
    var u, v := x % BASE + BASE - 1, x - 1;
    assert u % BASE == v % BASE;
    ReduceMul(n, u);
    ReduceMul(n, v);
    assert n * u % BASE == n * v % BASE;
    ReduceThree(y, z, n * u, n * v);
  }

  lemma ReduceThree(y: nat, z: nat, p: nat, q: nat)
    requires p % BASE == q % BASE
    ensures (y % BASE + z % BASE + p) % BASE == (y + z + q) % BASE
  {
  }

  /** The two sums of a concatenation: the starting one counts once, and a moves |b| further from the end. */
  lemma SumsAppend(a: seq<byte>, b: seq<byte>)
    ensures S1(a) >= 1 && S1(a + b) == S1(a) + S1(b) - 1
    ensures S2(a + b) == S2(a) + S2(b) + |b| * (S1(a) - 1)
  {
    SumAppend(a, b);
    WeightedAppend(a, b);
  }

  lemma CombineSums(x1: nat, x2: nat, y1: nat, y2: nat, n: nat)
    requires x1 >= 1 && y1 >= 1
    ensures Combine(x2 % BASE * 65536 + x1 % BASE, y2 % BASE * 65536 + y1 % BASE, n)
         == (x2 + y2 + n * (x1 - 1)) % BASE * 65536 + (x1 + y1 - 1) % BASE
  {
    CombineFirst(x1, y1);
    CombineSecond(x2, y2, n, x1);
    Split(x2 % BASE, x1 % BASE);
    Split(y2 % BASE, y1 % BASE);
  }

  lemma Split(h: nat, l: nat)
    requires l < 65536
    ensures (h * 65536 + l) % 65536 == l && (h * 65536 + l) / 65536 == h
  {
  }

  lemma CombineChecksums(a: seq<byte>, b: seq<byte>)
    ensures Checksum(a + b) == Combine(Checksum(a), Checksum(b), |b|)
  {
    hide Combine, S1, S2;
    SumsAppend(a, b);
    assert S1(b) >= 1 by { SumsAppend(b, []); }
    CombineSums(S1(a), S2(a), S1(b), S2(b), |b|);
  }
}
