/**
 * The bucket-count heuristic of the hash table: a cheap primality test by
 * trial division with the odd numbers 3 to 49, and the search for the
 * smallest odd count at or above the ideal one that passes it.
 */
module ProbablePrime {

  /** n is divisible by an odd number from 3 to 49 other than n itself. */
  ghost predicate HasSmallOddFactor(n: int)
  {
    exists i :: 3 <= i <= 49 && i % 2 == 1 && i != n && Divides(i, n)
  }

  predicate Divides(d: int, n: int)
    requires d != 0
  {
    n % d == 0
  }

  /** No odd j in [3, i) other than n divides n: what the test has ruled out before reaching i. */
  ghost predicate NoFactorBelow(n: int, i: int)
  {
    forall j :: 3 <= j < i && j % 2 == 1 ==> j != n && !Divides(j, n)
  }

  lemma NoFactorStep(n: int, i: int)
    requires i % 2 == 1 && NoFactorBelow(n, i) && i != n && !Divides(i, n)
    ensures NoFactorBelow(n, i + 2)
  {
  }

  /**
   * Trial division as the table does it: walks i = 3, 5, ..., 49, answers
   * "prime" as soon as i is the number itself and "composite" as soon as i
   * divides it, and "maybe prime" when no i up to 49 decided.
   */
  method IsProbablePrime(oddNumber: int) returns (r: bool)
    ensures r <==> !HasSmallOddFactor(oddNumber)
  {
    var i := 3;
    while i < 51
      invariant 3 <= i <= 51 && i % 2 == 1
      invariant NoFactorBelow(oddNumber, i)
    {
      if oddNumber == i {
        forall j | i < j <= 49 ensures !Divides(j, oddNumber) {
          SmallRemainder(oddNumber, j);
        }
        return true;
      } else if oddNumber % i == 0 {
        assert Divides(i, oddNumber);
        return false;
      }
      NoFactorStep(oddNumber, i);
      i := i + 2;
    }
    return true;
  }

  lemma SmallRemainder(n: int, d: int)
    requires 0 < n < d
    ensures n % d == n
  {
  }

  lemma DivisorBound(d: int, n: int)
    requires 0 < d && 0 < n && n % d == 0
    ensures d <= n
  {
    if n < d {
      SmallRemainder(n, d);
    }
  }

  /**
   * For a positive number the test fails exactly when an odd number from 3
   * to 49 below it divides it.
   */
  lemma PositiveSmallOddFactor(n: int)
    requires n > 0
    ensures HasSmallOddFactor(n) <==> exists i :: 3 <= i <= 49 && i % 2 == 1 && i < n && Divides(i, n)
  {
    if HasSmallOddFactor(n) {
      var i :| 3 <= i <= 49 && i % 2 == 1 && i != n && Divides(i, n);
      DivisorBound(i, n);
    }
  }

  /**
   * The first candidate of the search: numOfElements / idealRatio, raised
   * to 5 when it is smaller, and otherwise made odd by setting its lowest
   * bit (`|= 0x01`). It is the least odd number at or above both 5 and
   * the quotient.
   */
  function FirstCandidate(numOfElements: nat, idealRatio: nat): (c: int)
    requires idealRatio > 0
    ensures c >= 5 && c % 2 == 1
    ensures c >= numOfElements / idealRatio
    // the least such odd number: the odd number below it is under 5 or under the quotient
    ensures c == 5 || c - 2 < numOfElements / idealRatio
  {
    var q := numOfElements / idealRatio;
    if q < 5 then 5 else if q % 2 == 0 then q + 1 else q
  }

  /**
   * r is the bucket count the table computes for numOfElements pairs: the
   * smallest odd number at or above the first candidate that passes trial
   * division.
   */
  ghost predicate IsIdealNumOfBuckets(r: int, numOfElements: nat, idealRatio: nat)
    requires idealRatio > 0
  {
    var c := FirstCandidate(numOfElements, idealRatio);
    && c <= r && r % 2 == 1
    && !HasSmallOddFactor(r)
    && forall x :: c <= x < r && x % 2 == 1 ==> HasSmallOddFactor(x)
  }

  lemma {:induction false} MulAtLeast(d: int, e: nat)
    requires d > 0 && e >= 1
    ensures d * e >= d
  {
    if e > 1 {
      MulAtLeast(d, e - 1);
      assert d * e == d * (e - 1) + d;
    }
  }

  /** The remainder is unique: x == d * q + r with 0 <= r < d leaves remainder r. */
  lemma ModUnique(x: int, d: int, q: int, r: int)
    requires d > 0 && 0 <= r < d && x == d * q + r
    ensures x % d == r
  {
    var q' := x / d;
    var r' := x % d;
    assert x == d * q' + r';
    assert d * (q - q') == r' - r;
    if q > q' {
      MulAtLeast(d, q - q');
    } else if q < q' {
      MulAtLeast(d, q' - q);
    }
  }

  lemma OneAbove(d: int, y: int)
    requires d > 1
    ensures (d * y + 1) % d == 1
  {
    ModUnique(d * y + 1, d, y, 1);
  }

  /*
   * Termination of the search rests on 193690281515374794150, twice the
   * least common multiple of 3, 5, ..., 49 (written out as a literal so
   * that products with it stay linear arithmetic).
   */

  /**
   * One more than a multiple of 193690281515374794150 passes trial
   * division: every odd i from 3 to 49 divides it, so each leaves remainder 1.
   */
  lemma CongruentCandidatePasses(k: int)
    ensures !HasSmallOddFactor(193690281515374794150 * k + 1)
  {
    var c := 193690281515374794150 * k + 1;
    assert c % 3 == 1 by { OneAbove(3, 64563427171791598050 * k); }
    assert c % 5 == 1 by { OneAbove(5, 38738056303074958830 * k); }
    assert c % 7 == 1 by { OneAbove(7, 27670040216482113450 * k); }
    assert c % 9 == 1 by { OneAbove(9, 21521142390597199350 * k); }
    assert c % 11 == 1 by { OneAbove(11, 17608207410488617650 * k); }
    assert c % 13 == 1 by { OneAbove(13, 14899252424259599550 * k); }
    assert c % 15 == 1 by { OneAbove(15, 12912685434358319610 * k); }
    assert c % 17 == 1 by { OneAbove(17, 11393545971492634950 * k); }
    assert c % 19 == 1 by { OneAbove(19, 10194225342914462850 * k); }
    assert c % 21 == 1 by { OneAbove(21, 9223346738827371150 * k); }
    assert c % 23 == 1 by { OneAbove(23, 8421316587624991050 * k); }
    assert c % 25 == 1 by { OneAbove(25, 7747611260614991766 * k); }
    assert c % 27 == 1 by { OneAbove(27, 7173714130199066450 * k); }
    assert c % 29 == 1 by { OneAbove(29, 6678975224668096350 * k); }
    assert c % 31 == 1 by { OneAbove(31, 6248073597270154650 * k); }
    assert c % 33 == 1 by { OneAbove(33, 5869402470162872550 * k); }
    assert c % 35 == 1 by { OneAbove(35, 5534008043296422690 * k); }
    assert c % 37 == 1 by { OneAbove(37, 5234872473388507950 * k); }
    assert c % 39 == 1 by { OneAbove(39, 4966417474753199850 * k); }
    assert c % 41 == 1 by { OneAbove(41, 4724153207692068150 * k); }
    assert c % 43 == 1 by { OneAbove(43, 4504425151520344050 * k); }
    assert c % 45 == 1 by { OneAbove(45, 4304228478119439870 * k); }
    assert c % 47 == 1 by { OneAbove(47, 4121069819476059450 * k); }
    assert c % 49 == 1 by { OneAbove(49, 3952862888068873350 * k); }
    forall i | 3 <= i <= 49 && i % 2 == 1 ensures c % i == 1 {
      assert i == 3 || i == 5 || i == 7 || i == 9 || i == 11 || i == 13 || i == 15 || i == 17
        || i == 19 || i == 21 || i == 23 || i == 25 || i == 27 || i == 29 || i == 31 || i == 33
        || i == 35 || i == 37 || i == 39 || i == 41 || i == 43 || i == 45 || i == 47 || i == 49;
    }
  }

  /** One more than a multiple of the even 193690281515374794150 is odd. */
  lemma OddAfterMultiple(k: int)
    ensures (193690281515374794150 * k + 1) % 2 == 1
  {
    OneAbove(2, 96845140757687397075 * k);
  }

  /** Above every odd c lies an odd number that passes trial division. */
  lemma PassingCandidateAbove(c: int) returns (t: int)
    ensures c <= t && t % 2 == 1
    ensures !HasSmallOddFactor(t)
  {
    var k: nat := if c <= 1 then 0 else c;
    t := 193690281515374794150 * k + 1;
    OddAfterMultiple(k);
    CongruentCandidatePasses(k);
  }

  /** Two odd numbers c <= t are an even distance apart. */
  lemma OddDistance(c: int, t: int) returns (m: nat)
    requires c % 2 == 1 && t % 2 == 1 && c <= t
    ensures t == c + 2 * m
  {
    m := (t - c) / 2;
  }

  lemma OddStep(c: int, k: nat)
    requires c % 2 == 1
    ensures (c + 2 * k) % 2 == 1
  {
  }

  /** Every odd number in [c, c + 2 * k) is c + 2 * j for some j < k. */
  lemma OddBelow(c: int, k: nat)
    requires c % 2 == 1
    requires forall j :: 0 <= j < k ==> HasSmallOddFactor(c + 2 * j)
    ensures forall x :: c <= x < c + 2 * k && x % 2 == 1 ==> HasSmallOddFactor(x)
  {
    forall x | c <= x < c + 2 * k && x % 2 == 1 ensures HasSmallOddFactor(x) {
      var j := OddDistance(c, x);
      assert c + 2 * j == x;
    }
  }

  /**
   * The ideal bucket count for numOfElements pairs at the given ideal
   * ratio: start at the first candidate and step by 2 until trial division
   * passes. The search ends: an odd candidate one above a multiple of
   * 193690281515374794150 always passes, and one such lies ahead.
   */
  method CalculateIdealNumOfBuckets(numOfElements: nat, idealRatio: nat) returns (r: int)
    requires idealRatio > 0
    ensures IsIdealNumOfBuckets(r, numOfElements, idealRatio)
    ensures r >= 5 && r % 2 == 1
  {
    var c := FirstCandidate(numOfElements, idealRatio);
    r := c;
    ghost var bound := PassingCandidateAbove(c);
    ghost var m := OddDistance(c, bound);
    ghost var k: nat := 0;
    var passes := IsProbablePrime(r);
    while !passes
      invariant r == c + 2 * k && k <= m
      invariant passes <==> !HasSmallOddFactor(r)
      invariant forall j :: 0 <= j < k ==> HasSmallOddFactor(c + 2 * j)
      decreases m - k
    {
      assert k != m;
      r := r + 2;
      k := k + 1;
      passes := IsProbablePrime(r);
    }
    OddStep(c, k);
    OddBelow(c, k);
  }
}
