/**
 * The divisor listing of Task2Multi.py: `factors(n)` scans 1..n and keeps
 * every i that divides n; `factorize(*numbers)` applies it to each input
 * and returns the lists in input order.
 */
module Factorizer {

  /** The divisors of n that lie in 1..k, ascending: what the scan in
      `factors(n)` has collected once it has looked at i = 1..k. */
  function DivisorsUpTo(n: int, k: int): seq<int>
    decreases k
  {
    if k <= 0 then [] else DivisorsUpTo(n, k - 1) + (if n % k == 0 then [k] else [])
  }

  /** What `factors(n)` returns: the scan over range(1, n + 1), which is empty when n <= 0. */
  function Divisors(n: int): (r: seq<int>)
    ensures forall d :: d in r <==> 1 <= d <= n && n % d == 0
    ensures StrictlyIncreasing(r)
  {
    DivisorsUpToMembers(n, n);
    DivisorsUpToIncreasing(n, n);
    DivisorsUpTo(n, n)
  }

  predicate StrictlyIncreasing(s: seq<int>)
  {
    forall i, j :: 0 <= i < j < |s| ==> s[i] < s[j]
  }

  /** d is a positive divisor of n that is at most k (Python's `%` agrees with
      Dafny's here, since d is positive). */
  predicate IsDivisorUpTo(d: int, n: int, k: int)
  {
    1 <= d <= k && n % d == 0
  }

  /** The loop of `factors`: `result` grows by `append` as i runs over 1..n. */
  method Factors(n: int) returns (result: seq<int>)
    ensures forall d :: d in result <==> 1 <= d <= n && n % d == 0
    ensures StrictlyIncreasing(result)
    ensures result == Divisors(n)
  {
    result := [];
    var i := 1;
    while i <= n
      invariant 1 <= i <= if n < 1 then 1 else n + 1
      invariant result == DivisorsUpTo(n, i - 1)
    {
      if n % i == 0 {
        result := result + [i];
      }
      i := i + 1;
    }
    assert result == Divisors(n);
  }

  lemma {:induction false} DivisorsUpToMembers(n: int, k: int)
    ensures forall d :: d in DivisorsUpTo(n, k) <==> IsDivisorUpTo(d, n, k)
    decreases k
  {
    if k > 0 {
      DivisorsUpToMembers(n, k - 1);
    }
  }

  lemma {:induction false} DivisorsUpToIncreasing(n: int, k: int)
    ensures StrictlyIncreasing(DivisorsUpTo(n, k))
    decreases k
  {
    if k > 0 {
      var before := DivisorsUpTo(n, k - 1);
      DivisorsUpToIncreasing(n, k - 1);
      DivisorsUpToMembers(n, k - 1);
      assert forall i :: 0 <= i < |before| ==> before[i] in before && before[i] < k;
    }
  }

  /** For n <= 0, `range(1, n + 1)` is empty and so is `factors(n)`. */
  lemma DivisorsEmpty(n: int)
    ensures n <= 0 <==> Divisors(n) == []
  {
    var s := Divisors(n);
    assert s != [] ==> s[0] in s;
    assert n >= 1 ==> 1 in s;
  }

  /** For n >= 1 the list starts with 1 and ends with n. */
  lemma DivisorsEnds(n: int)
    requires n >= 1
    ensures |Divisors(n)| >= 1
    ensures Divisors(n)[0] == 1 && Divisors(n)[|Divisors(n)| - 1] == n
  {
    var s := Divisors(n);
    assert 1 in s && n in s;
    IncreasingHeadBelow(s, 1);
    IncreasingLastAbove(s, n);
    assert s[0] in s && s[|s| - 1] in s;
  }

  lemma IncreasingHeadBelow(s: seq<int>, x: int)
    requires StrictlyIncreasing(s) && x in s
    ensures s[0] <= x
  {
    var j :| 0 <= j < |s| && s[j] == x;
    assert j == 0 || s[0] < s[j];
  }

  lemma IncreasingLastAbove(s: seq<int>, x: int)
    requires StrictlyIncreasing(s) && x in s
    ensures x <= s[|s| - 1]
  {
    var j :| 0 <= j < |s| && s[j] == x;
    assert j == |s| - 1 || s[j] < s[|s| - 1];
  }

  /** Two strictly increasing lists with the same elements are equal. */
  lemma {:induction false} IncreasingWithSameElements(a: seq<int>, b: seq<int>)
    requires StrictlyIncreasing(a) && StrictlyIncreasing(b)
    requires forall x :: x in a <==> x in b
    ensures a == b
    decreases |a|
  {
    assert a != [] ==> a[0] in a && a[0] in b;
    assert b != [] ==> b[0] in b && b[0] in a;
    if a != [] {
      IncreasingHeadBelow(a, b[0]);
      IncreasingHeadBelow(b, a[0]);
      SameTails(a, b);
      IncreasingWithSameElements(a[1..], b[1..]);
      assert a == [a[0]] + a[1..] && b == [b[0]] + b[1..];
    }
  }

  /** Below a common least element, the rests have the same elements too. */
  lemma SameTails(a: seq<int>, b: seq<int>)
    requires StrictlyIncreasing(a) && StrictlyIncreasing(b)
    requires forall x :: x in a <==> x in b
    requires a != [] && b != [] && a[0] == b[0]
    ensures forall x :: x in a[1..] <==> x in b[1..]
  {
    forall x
      ensures x in a[1..] <==> x in b[1..]
    {
      if x in a[1..] {
        var j :| 1 <= j < |a| && a[j] == x;
        assert x in b && x != b[0];
      }
      if x in b[1..] {
        var j :| 1 <= j < |b| && b[j] == x;
        assert x in a && x != a[0];
      }
    }
  }

  /** `factors(n)` is the only strictly increasing list of exactly the
      positive divisors of n. */
  lemma DivisorListUnique(s: seq<int>, n: int)
    requires StrictlyIncreasing(s)
    requires forall d :: d in s <==> 1 <= d <= n && n % d == 0
    ensures s == Divisors(n)
  {
    IncreasingWithSameElements(s, Divisors(n));
  }

  lemma MulAtLeast(d: int, x: int)
    requires 1 <= d && 1 <= x
    ensures d * x >= d && d * x >= x
  {
    assert d * x == d * (x - 1) + d;
    assert d * (x - 1) >= 0;
  }

  lemma MulNonPositive(d: int, x: int)
    requires 1 <= d && x <= 0
    ensures d * x <= 0
  {
    assert d * x == - (d * -x);
  }

  /** Division is exact when n is a multiple of d. */
  lemma DivExact(n: int, d: int, q: int)
    requires 1 <= d && n == d * q
    ensures n / d == q && n % d == 0
  {
    var q', r' := n / d, n % d;
    assert n == d * q' + r';
    assert d * (q - q') == r';
    assert q - q' >= 1 ==> d * (q - q') >= d by {
      if q - q' >= 1 { MulAtLeast(d, q - q'); }
    }
    assert q' - q >= 1 ==> d * (q' - q) >= 1 by {
      if q' - q >= 1 { MulAtLeast(d, q' - q); }
    }
    assert d * (q' - q) == - r';
  }

  /** A divisor d of n has the co-divisor n / d, and d is in turn n divided by it. */
  lemma CoDivisor(n: int, d: int)
    requires 1 <= d <= n && n % d == 0
    ensures 1 <= n / d <= n && n % (n / d) == 0 && n / (n / d) == d
    ensures d * (n / d) == n
  {
    var q := n / d;
    assert d * q == n;
    assert q <= 0 ==> d * q <= 0 by {
      if q <= 0 { MulNonPositive(d, q); }
    }
    MulAtLeast(d, q);
    DivExact(n, q, d);
  }

  /** A divisor d of n above m has a co-divisor q with q * m <= n. */
  lemma LargeDivisorPairsSmall(n: int, d: int, m: int)
    requires 1 <= m < d <= n && n % d == 0
    ensures (n / d) * m <= n && 1 <= n / d && n % (n / d) == 0 && n / (n / d) == d
  {
    CoDivisor(n, d);
    var q := n / d;
    MulAtLeast(q, d - m);
    assert q * d - q * m == q * (d - m);
  }

  lemma MulLeft(a: int, b: int, c: int)
    requires a <= b && 1 <= c
    ensures a * c <= b * c
  {
    assert b * c - a * c == (b - a) * c;
    assert b - a >= 1 ==> (b - a) * c >= 1 by {
      if b - a >= 1 { MulAtLeast(b - a, c); }
    }
  }

  /** The whole list from its small part: when `small` holds the divisors of
      n up to m, with m * (m + 1) > n, every larger divisor is the partner
      n / q of some q in `small`; so a strictly increasing list of divisors
      of n that holds `small` and their partners `large` is `factors(n)`. */
  lemma CompleteFromSmall(n: int, m: int, small: seq<int>, large: seq<int>, s: seq<int>)
    requires 1 <= m < n && n < m * (m + 1)
    requires DivisorsUpTo(n, m) == small
    requires PairedList(n, small, large, s)
    ensures s == Divisors(n)
  {
    DivisorsUpToMembers(n, m);
    PartnerListDivides(n, m, small, large, s);
    forall d | 1 <= d <= n && n % d == 0
      ensures d in s
    {
      if m < d {
        var i := PartnerIndex(n, m, small, large, d);
        assert large[i] in s;
      } else {
        assert IsDivisorUpTo(d, n, m);
        var i :| 0 <= i < |small| && small[i] == d;
        assert small[i] in s;
      }
    }
    DivisorListUnique(s, n);
  }

  lemma PartnerListDivides(n: int, m: int, small: seq<int>, large: seq<int>, s: seq<int>)
    requires 1 <= n
    requires forall q :: q in small <==> IsDivisorUpTo(q, n, m)
    requires forall d :: d in s ==> d in small || d in large
    requires |large| == |small|
    requires forall i :: 0 <= i < |small| ==> small[i] * large[i] == n
    ensures forall d :: d in s ==> 1 <= d <= n && n % d == 0
  {
    forall d | d in s
      ensures 1 <= d <= n && n % d == 0
    {
      var i :| 0 <= i < |small| && (d == small[i] || d == large[i]);
      assert small[i] in small;
      PartnersDivide(n, small[i], large[i]);
    }
  }

  lemma PartnersDivide(n: int, a: int, b: int)
    requires 1 <= a && 1 <= n && a * b == n
    ensures 1 <= a <= n && n % a == 0
    ensures 1 <= b <= n && n % b == 0
  {
    assert b <= 0 ==> a * b <= 0 by {
      if b <= 0 { MulNonPositive(a, b); }
    }
    MulAtLeast(a, b);
    DivExact(n, a, b);
    assert n == b * a;
    DivExact(n, b, a);
  }

  /** A divisor d of n above m is the partner of a divisor up to m. */
  lemma PartnerIndex(n: int, m: int, small: seq<int>, large: seq<int>, d: int) returns (i: int)
    requires 1 <= m < d <= n && n % d == 0 && n < m * (m + 1)
    requires forall q :: q in small <==> IsDivisorUpTo(q, n, m)
    requires |large| == |small|
    requires forall i :: 0 <= i < |small| ==> small[i] * large[i] == n
    ensures 0 <= i < |large| && large[i] == d
  {
    LargeDivisorPairsSmall(n, d, m);
    var q := n / d;
    PartnerAtMost(n, m, q);
    assert q in small;
    i :| 0 <= i < |small| && small[i] == q;
    DivExact(n, q, large[i]);
  }

  lemma PartnerAtMost(n: int, m: int, q: int)
    requires 1 <= m && n < m * (m + 1) && q * m <= n
    ensures q <= m
  {
    assert q >= m + 1 ==> q * m >= (m + 1) * m by {
      if q >= m + 1 { MulLeft(m + 1, q, m); }
    }
    assert (m + 1) * m == m * (m + 1);
  }

  /** A list whose elements are the divisors in `small` and their partners. */
  predicate PairedList(n: int, small: seq<int>, large: seq<int>, s: seq<int>)
  {
    && StrictlyIncreasing(s)
    && (forall d :: d in s ==> d in small || d in large)
    && |large| == |small|
    && (forall i :: 0 <= i < |small| ==> small[i] * large[i] == n && small[i] in s && large[i] in s)
  }

  lemma SmallDivisors128()
    ensures DivisorsUpTo(128, 11) == [1, 2, 4, 8]
  {
    assert DivisorsUpTo(128, 6) == [1, 2, 4];
  }

  lemma PairedList128()
    ensures PairedList(128, [1, 2, 4, 8], [128, 64, 32, 16], [1, 2, 4, 8, 16, 32, 64, 128])
  {
  }

  /** The check at Task2Multi.py line 22. */
  lemma Divisors128()
    ensures Divisors(128) == [1, 2, 4, 8, 16, 32, 64, 128]
  {
    SmallDivisors128();
    PairedList128();
    CompleteFromSmall(128, 11, [1, 2, 4, 8], [128, 64, 32, 16], [1, 2, 4, 8, 16, 32, 64, 128]);
  }

  lemma SmallDivisors255()
    ensures DivisorsUpTo(255, 16) == [1, 3, 5, 15]
  {
    assert DivisorsUpTo(255, 8) == [1, 3, 5];
  }

  lemma PairedList255()
    ensures PairedList(255, [1, 3, 5, 15], [255, 85, 51, 17], [1, 3, 5, 15, 17, 51, 85, 255])
  {
  }

  /** The check at Task2Multi.py line 23. */
  lemma Divisors255()
    ensures Divisors(255) == [1, 3, 5, 15, 17, 51, 85, 255]
  {
    SmallDivisors255();
    PairedList255();
    CompleteFromSmall(255, 16, [1, 3, 5, 15], [255, 85, 51, 17], [1, 3, 5, 15, 17, 51, 85, 255]);
  }

  /** The scan of `factors(99999)` up to 316 (the first k with
      k * (k + 1) > 99999), block by block. */
  lemma Scan99999To16()
    ensures DivisorsUpTo(99999, 16) == [1, 3, 9]
  {
    assert DivisorsUpTo(99999, 8) == [1, 3];
  }

  lemma Scan99999To32()
    ensures DivisorsUpTo(99999, 32) == [1, 3, 9]
  {
    Scan99999To16();
    assert DivisorsUpTo(99999, 20) == [1, 3, 9];
    assert DivisorsUpTo(99999, 24) == [1, 3, 9];
    assert DivisorsUpTo(99999, 28) == [1, 3, 9];
  }

  lemma Scan99999To48()
    ensures DivisorsUpTo(99999, 48) == [1, 3, 9, 41]
  {
    Scan99999To32();
    assert DivisorsUpTo(99999, 36) == [1, 3, 9];
    assert DivisorsUpTo(99999, 40) == [1, 3, 9];
    assert DivisorsUpTo(99999, 44) == [1, 3, 9, 41];
  }

  lemma Scan99999To64()
    ensures DivisorsUpTo(99999, 64) == [1, 3, 9, 41]
  {
    Scan99999To48();
    assert DivisorsUpTo(99999, 52) == [1, 3, 9, 41];
    assert DivisorsUpTo(99999, 56) == [1, 3, 9, 41];
    assert DivisorsUpTo(99999, 60) == [1, 3, 9, 41];
  }

  lemma Scan99999To80()
    ensures DivisorsUpTo(99999, 80) == [1, 3, 9, 41]
  {
    Scan99999To64();
    assert DivisorsUpTo(99999, 68) == [1, 3, 9, 41];
    assert DivisorsUpTo(99999, 72) == [1, 3, 9, 41];
    assert DivisorsUpTo(99999, 76) == [1, 3, 9, 41];
  }

  lemma Scan99999To96()
    ensures DivisorsUpTo(99999, 96) == [1, 3, 9, 41]
  {
    Scan99999To80();
    assert DivisorsUpTo(99999, 84) == [1, 3, 9, 41];
    assert DivisorsUpTo(99999, 88) == [1, 3, 9, 41];
    assert DivisorsUpTo(99999, 92) == [1, 3, 9, 41];
  }

  lemma Scan99999To112()
    ensures DivisorsUpTo(99999, 112) == [1, 3, 9, 41]
  {
    Scan99999To96();
    assert DivisorsUpTo(99999, 100) == [1, 3, 9, 41];
    assert DivisorsUpTo(99999, 104) == [1, 3, 9, 41];
    assert DivisorsUpTo(99999, 108) == [1, 3, 9, 41];
  }

  lemma Scan99999To128()
    ensures DivisorsUpTo(99999, 128) == [1, 3, 9, 41, 123]
  {
    Scan99999To112();
    assert DivisorsUpTo(99999, 116) == [1, 3, 9, 41];
    assert DivisorsUpTo(99999, 120) == [1, 3, 9, 41];
    assert DivisorsUpTo(99999, 124) == [1, 3, 9, 41, 123];
  }

  lemma Scan99999To144()
    ensures DivisorsUpTo(99999, 144) == [1, 3, 9, 41, 123]
  {
    Scan99999To128();
    assert DivisorsUpTo(99999, 132) == [1, 3, 9, 41, 123];
    assert DivisorsUpTo(99999, 136) == [1, 3, 9, 41, 123];
    assert DivisorsUpTo(99999, 140) == [1, 3, 9, 41, 123];
  }

  lemma Scan99999To160()
    ensures DivisorsUpTo(99999, 160) == [1, 3, 9, 41, 123]
  {
    Scan99999To144();
    assert DivisorsUpTo(99999, 148) == [1, 3, 9, 41, 123];
    assert DivisorsUpTo(99999, 152) == [1, 3, 9, 41, 123];
    assert DivisorsUpTo(99999, 156) == [1, 3, 9, 41, 123];
  }

  lemma Scan99999To176()
    ensures DivisorsUpTo(99999, 176) == [1, 3, 9, 41, 123]
  {
    Scan99999To160();
    assert DivisorsUpTo(99999, 164) == [1, 3, 9, 41, 123];
    assert DivisorsUpTo(99999, 168) == [1, 3, 9, 41, 123];
    assert DivisorsUpTo(99999, 172) == [1, 3, 9, 41, 123];
  }

  lemma Scan99999To192()
    ensures DivisorsUpTo(99999, 192) == [1, 3, 9, 41, 123]
  {
    Scan99999To176();
    assert DivisorsUpTo(99999, 180) == [1, 3, 9, 41, 123];
    assert DivisorsUpTo(99999, 184) == [1, 3, 9, 41, 123];
    assert DivisorsUpTo(99999, 188) == [1, 3, 9, 41, 123];
  }

  lemma Scan99999To208()
    ensures DivisorsUpTo(99999, 208) == [1, 3, 9, 41, 123]
  {
    Scan99999To192();
    assert DivisorsUpTo(99999, 196) == [1, 3, 9, 41, 123];
    assert DivisorsUpTo(99999, 200) == [1, 3, 9, 41, 123];
    assert DivisorsUpTo(99999, 204) == [1, 3, 9, 41, 123];
  }

  lemma Scan99999To224()
    ensures DivisorsUpTo(99999, 224) == [1, 3, 9, 41, 123]
  {
    Scan99999To208();
    assert DivisorsUpTo(99999, 212) == [1, 3, 9, 41, 123];
    assert DivisorsUpTo(99999, 216) == [1, 3, 9, 41, 123];
    assert DivisorsUpTo(99999, 220) == [1, 3, 9, 41, 123];
  }

  lemma Scan99999To240()
    ensures DivisorsUpTo(99999, 240) == [1, 3, 9, 41, 123]
  {
    Scan99999To224();
    assert DivisorsUpTo(99999, 228) == [1, 3, 9, 41, 123];
    assert DivisorsUpTo(99999, 232) == [1, 3, 9, 41, 123];
    assert DivisorsUpTo(99999, 236) == [1, 3, 9, 41, 123];
  }

  lemma Scan99999To256()
    ensures DivisorsUpTo(99999, 256) == [1, 3, 9, 41, 123]
  {
    Scan99999To240();
    assert DivisorsUpTo(99999, 244) == [1, 3, 9, 41, 123];
    assert DivisorsUpTo(99999, 248) == [1, 3, 9, 41, 123];
    assert DivisorsUpTo(99999, 252) == [1, 3, 9, 41, 123];
  }

  lemma Scan99999To272()
    ensures DivisorsUpTo(99999, 272) == [1, 3, 9, 41, 123, 271]
  {
    Scan99999To256();
    assert DivisorsUpTo(99999, 260) == [1, 3, 9, 41, 123];
    assert DivisorsUpTo(99999, 264) == [1, 3, 9, 41, 123];
    assert DivisorsUpTo(99999, 268) == [1, 3, 9, 41, 123];
  }

  lemma Scan99999To288()
    ensures DivisorsUpTo(99999, 288) == [1, 3, 9, 41, 123, 271]
  {
    Scan99999To272();
    assert DivisorsUpTo(99999, 276) == [1, 3, 9, 41, 123, 271];
    assert DivisorsUpTo(99999, 280) == [1, 3, 9, 41, 123, 271];
    assert DivisorsUpTo(99999, 284) == [1, 3, 9, 41, 123, 271];
  }

  lemma Scan99999To304()
    ensures DivisorsUpTo(99999, 304) == [1, 3, 9, 41, 123, 271]
  {
    Scan99999To288();
    assert DivisorsUpTo(99999, 292) == [1, 3, 9, 41, 123, 271];
    assert DivisorsUpTo(99999, 296) == [1, 3, 9, 41, 123, 271];
    assert DivisorsUpTo(99999, 300) == [1, 3, 9, 41, 123, 271];
  }

  lemma Scan99999To316()
    ensures DivisorsUpTo(99999, 316) == [1, 3, 9, 41, 123, 271]
  {
    Scan99999To304();
    assert DivisorsUpTo(99999, 308) == [1, 3, 9, 41, 123, 271];
    assert DivisorsUpTo(99999, 312) == [1, 3, 9, 41, 123, 271];
  }

  lemma PairedList99999()
    ensures PairedList(99999, [1, 3, 9, 41, 123, 271], [99999, 33333, 11111, 2439, 813, 369],
                       [1, 3, 9, 41, 123, 271, 369, 813, 2439, 11111, 33333, 99999])
  {
  }

  /** The check at Task2Multi.py line 24. */
  lemma Divisors99999()
    ensures Divisors(99999) == [1, 3, 9, 41, 123, 271, 369, 813, 2439, 11111, 33333, 99999]
  {
    Scan99999To316();
    PairedList99999();
    CompleteFromSmall(99999, 316, [1, 3, 9, 41, 123, 271], [99999, 33333, 11111, 2439, 813, 369],
                      [1, 3, 9, 41, 123, 271, 369, 813, 2439, 11111, 33333, 99999]);
  }

  /** `factorize(*numbers)`: one divisor list per input, in input order,
      whatever order the worker pool finishes them in. */
  function Factorize(numbers: seq<int>): (r: seq<seq<int>>)
    ensures |r| == |numbers|
    ensures forall k :: 0 <= k < |numbers| ==> r[k] == Divisors(numbers[k])
  {
    if numbers == [] then [] else [Divisors(numbers[0])] + Factorize(numbers[1..])
  }

  /** Splitting the inputs into chunks and joining the chunk results in order
      gives the same lists as one pass over all inputs. */
  lemma FactorizeChunks(a: seq<int>, b: seq<int>)
    ensures Factorize(a + b) == Factorize(a) + Factorize(b)
  {
    var l, r := Factorize(a + b), Factorize(a) + Factorize(b);
    assert |l| == |r|;
    forall k | 0 <= k < |l|
      ensures l[k] == r[k]
    {
      if k < |a| {
        assert (a + b)[k] == a[k];
      } else {
        assert (a + b)[k] == b[k - |a|];
      }
    }
  }

  /** The first three results of the demonstration at Task2Multi.py lines 19
      and 22-24, each in its input position. */
  lemma FactorizeDemonstration()
    ensures Factorize([128, 255, 99999]) ==
      [[1, 2, 4, 8, 16, 32, 64, 128],
       [1, 3, 5, 15, 17, 51, 85, 255],
       [1, 3, 9, 41, 123, 271, 369, 813, 2439, 11111, 33333, 99999]]
  {
    Divisors128();
    Divisors255();
    Divisors99999();
  }
}
