/** `tools/primes.py`: a list of primes grown by trial division against the
    primes already found, from the seed 2..19 until the last one reaches
    2^17. */
module Primes {
  import opened Common

  const SEED: seq<nat> := [2, 3, 5, 7, 11, 13, 17, 19]
  const LIMIT: nat := 0x2_0000

  predicate IsPrimeNat(n: nat)
  {
    n >= 2 && forall d :: 2 <= d < n ==> n % d != 0
  }

  predicate Positive(ps: seq<nat>)
  {
    forall i :: 0 <= i < |ps| ==> ps[i] > 0
  }

  /** What `is_prime(primes, n)` returns: `False` at the first prime that
      divides `n`, `True` at the first prime whose square exceeds `n`, and
      `None` when the list runs out first. */
  function Scan(primes: seq<nat>, n: nat): Option<bool>
    requires Positive(primes)
  {
    if primes == [] then None
    else if n % primes[0] == 0 then Some(false)
    else if primes[0] * primes[0] > n then Some(true)
    else Scan(primes[1..], n)
  }

  /** `is_prime`. */
  method IsPrime(primes: seq<nat>, n: nat) returns (r: Option<bool>)
    requires Positive(primes)
    ensures r == Scan(primes, n)
  {
    var k := 0;
    while k < |primes|
      invariant 0 <= k <= |primes|
      invariant Scan(primes, n) == Scan(primes[k..], n)
    {
      assert primes[k..][1..] == primes[k + 1..];
      var p := primes[k];
      if n % p == 0 {
        return Some(false);
      } else if p * p > n {
        return Some(true);
      }
      k := k + 1;
    }
    r := None;
  }

  /** The candidates `append_next_prime` tries from `c` on, stepping by 2:
      the first whose scan says `True`. `fuel` bounds the number of tries. */
  function Next(primes: seq<nat>, c: nat, fuel: nat): (r: Option<nat>)
    requires Positive(primes)
    ensures r.Some? ==> r.value >= c && (r.value - c) % 2 == 0 && Scan(primes, r.value) == Some(true)
    decreases fuel
  {
    if fuel == 0 then None
    else if Scan(primes, c) == Some(true) then Some(c)
    else Next(primes, c + 2, fuel - 1)
  }

  /** The list holds exactly the primes up to its last element, in order. */
  predicate PrimesUpTo(ps: seq<nat>)
  {
    |ps| > 0 && Increasing(ps)
    && (forall i :: 0 <= i < |ps| ==> IsPrimeNat(ps[i]))
    && (forall q :: 2 <= q <= ps[|ps| - 1] && IsPrimeNat(q) ==> q in ps)
  }

  /** The list being grown. */
  class PrimeList {
    var pns: seq<nat>

    constructor ()
      ensures pns == SEED
    {
      pns := SEED;
    }

    /** `append_next_prime`: the first odd candidate after the last prime
        that `is_prime` accepts is appended; `false` when `fuel` tries do
        not find one. */
    method AppendNextPrime(fuel: nat) returns (ok: bool)
      requires |pns| > 0 && Positive(pns)
      modifies this
      ensures var r := Next(old(pns), old(pns)[|old(pns)| - 1] + 2, fuel);
        ok == r.Some? && pns == if r.Some? then old(pns) + [r.value] else old(pns)
    {
      var ps := pns;
      var np := ps[|ps| - 1] + 2;
      var left := fuel;
      while left > 0
        invariant pns == ps
        invariant Next(ps, ps[|ps| - 1] + 2, fuel) == Next(ps, np, left)
      {
        var isPrime := IsPrime(ps, np);
        if isPrime == Some(true) {
          pns := ps + [np];
          return true;
        }
        np := np + 2;
        left := left - 1;
      }
      return false;
    }
  }

  /** What the driver loop keeps of the list it grows: the seed's bounds. */
  predicate Grown(ps: seq<nat>)
  {
    |ps| >= 8 && Positive(ps) && Increasing(ps) && ps[|ps| - 1] >= 19
  }

  /** The driver: grow the seed until the last prime reaches 2^17, then
      report the length and the last two primes. `exact` records that every
      prime found was below the square of its predecessor, the range in
      which trial division by the list is complete; then the list is the
      primes up to its end and the first prime reported is 131071. */
  method Generate(fuel: nat) returns (ok: bool, pns: seq<nat>, count: nat, lastTwo: seq<nat>, ghost exact: bool)
    ensures ok ==> count == |pns| >= 2 && lastTwo == pns[|pns| - 2..]
    ensures ok ==> pns[|pns| - 2] < LIMIT <= pns[|pns| - 1]
    ensures ok && exact ==> PrimesUpTo(pns)
    ensures ok && exact ==> lastTwo[0] == 131071
  {
    var list := new PrimeList();
    ghost var ex := true;
    SeedIsPrimesUpTo();
    while list.pns[|list.pns| - 1] < LIMIT
      invariant Grown(list.pns) && list.pns[|list.pns| - 2] < LIMIT
      invariant ex ==> PrimesUpTo(list.pns)
      decreases LIMIT - list.pns[|list.pns| - 1]
    {
      ghost var before := list.pns;
      var appended := list.AppendNextPrime(fuel);
      if !appended {
        return false, [], 0, [], false;
      }
      ex := GrowStep(before, fuel, ex);
    }
    ok := true;
    pns := list.pns;
    count := |pns|;
    lastTwo := pns[|pns| - 2..];
    exact := ex;
    if exact {
      LargestBelowLimit(pns);
    }
  }

  /** One round of the driver loop keeps its invariants; the list stays
      exact when the new prime lies below the square of the previous one. */
  lemma GrowStep(before: seq<nat>, fuel: nat, ex: bool) returns (ex': bool)
    requires Grown(before) && Next(before, before[|before| - 1] + 2, fuel).Some?
    requires ex ==> PrimesUpTo(before)
    ensures var after := before + [Next(before, before[|before| - 1] + 2, fuel).value];
      Grown(after) && after[|after| - 2] == before[|before| - 1] && (ex' ==> PrimesUpTo(after))
  {
    var last := before[|before| - 1];
    var c := Next(before, last + 2, fuel).value;
    if ex && c < last * last {
      NextExact(before, fuel);
      ex' := true;
    } else {
      ex' := false;
    }
  }

  /** When the driver stops on an exact list, its last element is the first
      prime at or above 2^17 and the one before it the largest prime below. */
  lemma StopsAtFirstPrimePastLimit(ps: seq<nat>)
    requires PrimesUpTo(ps) && |ps| >= 2 && ps[|ps| - 2] < LIMIT <= ps[|ps| - 1]
    ensures IsPrimeNat(ps[|ps| - 1]) && forall q :: LIMIT <= q < ps[|ps| - 1] ==> !IsPrimeNat(q)
    ensures IsPrimeNat(ps[|ps| - 2]) && forall q :: ps[|ps| - 2] < q < LIMIT ==> !IsPrimeNat(q)
  {
    forall q | ps[|ps| - 2] < q < ps[|ps| - 1] ensures !IsPrimeNat(q) {
      if IsPrimeNat(q) {
        BetweenLastTwo(ps, q);
      }
    }
  }

  /** On an exact list the driver reports 131071, the largest prime below
      2^17. */
  lemma LargestBelowLimit(ps: seq<nat>)
    requires PrimesUpTo(ps) && |ps| >= 2 && ps[|ps| - 2] < LIMIT <= ps[|ps| - 1]
    ensures ps[|ps| - 2] == 131071
  {
    StopsAtFirstPrimePastLimit(ps);
    Prime131071();
  }

  /** An increasing list holds nothing strictly between its last two
      elements. */
  lemma BetweenLastTwo(ps: seq<nat>, q: nat)
    requires Increasing(ps) && |ps| >= 2 && q in ps
    ensures q <= ps[|ps| - 2] || q == ps[|ps| - 1]
  {
    var j :| 0 <= j < |ps| && ps[j] == q;
    if j < |ps| - 2 {
      assert ps[j] < ps[|ps| - 2];
    }
  }

  /** The seed is the primes up to 19. */
  lemma SeedIsPrimesUpTo()
    ensures PrimesUpTo(SEED)
  {
    SeedPrimes();
    forall q | 2 <= q <= 19 && q !in SEED ensures !IsPrimeNat(q) {
      if q % 2 == 0 {
        NotPrime(q, 2);
      } else {
        assert q == 9 || q == 15;
        NotPrime(q, 3);
      }
    }
  }

  lemma SeedPrimes()
    ensures forall i :: 0 <= i < |SEED| ==> IsPrimeNat(SEED[i])
  {
    assert TrialFrom(19, 10);
    assert TrialFrom(19, 2);
    assert TrialFrom(17, 9);
    assert TrialFrom(17, 2);
    assert TrialFrom(13, 7);
    assert TrialFrom(13, 2);
    assert TrialFrom(11, 2);
    assert TrialFrom(7, 2);
    assert TrialFrom(5, 2);
    assert TrialFrom(3, 2);
    assert TrialFrom(2, 2);
    TrialSound(2, 2);
    TrialSound(3, 2);
    TrialSound(5, 2);
    TrialSound(7, 2);
    TrialSound(11, 2);
    TrialSound(13, 2);
    TrialSound(17, 2);
    TrialSound(19, 2);
  }

  /** No divisor of `n` in `d..n-1`, checked one candidate at a time. */
  function TrialFrom(n: nat, d: nat): bool
    requires d >= 1
    decreases n - d
  {
    d >= n || (n % d != 0 && TrialFrom(n, d + 1))
  }

  lemma {:induction false} TrialSound(n: nat, d: nat)
    requires d >= 1 && TrialFrom(n, d)
    ensures forall e :: d <= e < n ==> n % e != 0
    decreases n - d
  {
    if d < n {
      TrialSound(n, d + 1);
    }
  }

  /** Appending the candidate `append_next_prime` found keeps the list
      exact, when that candidate lies below the square of the last prime:
      it is the next prime. */
  lemma NextExact(ps: seq<nat>, fuel: nat)
    requires PrimesUpTo(ps) && ps[|ps| - 1] >= 3
    requires var r := Next(ps, ps[|ps| - 1] + 2, fuel);
      r.Some? && r.value < ps[|ps| - 1] * ps[|ps| - 1]
    ensures var c := Next(ps, ps[|ps| - 1] + 2, fuel).value;
      IsPrimeNat(c) && (forall q :: ps[|ps| - 1] < q < c ==> !IsPrimeNat(q)) && PrimesUpTo(ps + [c])
  {
    var last := ps[|ps| - 1];
    var c := Next(ps, last + 2, fuel).value;
    ScanExact(ps, c);
    NoPrimeBetween(ps, fuel);
    var ps' := ps + [c];
    forall q | 2 <= q <= c && IsPrimeNat(q) ensures q in ps' {
      if q <= last {
        assert q in ps;
      }
    }
  }

  /** The candidates skipped between the last prime and the one found are
      not prime: the even ones have the factor 2, the odd ones were scanned. */
  lemma NoPrimeBetween(ps: seq<nat>, fuel: nat)
    requires PrimesUpTo(ps) && ps[|ps| - 1] >= 3
    requires var r := Next(ps, ps[|ps| - 1] + 2, fuel);
      r.Some? && r.value < ps[|ps| - 1] * ps[|ps| - 1]
    ensures forall q :: ps[|ps| - 1] < q < Next(ps, ps[|ps| - 1] + 2, fuel).value ==> !IsPrimeNat(q)
  {
    var last := ps[|ps| - 1];
    var c := Next(ps, last + 2, fuel).value;
    NextSkips(ps, last + 2, fuel);
    forall q | last < q < c ensures !IsPrimeNat(q) {
      SkippedNotPrime(ps, c, q);
    }
  }

  lemma SkippedNotPrime(ps: seq<nat>, c: nat, q: nat)
    requires PrimesUpTo(ps) && ps[|ps| - 1] >= 3 && ps[|ps| - 1] < q < c < ps[|ps| - 1] * ps[|ps| - 1]
    requires forall x :: ps[|ps| - 1] + 2 <= x < c && (x - (ps[|ps| - 1] + 2)) % 2 == 0 ==> Scan(ps, x) != Some(true)
    ensures !IsPrimeNat(q)
  {
    var last := ps[|ps| - 1];
    assert last % 2 != 0;
    if q % 2 == 0 {
      NotPrime(q, 2);
    } else {
      assert last + 2 <= q && (q - (last + 2)) % 2 == 0;
      ScanExact(ps, q);
    }
  }

  /** No candidate the search passes over is accepted by the scan. */
  lemma {:induction false} NextSkips(ps: seq<nat>, c0: nat, fuel: nat)
    requires Positive(ps) && Next(ps, c0, fuel).Some?
    ensures forall q :: c0 <= q < Next(ps, c0, fuel).value && (q - c0) % 2 == 0 ==> Scan(ps, q) != Some(true)
    decreases fuel
  {
    if Scan(ps, c0) != Some(true) {
      var v := Next(ps, c0, fuel).value;
      NextSkips(ps, c0 + 2, fuel - 1);
      forall q | c0 < q < v && (q - c0) % 2 == 0 ensures Scan(ps, q) != Some(true) {
        assert c0 + 2 <= q && (q - (c0 + 2)) % 2 == 0;
      }
    }
  }

  /** Trial division by every prime up to the last is exact for numbers
      beyond the last and below its square. */
  lemma ScanExact(ps: seq<nat>, n: nat)
    requires PrimesUpTo(ps) && ps[|ps| - 1] < n < ps[|ps| - 1] * ps[|ps| - 1]
    ensures Scan(ps, n) == Some(IsPrimeNat(n))
  {
    assert ps[0..] == ps;
    ScanFrom(ps, n, 0);
  }

  lemma {:induction false} ScanFrom(ps: seq<nat>, n: nat, k: nat)
    requires PrimesUpTo(ps) && ps[|ps| - 1] < n < ps[|ps| - 1] * ps[|ps| - 1] && k < |ps|
    requires forall j :: 0 <= j < k ==> n % ps[j] != 0
    ensures Scan(ps[k..], n) == Some(IsPrimeNat(n))
    decreases |ps| - k
  {
    var p := ps[k];
    var last := ps[|ps| - 1];
    if n % p == 0 {
      assert p >= 2 && p <= last;
    } else if p * p > n {
      if !IsPrimeNat(n) {
        var q := SmallPrimeFactor(n);
        if q >= p {
          MulMono(p, q);
          assert false;
        }
      }
    } else {
      assert ps[k..][1..] == ps[k + 1..];
      ScanFrom(ps, n, k + 1);
    }
  }

  lemma MulMono(a: nat, b: nat)
    requires a <= b
    ensures a * a <= b * b
  {
    assert a * a <= a * b <= b * b;
  }

  /** A composite number has a prime factor whose square does not exceed it. */
  lemma SmallPrimeFactor(n: nat) returns (q: nat)
    requires n >= 2 && !IsPrimeNat(n)
    ensures IsPrimeNat(q) && n % q == 0 && q * q <= n
  {
    var d :| 2 <= d < n && n % d == 0;
    q := MinDivisor(n, d);
    PrimeOfMin(n, q);
    CofactorBound(n, q);
  }

  /** The smallest divisor above 1 is prime. */
  lemma PrimeOfMin(n: nat, q: nat)
    requires 2 <= q && n % q == 0 && forall e :: 2 <= e < q ==> n % e != 0
    ensures IsPrimeNat(q)
  {
    forall e | 2 <= e < q ensures q % e != 0 {
      if q % e == 0 {
        DivTrans(n, q, e);
      }
    }
  }

  /** The smallest proper divisor of `n` is at most its square root. */
  lemma CofactorBound(n: nat, q: nat)
    requires 2 <= q < n && n % q == 0 && forall e :: 2 <= e < q ==> n % e != 0
    ensures q * q <= n
  {
    var k := n / q;
    assert n == q * k;
    if k < q {
      assert n == k * q + 0;
      ModUnique(n, k, q, 0);
      assert false;
    }
    MulLe(q, q, k);
  }

  /** The smallest divisor of `n` from 2 up to `d`. */
  lemma {:induction false} MinDivisor(n: nat, d: nat) returns (m: nat)
    requires 2 <= d < n && n % d == 0
    ensures 2 <= m <= d && n % m == 0 && forall e :: 2 <= e < m ==> n % e != 0
    decreases d
  {
    if e :| 2 <= e < d && n % e == 0 {
      m := MinDivisor(n, e);
    } else {
      m := d;
    }
  }

  lemma DivTrans(a: nat, b: nat, c: nat)
    requires b > 0 && c > 0 && a % b == 0 && b % c == 0
    ensures a % c == 0
  {
    var x := a / b;
    var y := b / c;
    assert a == b * x;
    assert b == c * y;
    assert a == c * (y * x);
    ModUnique(a, c, y * x, 0);
  }

  /** Division with remainder is unique. */
  lemma ModUnique(n: int, c: int, q: int, r: int)
    requires c > 0 && n == c * q + r && 0 <= r < c
    ensures n % c == r
  {
    var q0 := n / c;
    var r0 := n % c;
    assert n == c * q0 + r0;
    assert c * (q - q0) == r0 - r;
    if q - q0 >= 1 {
      MulPos(c, q - q0);
    } else if q0 - q >= 1 {
      MulPos(c, q0 - q);
    }
  }

  lemma MulLe(a: nat, b: nat, c: nat)
    requires b <= c
    ensures a * b <= a * c
  {
  }

  lemma MulPos(c: int, e: int)
    requires c > 0 && e >= 1
    ensures c * e >= c
  {
  }

  lemma NotPrime(q: nat, d: nat)
    requires 2 <= d < q && q % d == 0
    ensures !IsPrimeNat(q)
  {
  }

  /** No divisor of `n` in `d..s`, checked one candidate at a time. */
  function NoDivisorIn(n: nat, d: nat, s: nat): bool
    requires d >= 1
    decreases s + 1 - d
  {
    d > s || (n % d != 0 && NoDivisorIn(n, d + 1, s))
  }

  lemma {:induction false} NoDivisorSound(n: nat, d: nat, s: nat)
    requires d >= 1 && NoDivisorIn(n, d, s)
    ensures forall e :: d <= e <= s ==> n % e != 0
    decreases s + 1 - d
  {
    if d <= s {
      NoDivisorSound(n, d + 1, s);
    }
  }

  /** A number with no divisor from 2 up to a bound whose square exceeds
      it is prime. */
  lemma PrimeByTrial(n: nat, s: nat)
    requires n >= 2 && s * s >= n && NoDivisorIn(n, 2, s)
    ensures IsPrimeNat(n)
  {
    NoDivisorSound(n, 2, s);
    if !IsPrimeNat(n) {
      var q := SmallPrimeFactor(n);
      if q > s {
        MulMono(s + 1, q);
      }
    }
  }

  lemma NoDivisorFrom323()
    ensures NoDivisorIn(131071, 323, 363)
  {
    assert NoDivisorIn(131071, 363, 363);
    assert NoDivisorIn(131071, 361, 363);
    assert NoDivisorIn(131071, 359, 363);
    assert NoDivisorIn(131071, 357, 363);
    assert NoDivisorIn(131071, 355, 363);
    assert NoDivisorIn(131071, 353, 363);
    assert NoDivisorIn(131071, 351, 363);
    assert NoDivisorIn(131071, 349, 363);
    assert NoDivisorIn(131071, 347, 363);
    assert NoDivisorIn(131071, 345, 363);
    assert NoDivisorIn(131071, 343, 363);
    assert NoDivisorIn(131071, 341, 363);
    assert NoDivisorIn(131071, 339, 363);
    assert NoDivisorIn(131071, 337, 363);
    assert NoDivisorIn(131071, 335, 363);
    assert NoDivisorIn(131071, 333, 363);
    assert NoDivisorIn(131071, 331, 363);
    assert NoDivisorIn(131071, 329, 363);
    assert NoDivisorIn(131071, 327, 363);
    assert NoDivisorIn(131071, 325, 363);
  }

  lemma NoDivisorFrom283()
    requires NoDivisorIn(131071, 323, 363)
    ensures NoDivisorIn(131071, 283, 363)
  {
    assert NoDivisorIn(131071, 321, 363);
    assert NoDivisorIn(131071, 319, 363);
    assert NoDivisorIn(131071, 317, 363);
    assert NoDivisorIn(131071, 315, 363);
    assert NoDivisorIn(131071, 313, 363);
    assert NoDivisorIn(131071, 311, 363);
    assert NoDivisorIn(131071, 309, 363);
    assert NoDivisorIn(131071, 307, 363);
    assert NoDivisorIn(131071, 305, 363);
    assert NoDivisorIn(131071, 303, 363);
    assert NoDivisorIn(131071, 301, 363);
    assert NoDivisorIn(131071, 299, 363);
    assert NoDivisorIn(131071, 297, 363);
    assert NoDivisorIn(131071, 295, 363);
    assert NoDivisorIn(131071, 293, 363);
    assert NoDivisorIn(131071, 291, 363);
    assert NoDivisorIn(131071, 289, 363);
    assert NoDivisorIn(131071, 287, 363);
    assert NoDivisorIn(131071, 285, 363);
  }

  lemma NoDivisorFrom243()
    requires NoDivisorIn(131071, 283, 363)
    ensures NoDivisorIn(131071, 243, 363)
  {
    assert NoDivisorIn(131071, 281, 363);
    assert NoDivisorIn(131071, 279, 363);
    assert NoDivisorIn(131071, 277, 363);
    assert NoDivisorIn(131071, 275, 363);
    assert NoDivisorIn(131071, 273, 363);
    assert NoDivisorIn(131071, 271, 363);
    assert NoDivisorIn(131071, 269, 363);
    assert NoDivisorIn(131071, 267, 363);
    assert NoDivisorIn(131071, 265, 363);
    assert NoDivisorIn(131071, 263, 363);
    assert NoDivisorIn(131071, 261, 363);
    assert NoDivisorIn(131071, 259, 363);
    assert NoDivisorIn(131071, 257, 363);
    assert NoDivisorIn(131071, 255, 363);
    assert NoDivisorIn(131071, 253, 363);
    assert NoDivisorIn(131071, 251, 363);
    assert NoDivisorIn(131071, 249, 363);
    assert NoDivisorIn(131071, 247, 363);
    assert NoDivisorIn(131071, 245, 363);
  }

  lemma NoDivisorFrom203()
    requires NoDivisorIn(131071, 243, 363)
    ensures NoDivisorIn(131071, 203, 363)
  {
    assert NoDivisorIn(131071, 241, 363);
    assert NoDivisorIn(131071, 239, 363);
    assert NoDivisorIn(131071, 237, 363);
    assert NoDivisorIn(131071, 235, 363);
    assert NoDivisorIn(131071, 233, 363);
    assert NoDivisorIn(131071, 231, 363);
    assert NoDivisorIn(131071, 229, 363);
    assert NoDivisorIn(131071, 227, 363);
    assert NoDivisorIn(131071, 225, 363);
    assert NoDivisorIn(131071, 223, 363);
    assert NoDivisorIn(131071, 221, 363);
    assert NoDivisorIn(131071, 219, 363);
    assert NoDivisorIn(131071, 217, 363);
    assert NoDivisorIn(131071, 215, 363);
    assert NoDivisorIn(131071, 213, 363);
    assert NoDivisorIn(131071, 211, 363);
    assert NoDivisorIn(131071, 209, 363);
    assert NoDivisorIn(131071, 207, 363);
    assert NoDivisorIn(131071, 205, 363);
  }

  lemma NoDivisorFrom163()
    requires NoDivisorIn(131071, 203, 363)
    ensures NoDivisorIn(131071, 163, 363)
  {
    assert NoDivisorIn(131071, 201, 363);
    assert NoDivisorIn(131071, 199, 363);
    assert NoDivisorIn(131071, 197, 363);
    assert NoDivisorIn(131071, 195, 363);
    assert NoDivisorIn(131071, 193, 363);
    assert NoDivisorIn(131071, 191, 363);
    assert NoDivisorIn(131071, 189, 363);
    assert NoDivisorIn(131071, 187, 363);
    assert NoDivisorIn(131071, 185, 363);
    assert NoDivisorIn(131071, 183, 363);
    assert NoDivisorIn(131071, 181, 363);
    assert NoDivisorIn(131071, 179, 363);
    assert NoDivisorIn(131071, 177, 363);
    assert NoDivisorIn(131071, 175, 363);
    assert NoDivisorIn(131071, 173, 363);
    assert NoDivisorIn(131071, 171, 363);
    assert NoDivisorIn(131071, 169, 363);
    assert NoDivisorIn(131071, 167, 363);
    assert NoDivisorIn(131071, 165, 363);
  }

  lemma NoDivisorFrom123()
    requires NoDivisorIn(131071, 163, 363)
    ensures NoDivisorIn(131071, 123, 363)
  {
    assert NoDivisorIn(131071, 161, 363);
    assert NoDivisorIn(131071, 159, 363);
    assert NoDivisorIn(131071, 157, 363);
    assert NoDivisorIn(131071, 155, 363);
    assert NoDivisorIn(131071, 153, 363);
    assert NoDivisorIn(131071, 151, 363);
    assert NoDivisorIn(131071, 149, 363);
    assert NoDivisorIn(131071, 147, 363);
    assert NoDivisorIn(131071, 145, 363);
    assert NoDivisorIn(131071, 143, 363);
    assert NoDivisorIn(131071, 141, 363);
    assert NoDivisorIn(131071, 139, 363);
    assert NoDivisorIn(131071, 137, 363);
    assert NoDivisorIn(131071, 135, 363);
    assert NoDivisorIn(131071, 133, 363);
    assert NoDivisorIn(131071, 131, 363);
    assert NoDivisorIn(131071, 129, 363);
    assert NoDivisorIn(131071, 127, 363);
    assert NoDivisorIn(131071, 125, 363);
  }

  lemma NoDivisorFrom83()
    requires NoDivisorIn(131071, 123, 363)
    ensures NoDivisorIn(131071, 83, 363)
  {
    assert NoDivisorIn(131071, 121, 363);
    assert NoDivisorIn(131071, 119, 363);
    assert NoDivisorIn(131071, 117, 363);
    assert NoDivisorIn(131071, 115, 363);
    assert NoDivisorIn(131071, 113, 363);
    assert NoDivisorIn(131071, 111, 363);
    assert NoDivisorIn(131071, 109, 363);
    assert NoDivisorIn(131071, 107, 363);
    assert NoDivisorIn(131071, 105, 363);
    assert NoDivisorIn(131071, 103, 363);
    assert NoDivisorIn(131071, 101, 363);
    assert NoDivisorIn(131071, 99, 363);
    assert NoDivisorIn(131071, 97, 363);
    assert NoDivisorIn(131071, 95, 363);
    assert NoDivisorIn(131071, 93, 363);
    assert NoDivisorIn(131071, 91, 363);
    assert NoDivisorIn(131071, 89, 363);
    assert NoDivisorIn(131071, 87, 363);
    assert NoDivisorIn(131071, 85, 363);
  }

  lemma NoDivisorFrom43()
    requires NoDivisorIn(131071, 83, 363)
    ensures NoDivisorIn(131071, 43, 363)
  {
    assert NoDivisorIn(131071, 81, 363);
    assert NoDivisorIn(131071, 79, 363);
    assert NoDivisorIn(131071, 77, 363);
    assert NoDivisorIn(131071, 75, 363);
    assert NoDivisorIn(131071, 73, 363);
    assert NoDivisorIn(131071, 71, 363);
    assert NoDivisorIn(131071, 69, 363);
    assert NoDivisorIn(131071, 67, 363);
    assert NoDivisorIn(131071, 65, 363);
    assert NoDivisorIn(131071, 63, 363);
    assert NoDivisorIn(131071, 61, 363);
    assert NoDivisorIn(131071, 59, 363);
    assert NoDivisorIn(131071, 57, 363);
    assert NoDivisorIn(131071, 55, 363);
    assert NoDivisorIn(131071, 53, 363);
    assert NoDivisorIn(131071, 51, 363);
    assert NoDivisorIn(131071, 49, 363);
    assert NoDivisorIn(131071, 47, 363);
    assert NoDivisorIn(131071, 45, 363);
  }

  lemma NoDivisorFrom3()
    requires NoDivisorIn(131071, 43, 363)
    ensures NoDivisorIn(131071, 3, 363)
  {
    assert NoDivisorIn(131071, 41, 363);
    assert NoDivisorIn(131071, 39, 363);
    assert NoDivisorIn(131071, 37, 363);
    assert NoDivisorIn(131071, 35, 363);
    assert NoDivisorIn(131071, 33, 363);
    assert NoDivisorIn(131071, 31, 363);
    assert NoDivisorIn(131071, 29, 363);
    assert NoDivisorIn(131071, 27, 363);
    assert NoDivisorIn(131071, 25, 363);
    assert NoDivisorIn(131071, 23, 363);
    assert NoDivisorIn(131071, 21, 363);
    assert NoDivisorIn(131071, 19, 363);
    assert NoDivisorIn(131071, 17, 363);
    assert NoDivisorIn(131071, 15, 363);
    assert NoDivisorIn(131071, 13, 363);
    assert NoDivisorIn(131071, 11, 363);
    assert NoDivisorIn(131071, 9, 363);
    assert NoDivisorIn(131071, 7, 363);
    assert NoDivisorIn(131071, 5, 363);
  }

  lemma NoDivisorFrom2()
    requires NoDivisorIn(131071, 3, 363)
    ensures NoDivisorIn(131071, 2, 363)
  {
  }

  /** 2^17 - 1 is prime. */
  lemma Prime131071()
    ensures IsPrimeNat(131071)
  {
    NoDivisorFrom323();
    NoDivisorFrom283();
    NoDivisorFrom243();
    NoDivisorFrom203();
    NoDivisorFrom163();
    NoDivisorFrom123();
    NoDivisorFrom83();
    NoDivisorFrom43();
    NoDivisorFrom3();
    NoDivisorFrom2();
    PrimeByTrial(131071, 363);
  }
}
